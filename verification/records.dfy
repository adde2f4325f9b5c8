/** The single-record actions of the appointment controller: read one,
    create, partial update and delete. Each is a pure function of the store,
    the acting user and the request, returning the reply and the store it
    leaves behind. */
module AppointmentRecords {
  import opened Domain

  /** The body of a create request after schema parsing. A `status` may be
      present in the body; the controller overrides it. */
  datatype CreatePayload = CreatePayload(
    instructorId: Id,
    studentId: Id,
    startTime: Instant,
    endTime: Instant,
    kind: string,
    notes: Option<string>,
    status: Option<Status>)

  /** The body of an update request after schema parsing: every field is
      optional, and a missing field leaves the stored value alone. */
  datatype UpdatePayload = UpdatePayload(
    instructorId: Option<Id>,
    studentId: Option<Id>,
    startTime: Option<Instant>,
    endTime: Option<Instant>,
    status: Option<Status>,
    kind: Option<string>,
    notes: Option<string>)

  /** The conflict probe of `create`: some SCHEDULED appointment of the same
      instructor starts at exactly this instant. */
  predicate HasConflict(store: Store, instructorId: Id, start: Instant)
  {
    exists k :: k in store && store[k].instructorId == instructorId
      && store[k].startTime == start && store[k].status == Scheduled
  }

  /** The row `create` writes: the payload's fields with the status forced. */
  function Inserted(p: CreatePayload): Appointment
  {
    Appointment(p.instructorId, p.studentId, p.startTime, p.endTime, Scheduled, p.kind, p.notes)
  }

  /** The row `update` writes: each supplied field replaces the stored one. */
  function Patched(a: Appointment, p: UpdatePayload): Appointment
  {
    Appointment(
      p.instructorId.GetOr(a.instructorId),
      p.studentId.GetOr(a.studentId),
      p.startTime.GetOr(a.startTime),
      p.endTime.GetOr(a.endTime),
      p.status.GetOr(a.status),
      p.kind.GetOr(a.kind),
      if p.notes.Some? then p.notes else a.notes)
  }

  /** Read one appointment: 404 for a missing id before any ownership check,
      then 403 unless the actor is an administrator or the owning instructor. */
  function GetById(store: Store, actor: User, id: Id): (r: Reply<Appointment>)
    ensures r == Refused(NotFound) <==> id !in store
    ensures r == Refused(Forbidden) <==>
              id in store && actor.role != Admin && store[id].instructorId != actor.id
    ensures r.Done? <==>
              id in store && (actor.role == Admin || store[id].instructorId == actor.id)
    ensures r.Done? ==> r.status == 200 && r.value == store[id]
  {
    if id !in store then Refused(NotFound)
    else if !CanAccess(actor, store[id].instructorId) then Refused(Forbidden)
    else Done(200, store[id])
  }

  /** Create an appointment under the fresh id the store hands out. The checks
      run in a fixed order: schema, ownership of the proposed instructor,
      exact-start conflict; only then is the row inserted, as SCHEDULED. */
  function Create(store: Store, actor: User, parsed: Option<CreatePayload>, newId: Id): (r: Handled<Appointment>)
    requires newId !in store
    ensures r.reply.Refused? ==> r.after == store
    ensures r.reply == Refused(SchemaRejected) <==> parsed.None?
    ensures r.reply == Refused(Forbidden) <==>
              parsed.Some? && actor.role != Admin && parsed.value.instructorId != actor.id
    ensures r.reply == Refused(Conflict) <==>
              parsed.Some? && (actor.role == Admin || parsed.value.instructorId == actor.id)
              && exists k :: k in store && store[k].status == Scheduled
                   && store[k].instructorId == parsed.value.instructorId
                   && store[k].startTime == parsed.value.startTime
    ensures r.reply.Done? <==>
              && parsed.Some?
              && (actor.role == Admin || parsed.value.instructorId == actor.id)
              && !exists k :: k in store && store[k].status == Scheduled
                   && store[k].instructorId == parsed.value.instructorId
                   && store[k].startTime == parsed.value.startTime
    ensures r.reply.Done? ==>
              && parsed.Some?
              && r.reply.status == 201
              && r.reply.value.status == Scheduled
              && r.reply.value.instructorId == parsed.value.instructorId
              && r.reply.value.studentId == parsed.value.studentId
              && r.reply.value.startTime == parsed.value.startTime
              && r.reply.value.endTime == parsed.value.endTime
              && r.reply.value.kind == parsed.value.kind
              && r.reply.value.notes == parsed.value.notes
              && r.after.Keys == store.Keys + {newId}
              && r.after[newId] == r.reply.value
              && (forall k :: k in store ==> r.after[k] == store[k])
  {
    match parsed
    case None => Handled(Refused(SchemaRejected), store)
    case Some(p) =>
      if !CanAccess(actor, p.instructorId) then Handled(Refused(Forbidden), store)
      else if HasConflict(store, p.instructorId, p.startTime) then Handled(Refused(Conflict), store)
      else
        var row := Inserted(p);
        Handled(Done(201, row), store[newId := row])
  }

  /** Partial update. The schema runs first, then the existence check (404),
      then ownership of the EXISTING row (403). No conflict check follows:
      the supplied fields are written as they are. */
  function Update(store: Store, actor: User, id: Id, parsed: Option<UpdatePayload>): (r: Handled<Appointment>)
    ensures r.reply.Refused? ==> r.after == store
    ensures r.reply == Refused(SchemaRejected) <==> parsed.None?
    ensures r.reply == Refused(NotFound) <==> parsed.Some? && id !in store
    ensures r.reply == Refused(Forbidden) <==>
              parsed.Some? && id in store && actor.role != Admin && store[id].instructorId != actor.id
    ensures r.reply.Done? <==>
              parsed.Some? && id in store && (actor.role == Admin || store[id].instructorId == actor.id)
    ensures r.reply.Done? ==>
              && r.reply.status == 200
              && r.after.Keys == store.Keys
              && r.after[id] == r.reply.value
              && (forall k :: k in store && k != id ==> r.after[k] == store[k])
    // each supplied field is written ...
    ensures r.reply.Done? ==>
              && (parsed.value.instructorId.Some? ==> r.reply.value.instructorId == parsed.value.instructorId.value)
              && (parsed.value.studentId.Some? ==> r.reply.value.studentId == parsed.value.studentId.value)
              && (parsed.value.startTime.Some? ==> r.reply.value.startTime == parsed.value.startTime.value)
              && (parsed.value.endTime.Some? ==> r.reply.value.endTime == parsed.value.endTime.value)
              && (parsed.value.status.Some? ==> r.reply.value.status == parsed.value.status.value)
              && (parsed.value.kind.Some? ==> r.reply.value.kind == parsed.value.kind.value)
              && (parsed.value.notes.Some? ==> r.reply.value.notes == parsed.value.notes)
    // ... and each absent field keeps its stored value
    ensures r.reply.Done? ==>
              && (parsed.value.instructorId.None? ==> r.reply.value.instructorId == store[id].instructorId)
              && (parsed.value.studentId.None? ==> r.reply.value.studentId == store[id].studentId)
              && (parsed.value.startTime.None? ==> r.reply.value.startTime == store[id].startTime)
              && (parsed.value.endTime.None? ==> r.reply.value.endTime == store[id].endTime)
              && (parsed.value.status.None? ==> r.reply.value.status == store[id].status)
              && (parsed.value.kind.None? ==> r.reply.value.kind == store[id].kind)
              && (parsed.value.notes.None? ==> r.reply.value.notes == store[id].notes)
  {
    match parsed
    case None => Handled(Refused(SchemaRejected), store)
    case Some(p) =>
      if id !in store then Handled(Refused(NotFound), store)
      else if !CanAccess(actor, store[id].instructorId) then Handled(Refused(Forbidden), store)
      else
        var row := Patched(store[id], p);
        Handled(Done(200, row), store[id := row])
  }

  /** Hard delete: 404 for a missing id, then 403 unless the actor owns the
      row or is an administrator, then the row is removed. */
  function Delete(store: Store, actor: User, id: Id): (r: Handled<()>)
    ensures r.reply.Refused? ==> r.after == store
    ensures r.reply.Done? <==> id in store && (actor.role == Admin || store[id].instructorId == actor.id)
    ensures r.reply == Refused(NotFound) <==> id !in store
    ensures r.reply == Refused(Forbidden) <==>
              id in store && actor.role != Admin && store[id].instructorId != actor.id
    ensures r.reply.Done? ==>
              && r.reply.status == 200
              && r.after.Keys == store.Keys - {id}
              && (forall k :: k in r.after ==> r.after[k] == store[k])
  {
    if id !in store then Handled(Refused(NotFound), store)
    else if !CanAccess(actor, store[id].instructorId) then Handled(Refused(Forbidden), store)
    else Handled(Done(200, ()), store - {id})
  }

  // ---------------------------------------------------------------------
  // Properties relating the actions to each other and to the invariant.

  /** The three record-access actions apply one policy: on a parsable update
      body they refuse with the same error, and succeed together. In
      particular Forbidden is never the answer for a missing id. */
  lemma AccessIsUniform(store: Store, actor: User, id: Id, p: UpdatePayload)
    ensures GetById(store, actor, id).Refused? ==>
              && Update(store, actor, id, Some(p)).reply == Refused(GetById(store, actor, id).error)
              && Delete(store, actor, id).reply == Refused(GetById(store, actor, id).error)
    ensures GetById(store, actor, id).Done? <==> Update(store, actor, id, Some(p)).reply.Done?
    ensures GetById(store, actor, id).Done? <==> Delete(store, actor, id).reply.Done?
    ensures id !in store ==> GetById(store, actor, id) != Refused(Forbidden)
  {
  }

  /** An administrator is never refused by the ownership check. */
  lemma AdminIsNeverForbidden(store: Store, actor: User, id: Id, parsed: Option<UpdatePayload>)
    requires actor.role == Admin
    ensures GetById(store, actor, id) != Refused(Forbidden)
    ensures Update(store, actor, id, parsed).reply != Refused(Forbidden)
    ensures Delete(store, actor, id).reply != Refused(Forbidden)
    ensures id in store ==> Delete(store, actor, id).reply.Done?
  {
  }

  /** A successful create never adds a second SCHEDULED appointment with the
      same instructor and start instant. */
  lemma CreatePreservesNoDoubleBooking(store: Store, actor: User, parsed: Option<CreatePayload>, newId: Id)
    requires newId !in store
    requires NoDoubleBooking(store)
    ensures NoDoubleBooking(Create(store, actor, parsed, newId).after)
  {
  }

  /** Only an exactly equal start of the same instructor's SCHEDULED row is a
      conflict: an authorised create succeeds next to overlapping rows with
      other starts, on the start of a row with another status, and on another
      instructor's start. A corollary of the success condition of `Create`,
      stated on its own for the overlap case. */
  lemma OverlapIsNotConflict(store: Store, actor: User, p: CreatePayload, newId: Id)
    requires newId !in store
    requires CanAccess(actor, p.instructorId)
    requires forall k :: k in store && store[k].instructorId == p.instructorId && store[k].status == Scheduled
               ==> store[k].startTime != p.startTime
    ensures Create(store, actor, Some(p), newId).reply.Done?
  {
  }

  /** A created appointment is immediately readable by its creator. */
  lemma CreatedIsReadable(store: Store, actor: User, p: CreatePayload, newId: Id)
    requires newId !in store
    requires Create(store, actor, Some(p), newId).reply.Done?
    ensures GetById(Create(store, actor, Some(p), newId).after, actor, newId)
            == Create(store, actor, Some(p), newId).reply
               .(status := 200)
  {
  }

  /** After a successful delete the id reads as missing, and every other
      record reads as before. */
  lemma DeletedIsGone(store: Store, actor: User, id: Id, other: Id)
    requires Delete(store, actor, id).reply.Done?
    requires other != id
    ensures GetById(Delete(store, actor, id).after, actor, id) == Refused(NotFound)
    ensures GetById(Delete(store, actor, id).after, actor, other) == GetById(store, actor, other)
  {
  }

  /** Deleting a row never breaks the booking invariant. */
  lemma DeletePreservesNoDoubleBooking(store: Store, actor: User, id: Id)
    requires NoDoubleBooking(store)
    ensures NoDoubleBooking(Delete(store, actor, id).after)
  {
  }

  /** A patch changes exactly the supplied fields: each supplied field is
      written, each absent one kept, an empty patch is the identity, and
      applying a patch twice is applying it once. */
  lemma PatchOnlySuppliedFields(a: Appointment, p: UpdatePayload)
    ensures Patched(a, UpdatePayload(None, None, None, None, None, None, None)) == a
    ensures Patched(Patched(a, p), p) == Patched(a, p)
    ensures Patched(a, p).instructorId == (if p.instructorId.Some? then p.instructorId.value else a.instructorId)
    ensures Patched(a, p).studentId == (if p.studentId.Some? then p.studentId.value else a.studentId)
    ensures Patched(a, p).startTime == (if p.startTime.Some? then p.startTime.value else a.startTime)
    ensures Patched(a, p).endTime == (if p.endTime.Some? then p.endTime.value else a.endTime)
    ensures Patched(a, p).status == (if p.status.Some? then p.status.value else a.status)
    ensures Patched(a, p).kind == (if p.kind.Some? then p.kind.value else a.kind)
    ensures Patched(a, p).notes == (if p.notes.Some? then p.notes else a.notes)
  {
  }

  /** An update that touches neither the instructor, the start instant nor
      the status keeps the booking invariant. */
  lemma UpdateWithoutReschedulingPreservesNoDoubleBooking(store: Store, actor: User, id: Id, p: UpdatePayload)
    requires NoDoubleBooking(store)
    requires p.instructorId.None? && p.startTime.None? && p.status.None?
    ensures NoDoubleBooking(Update(store, actor, id, Some(p)).after)
  {
  }

  /** `update` performs no conflict check: moving one SCHEDULED appointment
      onto the start instant of another of the same instructor succeeds and
      leaves the store double-booked. */
  lemma UpdateCanDoubleBook()
    ensures var store := map[
              "a" := Appointment("i", "s1", 1000, 2000, Scheduled, "T", None),
              "b" := Appointment("i", "s2", 5000, 6000, Scheduled, "T", None)];
            var r := Update(store, User("i", "i@x", "INSTRUCTOR"), "b",
                            Some(UpdatePayload(None, None, Some(1000), None, None, None, None)));
            && NoDoubleBooking(store)
            && r.reply.Done?
            && !NoDoubleBooking(r.after)
  {
    var store := map[
      "a" := Appointment("i", "s1", 1000, 2000, Scheduled, "T", None),
      "b" := Appointment("i", "s2", 5000, 6000, Scheduled, "T", None)];
    var r := Update(store, User("i", "i@x", "INSTRUCTOR"), "b",
                    Some(UpdatePayload(None, None, Some(1000), None, None, None, None)));
    assert "a" != "b";
    assert r.after["a"].startTime == r.after["b"].startTime;
  }

  /** `update` checks ownership of the existing row only: an instructor may
      hand their own appointment over to another instructor. */
  lemma UpdateCanReassignOwner(store: Store, actor: User, id: Id, other: Id)
    requires id in store && store[id].instructorId == actor.id
    ensures var r := Update(store, actor, id, Some(UpdatePayload(Some(other), None, None, None, None, None, None)));
            r.reply.Done? && r.after[id].instructorId == other
  {
  }
}
