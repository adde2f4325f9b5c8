/** The read-only derived views of the appointment controller: one
    instructor's booked slots on a calendar day, and per-status counts with
    an attendance rate over an optional window. */
module AppointmentReports {
  import opened Domain
  import AppointmentListing

  /** Offset of 23:59:59.999 from the midnight that starts its day. */
  const LastMillisecondOfDay: int := 23 * 3_600_000 + 59 * 60_000 + 59 * 1_000 + 999

  /** Length of a calendar day in milliseconds. */
  const DayLength: int := 24 * 3_600_000

  /** The SCHEDULED appointments of one instructor on the day starting at
      `dayStart`, both day boundaries included. A missing date is a bad
      request; an empty day is an empty answer, not an error. */
  function GetAvailability(store: Store, instructorId: Id, dayStart: Option<Instant>): (r: Reply<set<Id>>)
    ensures r == Refused(BadRequest) <==> dayStart.None?
    ensures r.Done? <==> dayStart.Some?
    ensures r.Done? ==>
              && r.status == 200
              && forall k :: k in r.value <==>
                   && k in store
                   && store[k].instructorId == instructorId
                   && store[k].status == Scheduled
                   && dayStart.value <= store[k].startTime < dayStart.value + DayLength
  {
    match dayStart
    case None => Refused(BadRequest)
    case Some(d) =>
      Done(200, set k | k in store && store[k].instructorId == instructorId
                        && store[k].status == Scheduled
                        && InWindow(store[k].startTime, Some(d), Some(d + LastMillisecondOfDay)))
  }

  /** An appointment starting at the next midnight belongs to the next day,
      and one starting at the last millisecond of the day is still included. */
  lemma NextMidnightIsExcluded(store: Store, instructorId: Id, d: Instant, k: Id)
    requires k in store && store[k].instructorId == instructorId && store[k].status == Scheduled
    ensures store[k].startTime == d + DayLength ==> k !in GetAvailability(store, instructorId, Some(d)).value
    ensures store[k].startTime == d + 86_399_999 ==> k in GetAvailability(store, instructorId, Some(d)).value
    ensures store[k].startTime == d ==> k in GetAvailability(store, instructorId, Some(d)).value
  {
  }

  /** The availability of a day is the list query for that instructor, status
      SCHEDULED and a [midnight, 23:59:59.999] date range, whoever asks. */
  lemma AvailabilityIsAListQuery(store: Store, actor: User, instructorId: Id, d: Instant)
    requires instructorId != ""
    ensures GetAvailability(store, instructorId, Some(d)).value
            == AppointmentListing.Matching(store, AppointmentListing.BuildWhere(actor,
                 AppointmentListing.ListQuery(None, None, Some(Scheduled), None, None,
                                              Some(instructorId), Some(d), Some(d + LastMillisecondOfDay))))
  {
  }

  /** In a store without double bookings, the slots of a day start at
      pairwise distinct instants. */
  lemma AvailableSlotsStartApart(store: Store, instructorId: Id, d: Instant)
    requires NoDoubleBooking(store)
    ensures forall a, b :: a in GetAvailability(store, instructorId, Some(d)).value
                        && b in GetAvailability(store, instructorId, Some(d)).value && a != b
                        ==> store[a].startTime != store[b].startTime
  {
  }

  // ---------------------------------------------------------------------
  // Statistics

  /** The statistics answer. `attendanceRate` is exact here. */
  datatype Stats = Stats(total: nat, scheduled: nat, completed: nat, cancelled: nat, noShow: nat, attendanceRate: real)

  /** The rows whose start lies in the optional inclusive window. */
  function InRange(store: Store, from: Option<Instant>, until: Option<Instant>): (ids: set<Id>)
    ensures ids <= store.Keys
  {
    set k | k in store && InWindow(store[k].startTime, from, until)
  }

  /** The rows of `ids` with status `s`. */
  function WithStatus(store: Store, ids: set<Id>, s: Status): (sel: set<Id>)
    requires ids <= store.Keys
    ensures sel <= ids
  {
    set k | k in ids && store[k].status == s
  }

  /** Sets that share no element have a union as large as their sizes add up to. */
  lemma DisjointUnionSize(a: set<Id>, b: set<Id>)
    requires a !! b
    ensures |a + b| == |a| + |b|
  {
  }

  /** The four named per-status selections of a window never add up to more
      than the window: they are disjoint parts of it. */
  lemma StatusCountsFitTotal(store: Store, ids: set<Id>)
    requires ids <= store.Keys
    ensures |WithStatus(store, ids, Scheduled)| + |WithStatus(store, ids, Completed)|
            + |WithStatus(store, ids, Cancelled)| + |WithStatus(store, ids, NoShow)| <= |ids|
  {
    var s := WithStatus(store, ids, Scheduled);
    var c := WithStatus(store, ids, Completed);
    var x := WithStatus(store, ids, Cancelled);
    var n := WithStatus(store, ids, NoShow);
    DisjointUnionSize(s, c);
    DisjointUnionSize(s + c, x);
    DisjointUnionSize(s + c + x, n);
    SubsetSize(s + c + x + n, ids);
  }

  /** A subset is no larger than its superset. */
  lemma {:induction false} SubsetSize(a: set<Id>, b: set<Id>)
    requires a <= b
    ensures |a| <= |b|
    decreases a
  {
    if a != {} {
      var x :| x in a;
      SubsetSize(a - {x}, b - {x});
    }
  }

  /** `completed / total * 100`, or 0 for an empty window. */
  function AttendanceRate(completed: nat, total: nat): (rate: real)
    requires completed <= total
    ensures 0.0 <= rate <= 100.0
    ensures total == 0 ==> rate == 0.0
    ensures total > 0 ==> rate * (total as real) == (completed as real) * 100.0
  {
    if total > 0 then (completed as real) / (total as real) * 100.0 else 0.0
  }

  /** The statistics action: five counts over the same optional window on
      the start instant, and the attendance rate. */
  function GetStats(store: Store, from: Option<Instant>, until: Option<Instant>): (r: Stats)
    ensures r.total == |set k | k in store && InWindow(store[k].startTime, from, until)|
    ensures r.scheduled == |set k | k in store && InWindow(store[k].startTime, from, until)
                                    && store[k].status == Scheduled|
    ensures r.completed == |set k | k in store && InWindow(store[k].startTime, from, until)
                                    && store[k].status == Completed|
    ensures r.cancelled == |set k | k in store && InWindow(store[k].startTime, from, until)
                                    && store[k].status == Cancelled|
    ensures r.noShow == |set k | k in store && InWindow(store[k].startTime, from, until)
                                 && store[k].status == NoShow|
    ensures r.scheduled + r.completed + r.cancelled + r.noShow <= r.total
    ensures 0.0 <= r.attendanceRate <= 100.0
    ensures r.total == 0 ==> r.attendanceRate == 0.0 && r.completed == 0
    ensures r.total > 0 ==> r.attendanceRate * (r.total as real) == (r.completed as real) * 100.0
  {
    var window := InRange(store, from, until);
    StatusCountsFitTotal(store, window);
    assert WithStatus(store, window, Scheduled)
           == set k | k in store && InWindow(store[k].startTime, from, until) && store[k].status == Scheduled;
    assert WithStatus(store, window, Completed)
           == set k | k in store && InWindow(store[k].startTime, from, until) && store[k].status == Completed;
    assert WithStatus(store, window, Cancelled)
           == set k | k in store && InWindow(store[k].startTime, from, until) && store[k].status == Cancelled;
    assert WithStatus(store, window, NoShow)
           == set k | k in store && InWindow(store[k].startTime, from, until) && store[k].status == NoShow;
    var completed := |WithStatus(store, window, Completed)|;
    Stats(|window|,
          |WithStatus(store, window, Scheduled)|,
          completed,
          |WithStatus(store, window, Cancelled)|,
          |WithStatus(store, window, NoShow)|,
          AttendanceRate(completed, |window|))
  }

  /** Without bounds the statistics cover the whole store. */
  lemma UnboundedStatsCoverStore(store: Store)
    ensures GetStats(store, None, None).total == |store|
  {
    assert InRange(store, None, None) == store.Keys;
  }

  /** The statistics total over a window is the number of rows an
      administrator's list query with the same date range reports. */
  lemma StatsTotalMatchesListing(store: Store, actor: User, from: Option<Instant>, until: Option<Instant>)
    requires actor.role == Admin
    ensures GetStats(store, from, until).total
            == |AppointmentListing.Matching(store, AppointmentListing.BuildWhere(actor,
                  AppointmentListing.ListQuery(None, None, None, None, None, None, from, until)))|
  {
    assert InRange(store, from, until)
           == AppointmentListing.Matching(store, AppointmentListing.BuildWhere(actor,
                AppointmentListing.ListQuery(None, None, None, None, None, None, from, until)));
  }
}
