/** Shared vocabulary of the appointment core: identifiers, instants, the
    appointment record, the in-memory store that stands for the database
    table, the authenticated user, and the outcomes a controller action can
    answer with. */
module Domain {

  /** A value that may be missing: an absent query parameter, an absent
      field of a partial update, a `findUnique` that found nothing. */
  datatype Option<+T> = None | Some(value: T) {

    /** The carried value, or `default` when there is none. */
    function GetOr(default: T): T
    {
      match this
      case Some(v) => v
      case None => default
    }
  }

  type Id = string

  /** An instant, as integer milliseconds since the epoch. */
  type Instant = int

  /** Appointment status. The four named values are the ones the controller
      mentions; `Unlisted` stands for any further value of the store's status
      enumeration, which the controller never names. */
  datatype Status = Scheduled | Completed | Cancelled | NoShow | Unlisted(name: string)

  /** One row of the appointment table. The row's id is its key in the store.
      `kind` is the appointment type (`type` is a keyword here). */
  datatype Appointment = Appointment(
    instructorId: Id,
    studentId: Id,
    startTime: Instant,
    endTime: Instant,
    status: Status,
    kind: string,
    notes: Option<string>)

  /** The appointment table, keyed by id. */
  type Store = map<Id, Appointment>

  /** The authenticated user that the authentication middleware attaches to
      the request, and that every controller action acts as. */
  datatype User = User(id: Id, email: string, role: string)

  /** The one role that bypasses ownership checks. */
  const Admin: string := "ADMIN"

  /** The record-access policy: an administrator may touch any record, any
      other user only records whose owning instructor they are. */
  predicate CanAccess(actor: User, ownerId: Id)
  {
    actor.role == Admin || actor.id == ownerId
  }

  /** Inclusive optional bounds on an instant, as the `gte`/`lte` pair of a
      `startTime` filter: a missing bound does not constrain that side. */
  predicate InWindow(t: Instant, from: Option<Instant>, until: Option<Instant>)
  {
    (from.None? || from.value <= t) && (until.None? || t <= until.value)
  }

  /** The booking invariant: no two SCHEDULED appointments of the same
      instructor start at exactly the same instant. */
  ghost predicate NoDoubleBooking(store: Store)
  {
    forall a, b ::
      a in store && b in store && a != b
      && store[a].status == Scheduled && store[b].status == Scheduled
      && store[a].instructorId == store[b].instructorId
      ==> store[a].startTime != store[b].startTime
  }

  /** Why a controller action refused; the comment gives the HTTP status. */
  datatype ApiError =
    | SchemaRejected  // the body failed schema parsing; the error goes to the error handler
    | BadRequest      // 400
    | Forbidden       // 403
    | NotFound        // 404
    | Conflict        // 409

  /** A controller answer: a success status with its payload, or a refusal. */
  datatype Reply<+T> = Done(status: nat, value: T) | Refused(error: ApiError)

  /** A write action's answer together with the store it leaves behind. */
  datatype Handled<+T> = Handled(reply: Reply<T>, after: Store)
}
