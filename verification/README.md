# Appointment booking core: a Dafny model

This project models the appointment controller and the authentication
middleware of a coaching/training CRM back end. Instructors hold appointments
with students. An administrator reads, updates and deletes every appointment.
Any other user reads, updates and deletes only appointments whose
`instructorId` is their own id, and lists only those unless the list request
names an `instructorId`, which replaces that scope. An owner may update a row's
`instructorId` to another instructor. The availability and statistics
actions apply no ownership scope of their own: they answer about every
instructor's rows, whoever asks.

The database table becomes an immutable `map<Id, Appointment>`. Each
controller action becomes a pure function (or, for the list action, a method)
that returns its reply, and for writes also the store it leaves behind. The
request's user is a `User(id, email, role)` value, as the authentication
middleware attaches it.

Files and modules:

- `domain.dfy` (`Domain`): identifiers, instants as integer milliseconds,
  `Status`, `Appointment`, `Store`, `User`, the access policy `CanAccess`,
  the inclusive window `InWindow`, the booking invariant `NoDoubleBooking`,
  and the reply types `ApiError`, `Reply`, `Handled`.
- `records.dfy` (`AppointmentRecords`): `getById`, `create`, `update`,
  `delete`, and lemmas tying them to each other and to the invariant.
- `listing.dfy` (`AppointmentListing`): the list action. This covers building
  the filter, ordering by start (latest first), and pagination.
- `reports.dfy` (`AppointmentReports`): `getAvailability` and `getStats`.
- `auth.dfy` (`AuthMiddleware`): the `authenticateToken` ladder, a model of
  JavaScript's `split(" ")` used to extract the token, and `requireRole`.

Abstractions:

- Schema parsing of a request body is the input `parsed: Option<Payload>`.
  `None` means the schema threw.
- The id the database assigns to a new row is the input `newId`.
- `jwt.verify` under the configured secret is the function parameter `verify`.
  It returns the decoded user id, or `None` where it would throw.
- The user table is a `map<Id, User>`.
- `Status` has the four values the controller names and `Unlisted(name)` for
  any further value of the status enumeration. The enumeration's definition
  is not part of this model.
- `page` and `limit` are what integer parsing produced (`None` for NaN).
- Dates are already instants. For availability, the input is the instant of
  the day's local midnight.

Behaviour of the code worth knowing, which the model keeps:

- `update` runs no conflict check, so moving a SCHEDULED row onto another
  SCHEDULED row's start for the same instructor double-books it
  (`AppointmentRecords.UpdateCanDoubleBook`).
- `create` parses the body before checking ownership, so an unparsable body
  for another instructor is a schema error, not Forbidden. `update` also
  parses the body before the existence check.
- `page` and `limit` are not required to be positive. Only NaN and 0 fall
  back to the defaults 1 and 10; negative values are kept.
- An `instructorId` query parameter overwrites a non-administrator's
  ownership scope in the list action
  (`AppointmentListing.InstructorParamReplacesScope`).
- Availability applies no ordering. The model returns a set of ids.

## Model

| member | source | states |
|---|---|---|
| `AppointmentRecords.GetById` | src/controllers/appointmentController.ts:93-126 | a missing id gives NotFound, checked before ownership; an existing row is returned (200) iff the actor is ADMIN or its instructor, otherwise Forbidden |
| `AppointmentRecords.Create` | src/controllers/appointmentController.ts:132-185 | first failure in order: schema, Forbidden when a non-admin proposes another instructor, Conflict iff a SCHEDULED row of that instructor has exactly that start; it succeeds iff none of these applies; any refusal leaves the store unchanged; success (201) inserts exactly one new row carrying the payload's fields with status SCHEDULED whatever the payload said |
| `AppointmentRecords.Update` | src/controllers/appointmentController.ts:191-240 | schema first, then NotFound, then Forbidden judged on the existing row's owner; success changes only that row, writing each of the seven supplied fields and keeping every absent one; refusals leave the store unchanged |
| `AppointmentRecords.Delete` | src/controllers/appointmentController.ts:246-267 | NotFound before Forbidden; it succeeds iff the row exists and the actor is ADMIN or its instructor; success removes exactly that id and leaves every other row unchanged; refusals change nothing |
| `AppointmentRecords.AccessIsUniform` | src/controllers/appointmentController.ts:117-124 | getById, update (on a parsable body) and delete refuse with the same error and succeed together; Forbidden is never the answer for a missing id |
| `AppointmentRecords.AdminIsNeverForbidden` | src/controllers/appointmentController.ts:254-265 | an ADMIN is never Forbidden by read, update or delete, and deleting an existing row always succeeds for an ADMIN |
| `AppointmentRecords.CreatePreservesNoDoubleBooking` | src/controllers/appointmentController.ts:141-163 | from a store with at most one SCHEDULED row per (instructor, start), create keeps that so |
| `AppointmentRecords.OverlapIsNotConflict` | src/controllers/appointmentController.ts:142-150 | an authorised create succeeds whenever no SCHEDULED row of the same instructor starts at the same instant, however the intervals overlap and whatever other instructors or other statuses hold at that start |
| `AppointmentRecords.CreatedIsReadable` | src/controllers/appointmentController.ts:157-185 | the row a create returns is what getById then answers for the new id |
| `AppointmentRecords.DeletedIsGone` | src/controllers/appointmentController.ts:263-267 | after a delete the id reads as NotFound and every other id reads as before |
| `AppointmentRecords.DeletePreservesNoDoubleBooking` | src/controllers/appointmentController.ts:263-265 | delete never breaks the booking invariant |
| `AppointmentRecords.PatchOnlySuppliedFields` | src/controllers/appointmentController.ts:210-214 | each of the seven fields takes the supplied value when present and keeps the stored one when absent; an empty patch is the identity and a patch is idempotent |
| `AppointmentRecords.UpdateWithoutReschedulingPreservesNoDoubleBooking` | src/controllers/appointmentController.ts:210-216 | an update touching neither instructor, start nor status keeps the booking invariant |
| `AppointmentRecords.UpdateCanDoubleBook` | src/controllers/appointmentController.ts:210-216 | a concrete store without double bookings where moving one SCHEDULED row onto another's start succeeds and breaks the invariant |
| `AppointmentRecords.UpdateCanReassignOwner` | src/controllers/appointmentController.ts:205-216 | the owner of a row may update its instructorId to anyone, since only the existing owner is checked |
| `AppointmentListing.BuildWhere` | src/controllers/appointmentController.ts:26-45 | a given instructorId parameter sets the instructor constraint; otherwise a non-admin is scoped to their own id and an admin is not constrained; status, a non-empty type and a non-empty studentId constrain iff given; the dates become the inclusive bounds (meaning of the filter: the filter lemmas below) |
| `AppointmentListing.ParamOr` | src/controllers/appointmentController.ts:15-16 | a parsed non-zero page or limit is kept, negative ones included; NaN or 0 gives the default, so the result is never 0 when the default is not (used by GetAll for page 1 and limit 10) |
| `AppointmentListing.LatestExists` | src/controllers/appointmentController.ts:54 | every non-empty set of rows has one with the latest start, so the descending order is well defined |
| `AppointmentListing.SortLatestFirst` | src/controllers/appointmentController.ts:49-54 | the ordered result lists every filtered id exactly once, latest start first |
| `AppointmentListing.CeilDiv` | src/controllers/appointmentController.ts:84 | the page count is the ceiling of total/limit: (pages-1)*limit < total <= pages*limit for a positive limit, mirrored for a negative one |
| `AppointmentListing.Window` | src/controllers/appointmentController.ts:49-53 | a page holds exactly min(limit, rows left after skip) rows, the rows from `skip` on in order, and is empty iff skip is past the end or limit is 0 |
| `AppointmentListing.GetAll` | src/controllers/appointmentController.ts:15-85 | page and limit default to 1 and 10 only for NaN or 0; total counts the whole filtered set; pages is ceil(total/limit); the page holds the ids of filtered rows cut from a latest-first order at offset (page-1)*limit; the page is absent iff the offset or limit is negative |
| `AppointmentListing.NonAdminSeesOnlyOwn` | src/controllers/appointmentController.ts:29-34 | without an instructorId parameter a non-admin only sees rows whose instructor is themselves |
| `AppointmentListing.InstructorParamReplacesScope` | src/controllers/appointmentController.ts:29-39 | a non-empty instructorId parameter makes the filter independent of the actor and selects only that instructor's rows |
| `AppointmentListing.NonAdminCanListOtherInstructor` | src/controllers/appointmentController.ts:39 | a concrete non-admin listing another instructor's appointment by naming that instructor |
| `AppointmentListing.AdminWithoutFiltersSeesAll` | src/controllers/appointmentController.ts:29-45 | an ADMIN with no filter parameters sees every row |
| `AppointmentListing.StatusFilterIntersects` | src/controllers/appointmentController.ts:36 | adding a status filter intersects the result with the rows of that status (filters are conjunctive) |
| `AppointmentListing.KindFilterIntersects` | src/controllers/appointmentController.ts:37 | a non-empty type intersects the result with the rows of that type |
| `AppointmentListing.StudentFilterIntersects` | src/controllers/appointmentController.ts:38 | a non-empty studentId intersects the result with that student's rows |
| `AppointmentListing.DateRangeIsInclusive` | src/controllers/appointmentController.ts:41-45 | both bounds given together intersect the result with the rows whose start lies in [startDate, endDate], for any actor and any other filter; for an ADMIN with no other filter, a row is selected iff startDate <= start <= endDate |
| `AppointmentListing.StartDateAloneIsLowerBound` | src/controllers/appointmentController.ts:41-43 | a lone startDate intersects the result with the rows starting at or after it, with no upper bound |
| `AppointmentListing.EndDateAloneIsUpperBound` | src/controllers/appointmentController.ts:41-44 | a lone endDate intersects the result with the rows starting at or before it, with no lower bound |
| `AppointmentListing.PageNonEmptyIffWithinPages` | src/controllers/appointmentController.ts:24 | for positive page and limit, the page at offset (page-1)*limit has rows iff page <= pages |
| `AppointmentReports.GetAvailability` | src/controllers/appointmentController.ts:273-303 | a missing date is BadRequest and a given date is always answered (200); the answer is exactly the SCHEDULED rows of that instructor starting from midnight up to, but not including, the next midnight |
| `AppointmentReports.NextMidnightIsExcluded` | src/controllers/appointmentController.ts:282-294 | a start at the next midnight is excluded; starts at midnight and at 23:59:59.999 are included |
| `AppointmentReports.AvailabilityIsAListQuery` | src/controllers/appointmentController.ts:288-296 | availability equals the list filter for that instructor, status SCHEDULED and the day's inclusive range, whoever asks |
| `AppointmentReports.AvailableSlotsStartApart` | src/controllers/appointmentController.ts:288-301 | in a store without double bookings the slots of a day start at distinct instants |
| `AppointmentReports.StatusCountsFitTotal` | src/controllers/appointmentController.ts:329-333 | scheduled + completed + cancelled + noShow <= total over the same window |
| `AppointmentReports.AttendanceRate` | src/controllers/appointmentController.ts:342 | the rate lies in [0, 100], is 0 for an empty window, and rate*total == completed*100 otherwise |
| `AppointmentReports.GetStats` | src/controllers/appointmentController.ts:309-345 | the total and each of the SCHEDULED, COMPLETED, CANCELLED and NO_SHOW counts are the sizes of the rows in the same optional inclusive window with that status; the four fit in the total; the rate is completed/total*100, in [0, 100], and 0 when nothing matches |
| `AppointmentReports.UnboundedStatsCoverStore` | src/controllers/appointmentController.ts:314-320 | without bounds the total is the size of the whole store |
| `AppointmentReports.StatsTotalMatchesListing` | src/controllers/appointmentController.ts:316-329 | the stats total over a window is the count an ADMIN's list query with the same date range reports |
| `AuthMiddleware.Split` | src/middleware/auth.ts:30 | every piece of `split(" ")` is space-free, there is at least one, and a space-free string is its own only piece |
| `AuthMiddleware.JoinSplit` | src/middleware/auth.ts:30 | joining the pieces with single spaces gives the header back |
| `AuthMiddleware.SplitJoin` | src/middleware/auth.ts:30 | splitting space-joined space-free pieces gives the pieces back |
| `AuthMiddleware.ExtractToken` | src/middleware/auth.ts:28-34 | no header, or no space in it, gives no token; a token is non-empty and space-free, and is the text between the first space and the next space or end |
| `AuthMiddleware.SchemeIsNotChecked` | src/middleware/auth.ts:30 | any space-free scheme word followed by a space and a token yields that token, with or without further words |
| `AuthMiddleware.DoubleSpaceGivesNoToken` | src/middleware/auth.ts:30-34 | two spaces after the scheme leave an empty second piece, so there is no token |
| `AuthMiddleware.AuthenticateToken` | src/middleware/auth.ts:19-57 | a missing secret gives 500 before the header is read; no token gives 401; a failed verification gives 403; an unknown user gives 401; otherwise exactly that user is attached, whose id is the decoded id when the table keys rows by id, and the request goes on |
| `AuthMiddleware.UnauthorizedVersusForbidden` | src/middleware/auth.ts:30-56 | with the secret set, the answer is 401 exactly when no token is read or the decoded user is unknown, 403 exactly when a read token fails verification, and never 500 |
| `AuthMiddleware.RequireRole` | src/middleware/auth.ts:59-71 | no user gives 401 before the roles are consulted; an unlisted role gives 403; otherwise the same user goes on |
| `AuthMiddleware.RoleGateAfterAuthentication` | src/middleware/auth.ts:36-71 | behind a successful authentication the role gate never answers 401, and lets the user through iff their role is listed |

## Left out

- HTTP plumbing: Express responses, status codes as calls, `next(error)` for
  storage failures, logging, and the whole of `src/server.ts`. A reply is a
  `Reply`/`Action` value. Because it is a single value, "responds or calls next,
  never both" holds by construction.
- Schema internals. `createAppointmentSchema` and `updateAppointmentSchema`
  are not part of this model, and their verdict is the `parsed` input. A
  schema failure is the error `SchemaRejected`. The code hands it to an error
  handler that is not part of this model, so no status code is attached.
- Query projections. The `include`/`select` of student and instructor fields
  are not modelled. The list action returns the ids of the selected rows,
  and availability returns row ids rather than `{startTime, endTime}` pairs.
- Route-level gating. The routes file that mounts these actions is not part
  of this model, so whether a `requireRole` there restricts some actions
  (statistics or availability, say) is not modelled.
- Parsing. `Number.parseInt` of page and limit is not modelled, and neither is
  `new Date` of query strings or an unparsable date, which the store rejects.
- Enumeration checks. Status and type query strings that are not valid
  enumeration values are rejected by the store, and this is not modelled.
- Ordering ties. Rows with equal start are returned in any order by the model.
- Negative pagination. For a negative offset or limit, the model's list reply
  holds `None` for the items, because the store's behaviour there is not
  modelled.
- `AppointmentReports.GetAvailability`: the day is a fixed 86 400 000 ms from
  the given midnight. On a daylight-saving change day, `setHours` in the
  local time zone gives a different end of day.
- `AppointmentReports.GetStats`: the attendance rate is an exact real, while
  the code computes it in floating point.
- `AppointmentRecords.Create`: requires the new id to be unused, since id
  generation belongs to the database.
- `AuthMiddleware.AuthenticateToken`: a user lookup that throws also lands in
  the catch and gives 403. The model folds this into `verify` returning `None`.
  Token expiry and signature checking are inside `verify`.
- Concurrency. The race between the conflict probe and the insert under
  concurrent creates is not modelled. The model is sequential, so only the
  single-threaded invariant is proved.
- The controllers' `req.user!` assertions. Every controller action takes an
  authenticated `User`, as the middleware provides.
