/** The list action of the appointment controller: building the filter from
    the acting user and the query string, ordering by start instant
    (latest first), and cutting one page out of the ordered result. */
module AppointmentListing {
  import opened Domain

  /** The query string of a list request. `page` and `limit` are what integer
      parsing produced (`None` when it produced NaN); the dates are already
      instants (`None` when missing or empty). */
  datatype ListQuery = ListQuery(
    page: Option<int>,
    limit: Option<int>,
    status: Option<Status>,
    kind: Option<string>,
    studentId: Option<string>,
    instructorId: Option<string>,
    startDate: Option<Instant>,
    endDate: Option<Instant>)

  /** A query-string parameter counts as given only when it is a non-empty
      string, as the truthiness tests of the controller decide. */
  predicate Given(o: Option<string>)
  {
    o.Some? && o.value != ""
  }

  /** The conjunctive filter handed to the store; a `None` field does not
      constrain. `from`/`until` are the inclusive `gte`/`lte` bounds on the
      start instant. */
  datatype Where = Where(
    instructorId: Option<Id>,
    status: Option<Status>,
    kind: Option<string>,
    studentId: Option<Id>,
    from: Option<Instant>,
    until: Option<Instant>)

  /** The filter of a list request. A non-administrator is first scoped to
      their own appointments; an `instructorId` parameter then OVERWRITES that
      scope, whoever the actor is. */
  function BuildWhere(actor: User, q: ListQuery): (w: Where)
    // the instructor constraint: a given parameter wins, else the actor's own scope
    ensures Given(q.instructorId) ==> w.instructorId == q.instructorId
    ensures !Given(q.instructorId) ==> (w.instructorId.Some? <==> actor.role != Admin)
    ensures !Given(q.instructorId) && actor.role != Admin ==> w.instructorId == Some(actor.id)
    // every other parameter constrains iff it was given, with the given value
    ensures w.status == q.status
    ensures w.kind.Some? <==> Given(q.kind)
    ensures w.kind.Some? ==> w.kind == q.kind
    ensures w.studentId.Some? <==> Given(q.studentId)
    ensures w.studentId.Some? ==> w.studentId == q.studentId
    ensures w.from == q.startDate && w.until == q.endDate
  {
    var scope := if actor.role != Admin then Some(actor.id) else None;
    Where(
      if Given(q.instructorId) then q.instructorId else scope,
      q.status,
      if Given(q.kind) then q.kind else None,
      if Given(q.studentId) then q.studentId else None,
      q.startDate,
      q.endDate)
  }

  /** A row satisfies every constraint the filter carries. */
  predicate Matches(w: Where, a: Appointment)
  {
    && (w.instructorId.None? || a.instructorId == w.instructorId.value)
    && (w.status.None? || a.status == w.status.value)
    && (w.kind.None? || a.kind == w.kind.value)
    && (w.studentId.None? || a.studentId == w.studentId.value)
    && InWindow(a.startTime, w.from, w.until)
  }

  /** The ids of the rows a filter selects. */
  function Matching(store: Store, w: Where): (ids: set<Id>)
    ensures ids <= store.Keys
  {
    set k | k in store && Matches(w, store[k])
  }

  // ---------------------------------------------------------------------
  // Ordering

  /** `s` lists every id of `ids` exactly once and nothing else. */
  ghost predicate Enumerates(ids: set<Id>, s: seq<Id>)
  {
    && (forall i :: 0 <= i < |s| ==> s[i] in ids)
    && (forall k :: k in ids ==> k in s)
    && (forall i, j :: 0 <= i < j < |s| ==> s[i] != s[j])
  }

  /** Every id of `s` is a row, and rows come latest start first. */
  ghost predicate LatestFirst(store: Store, s: seq<Id>)
  {
    && (forall i :: 0 <= i < |s| ==> s[i] in store)
    && (forall i, j :: 0 <= i < j < |s| ==> store[s[i]].startTime >= store[s[j]].startTime)
  }

  /** A non-empty set of rows has one whose start is not earlier than any
      other's. */
  lemma {:induction false} LatestExists(store: Store, ids: set<Id>)
    requires ids != {} && ids <= store.Keys
    ensures exists m :: m in ids && forall k :: k in ids ==> store[k].startTime <= store[m].startTime
    decreases ids
  {
    var x :| x in ids;
    if ids == {x} {
      assert forall k :: k in ids ==> store[k].startTime <= store[x].startTime;
    } else {
      var rest := ids - {x};
      LatestExists(store, rest);
      var m :| m in rest && forall k :: k in rest ==> store[k].startTime <= store[m].startTime;
      if store[x].startTime <= store[m].startTime {
        assert forall k :: k in ids ==> store[k].startTime <= store[m].startTime;
      } else {
        assert forall k :: k in ids ==> store[k].startTime <= store[x].startTime;
      }
    }
  }

  /** Order a set of rows by start instant, latest first (ties in any order),
      as the store's `orderBy: startTime desc` does. */
  method SortLatestFirst(store: Store, ids: set<Id>) returns (s: seq<Id>)
    requires ids <= store.Keys
    ensures Enumerates(ids, s)
    ensures |s| == |ids|
    ensures LatestFirst(store, s)
  {
    s := [];
    var rest := ids;
    while rest != {}
      invariant rest <= ids
      invariant forall i :: 0 <= i < |s| ==> s[i] in ids && s[i] !in rest
      invariant forall k :: k in ids ==> k in rest || k in s
      invariant forall i, j :: 0 <= i < j < |s| ==> s[i] != s[j]
      invariant |s| + |rest| == |ids|
      invariant LatestFirst(store, s)
      invariant forall i, k :: 0 <= i < |s| && k in rest ==> store[s[i]].startTime >= store[k].startTime
      decreases |rest|
    {
      LatestExists(store, rest);
      var m :| m in rest && forall k :: k in rest ==> store[k].startTime <= store[m].startTime;
      s := s + [m];
      rest := rest - {m};
    }
  }

  // ---------------------------------------------------------------------
  // Pagination

  /** A parsed `page`/`limit` parameter with its fallback: NaN and 0 are both
      falsy, so both give the default; a negative value is kept. */
  function ParamOr(parsed: Option<int>, default: int): (v: int)
    ensures parsed.Some? && parsed.value != 0 ==> v == parsed.value
    ensures parsed.None? || parsed.value == 0 ==> v == default
    ensures default != 0 ==> v != 0
  {
    if parsed.Some? && parsed.value != 0 then parsed.value else default
  }

  /** `Math.ceil(a / b)` for a non-zero integer divisor. */
  function CeilDiv(a: int, b: int): (r: int)
    requires b != 0
    ensures b > 0 ==> (r - 1) * b < a <= r * b
    ensures b < 0 ==> r * b <= a < (r - 1) * b
  {
    if b > 0 then
      var q := (-a) / b;
      assert b * q <= -a < b * q + b;
      -q
    else
      var q := a / (-b);
      assert (-b) * q <= a < (-b) * q + (-b);
      -q
  }

  /** The rows `skip` to `skip + take` of an ordered result, clipped to it. */
  function Window(s: seq<Id>, skip: nat, take: nat): (page: seq<Id>)
    ensures |page| == (if skip >= |s| then 0 else if skip + take <= |s| then take else |s| - skip)
    ensures skip < |s| && take > 0 <==> page != []
    ensures forall i :: 0 <= i < |page| ==> skip + i < |s| && page[i] == s[skip + i]
    // a corollary of the exact length, kept because callers use it directly
    ensures |page| <= take
  {
    if skip >= |s| then []
    else if skip + take >= |s| then s[skip..]
    else s[skip..skip + take]
  }

  /** Page counters of a list answer. */
  datatype Pagination = Pagination(page: int, limit: int, total: nat, pages: int)

  /** A list answer. `items` is `None` when the offset or the page size is
      negative: what the store then does is not part of this model. */
  datatype Listing = Listing(items: Option<seq<Id>>, pagination: Pagination)

  /** The list action. It never refuses: a non-administrator's request is
      narrowed, not denied. `total` counts the whole filtered set, the page is
      cut from it in latest-start-first order. */
  method GetAll(store: Store, actor: User, q: ListQuery) returns (r: Listing)
    ensures r.pagination.page == (if q.page.Some? && q.page.value != 0 then q.page.value else 1)
    ensures r.pagination.limit == (if q.limit.Some? && q.limit.value != 0 then q.limit.value else 10)
    ensures r.pagination.total == |Matching(store, BuildWhere(actor, q))|
    ensures r.pagination.limit > 0 ==>
              (r.pagination.pages - 1) * r.pagination.limit < r.pagination.total
              <= r.pagination.pages * r.pagination.limit
    ensures r.pagination.limit < 0 ==>
              r.pagination.pages * r.pagination.limit <= r.pagination.total
              < (r.pagination.pages - 1) * r.pagination.limit
    ensures r.items.Some? <==> (r.pagination.page - 1) * r.pagination.limit >= 0 && r.pagination.limit > 0
    ensures r.items.Some? ==>
              && |r.items.value| <= r.pagination.limit
              && (forall i :: 0 <= i < |r.items.value| ==> r.items.value[i] in Matching(store, BuildWhere(actor, q)))
              && exists s :: Enumerates(Matching(store, BuildWhere(actor, q)), s) && LatestFirst(store, s)
                   && r.items.value == Window(s, (r.pagination.page - 1) * r.pagination.limit, r.pagination.limit)
  {
    var page := ParamOr(q.page, 1);
    var limit := ParamOr(q.limit, 10);
    var skip := (page - 1) * limit;
    var matching := Matching(store, BuildWhere(actor, q));
    var ordered := SortLatestFirst(store, matching);
    var items := if skip >= 0 && limit > 0 then Some(Window(ordered, skip, limit)) else None;
    r := Listing(items, Pagination(page, limit, |matching|, CeilDiv(|matching|, limit)));
    if items.Some? {
      assert Enumerates(matching, ordered) && LatestFirst(store, ordered)
        && items.value == Window(ordered, skip, limit);
    }
  }

  // ---------------------------------------------------------------------
  // Properties of the filter and of pagination

  /** A non-administrator who gives no `instructorId` parameter only ever
      sees their own appointments. */
  lemma NonAdminSeesOnlyOwn(store: Store, actor: User, q: ListQuery)
    requires actor.role != Admin && !Given(q.instructorId)
    ensures forall k :: k in Matching(store, BuildWhere(actor, q)) ==> store[k].instructorId == actor.id
  {
  }

  /** An `instructorId` parameter replaces the ownership scope: the filter no
      longer depends on who asks, and selects that instructor's rows. */
  lemma InstructorParamReplacesScope(store: Store, actor: User, other: User, q: ListQuery)
    requires Given(q.instructorId)
    ensures BuildWhere(actor, q) == BuildWhere(other, q)
    ensures forall k :: k in Matching(store, BuildWhere(actor, q)) ==> store[k].instructorId == q.instructorId.value
  {
  }

  /** Consequently a non-administrator can list another instructor's
      appointments by naming that instructor. */
  lemma NonAdminCanListOtherInstructor()
    ensures var store := map["x" := Appointment("i2", "s", 0, 1, Scheduled, "T", None)];
            var q := ListQuery(None, None, None, None, None, Some("i2"), None, None);
            "x" in Matching(store, BuildWhere(User("i1", "e", "INSTRUCTOR"), q))
  {
  }

  /** An administrator with no filter parameters sees every row. */
  lemma AdminWithoutFiltersSeesAll(store: Store, actor: User, q: ListQuery)
    requires actor.role == Admin
    requires !Given(q.instructorId) && q.status.None? && !Given(q.kind) && !Given(q.studentId)
    requires q.startDate.None? && q.endDate.None?
    ensures Matching(store, BuildWhere(actor, q)) == store.Keys
  {
  }

  /** Filters are conjunctive: supplying a status keeps exactly the rows of
      the unfiltered-by-status result that have that status. */
  lemma StatusFilterIntersects(store: Store, actor: User, q: ListQuery, s: Status)
    requires q.status.None?
    ensures Matching(store, BuildWhere(actor, q.(status := Some(s))))
            == Matching(store, BuildWhere(actor, q)) * (set k | k in store && store[k].status == s)
  {
  }

  /** The `type` filter is conjunctive too: a non-empty type keeps exactly
      the rows of the result without it that have that type. */
  lemma KindFilterIntersects(store: Store, actor: User, q: ListQuery, t: string)
    requires !Given(q.kind) && t != ""
    ensures Matching(store, BuildWhere(actor, q.(kind := Some(t))))
            == Matching(store, BuildWhere(actor, q)) * (set k | k in store && store[k].kind == t)
  {
  }

  /** So is the `studentId` filter. */
  lemma StudentFilterIntersects(store: Store, actor: User, q: ListQuery, student: Id)
    requires !Given(q.studentId) && student != ""
    ensures Matching(store, BuildWhere(actor, q.(studentId := Some(student))))
            == Matching(store, BuildWhere(actor, q)) * (set k | k in store && store[k].studentId == student)
  {
  }

  /** A lone `startDate` is an inclusive lower bound on the start instant,
      with no upper bound. */
  lemma StartDateAloneIsLowerBound(store: Store, actor: User, q: ListQuery, lo: Instant)
    requires q.startDate.None? && q.endDate.None?
    ensures Matching(store, BuildWhere(actor, q.(startDate := Some(lo))))
            == Matching(store, BuildWhere(actor, q)) * (set k | k in store && lo <= store[k].startTime)
  {
  }

  /** A lone `endDate` is an inclusive upper bound on the start instant,
      with no lower bound. */
  lemma EndDateAloneIsUpperBound(store: Store, actor: User, q: ListQuery, hi: Instant)
    requires q.startDate.None? && q.endDate.None?
    ensures Matching(store, BuildWhere(actor, q.(endDate := Some(hi))))
            == Matching(store, BuildWhere(actor, q)) * (set k | k in store && store[k].startTime <= hi)
  {
  }

  /** The date bounds are inclusive at both ends: given together, they
      intersect the result with the rows starting in [startDate, endDate],
      whoever asks and whatever else is filtered. For an administrator with
      no other filter, a row is selected iff its start lies in that range. */
  lemma DateRangeIsInclusive(store: Store, actor: User, q: ListQuery, lo: Instant, hi: Instant)
    requires q.startDate.None? && q.endDate.None?
    ensures Matching(store, BuildWhere(actor, q.(startDate := Some(lo), endDate := Some(hi))))
            == Matching(store, BuildWhere(actor, q)) * (set k | k in store && lo <= store[k].startTime <= hi)
    ensures actor.role == Admin && !Given(q.instructorId) && q.status.None? && !Given(q.kind) && !Given(q.studentId)
            ==> forall k :: k in store ==>
                  (k in Matching(store, BuildWhere(actor, q.(startDate := Some(lo), endDate := Some(hi))))
                   <==> lo <= store[k].startTime <= hi)
  {
  }

  /** For positive page and limit, a page has rows iff its number is at most
      the `pages` counter. */
  lemma PageNonEmptyIffWithinPages(s: seq<Id>, page: int, limit: int)
    requires page >= 1 && limit > 0
    ensures (page - 1) * limit >= 0
    ensures Window(s, (page - 1) * limit, limit) != [] <==> page <= CeilDiv(|s|, limit)
  {
    var pages := CeilDiv(|s|, limit);
    MulMonotone(0, page - 1, limit);
    if page <= pages {
      // the page starts no later than the last page, which starts before the end
      MulMonotone(page - 1, pages - 1, limit);
    } else {
      // the page starts at or after pages * limit, which is past the end
      MulMonotone(pages, page - 1, limit);
    }
  }

  /** Multiplying by a non-negative factor keeps the order. */
  lemma MulMonotone(a: int, b: int, c: int)
    requires a <= b && c >= 0
    ensures a * c <= b * c
  {
    assert b * c - a * c == (b - a) * c;
  }
}
