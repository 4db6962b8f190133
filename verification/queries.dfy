/** The read side of the GraphQL service: `Query.feedback` with its filter,
    ordering, page slice, count and page information; `Query.events`,
    `Query.event`; and the derived `Event` and `Feedback` fields. */
module Queries {
  import opened Wrappers
  import opened JsValues
  import opened Store
  import opened Seqs
  import opened Ordering
  import opened Ints

  datatype FeedbackFilterInput = FeedbackFilterInput(
    eventId: Option<Id>,
    minRating: Option<int>,
    maxRating: Option<int>)

  datatype PaginationInput = PaginationInput(page: Option<int>, pageSize: Option<int>)

  datatype PageInfo = PageInfo(
    hasNextPage: bool,
    hasPreviousPage: bool,
    currentPage: int,
    totalPages: int)

  datatype FeedbackConnection = FeedbackConnection(
    items: seq<FeedbackRow>,
    totalCount: nat,
    pageInfo: PageInfo)

  /** A page size of 0 makes `totalPages` infinite or NaN, which the GraphQL
      `Int!` field refuses to serialise; the error nulls the whole
      non-null `feedback` field. */
  datatype QueryError = IntCannotRepresent

  const DefaultPage := 1
  const DefaultPageSize := 10

  /** `pagination?.page ?? 1` */
  function PageOf(pagination: Option<PaginationInput>): int {
    if pagination.Some? && pagination.value.page.Some? then pagination.value.page.value else DefaultPage
  }

  /** `pagination?.pageSize ?? 10` */
  function PageSizeOf(pagination: Option<PaginationInput>): int {
    if pagination.Some? && pagination.value.pageSize.Some? then pagination.value.pageSize.value else DefaultPageSize
  }

  /** The `WHERE` clause: one condition per truthy filter field, joined by
      `AND`; no condition at all when none is truthy. */
  predicate Where(filter: Option<FeedbackFilterInput>, r: FeedbackRow) {
    match filter
    case None => true
    case Some(f) =>
      && (StrTruthy(f.eventId) ==> r.eventId == f.eventId.value)
      && (IntTruthy(f.minRating) ==> r.rating >= f.minRating.value)
      && (IntTruthy(f.maxRating) ==> r.rating <= f.maxRating.value)
  }

  /** The clause as a row predicate. */
  function WhereClause(filter: Option<FeedbackFilterInput>): FeedbackRow -> bool {
    (r: FeedbackRow) => Where(filter, r)
  }

  /** `WHERE event_id = id`, without a truthiness test. */
  function OfEvent(eventId: Id): FeedbackRow -> bool {
    (r: FeedbackRow) => r.eventId == eventId
  }

  /** `SELECT * FROM feedback WHERE … ORDER BY created_at DESC`: the stored
      rows satisfying the clause, newest first. */
  function Matching(db: Db, filter: Option<FeedbackFilterInput>): (t: seq<FeedbackRow>)
    ensures NewestFirst(t)
    ensures forall x :: x in t <==> x in db.feedback && Where(filter, x)
  {
    var f := Filter(db.feedback, WhereClause(filter));
    SortKeepsRows(f);
    SortNewestFirst(f)
  }

  /** As a bag, the result set holds each satisfying row with its stored
      multiplicity and nothing else, which is what `COUNT(*)` counts. */
  lemma MatchingBag(db: Db, filter: Option<FeedbackFilterInput>, x: FeedbackRow)
    ensures multiset(Matching(db, filter))[x] == if Where(filter, x) then multiset(db.feedback)[x] else 0
  {
    FilterMultiset(db.feedback, WhereClause(filter), x);
  }

  /** SQLite's `LIMIT limit OFFSET offset`: a negative offset acts as 0 and a
      negative limit means no limit. The result is the run of `s` starting
      at the effective offset. */
  function LimitOffset(s: seq<FeedbackRow>, limit: int, offset: int): (r: seq<FeedbackRow>)
    ensures forall i | 0 <= i < |r| :: Max(offset, 0) + i < |s| && r[i] == s[Max(offset, 0) + i]
    ensures limit >= 0 ==> |r| == Max(0, Min(limit, |s| - Max(offset, 0)))
    ensures limit < 0 ==> |r| == Max(0, |s| - Max(offset, 0))
  {
    var start := if offset < 0 then 0 else if offset > |s| then |s| else offset;
    var end := if limit < 0 || limit > |s| - start then |s| else start + limit;
    var r := s[start..end];
    assert start < |s| ==> start == Max(offset, 0);
    assert forall i | 0 <= i < |r| :: r[i] == s[start + i];
    r
  }

  /** `Math.ceil(n / d)` for a row count `n`: the least integer `q` with
      `q * d >= n` when `d > 0`, and the ceiling of the non-positive quotient
      when `d < 0`. Double division is exact here because counts stay far
      below 2^53. */
  function CeilDiv(n: nat, d: int): (q: int)
    requires d != 0
    ensures d > 0 ==> (q - 1) * d < n <= q * d
    ensures d < 0 ==> q * d <= n < (q - 1) * d
  {
    if d > 0 then
      var q := (n + d - 1) / d;
      assert q * d + (n + d - 1) % d == n + d - 1;
      assert (q - 1) * d == q * d - d;
      q
    else
      var k := n / -d;
      assert k * -d + n % -d == n;
      assert -k * d == k * -d;
      assert (-k - 1) * d == -k * d - d;
      -k
  }

  /** The page of an ordered result set that `LIMIT pageSize OFFSET
      (page - 1) * pageSize` selects: it keeps the order and holds at most
      `pageSize` rows when that is positive. */
  function PageItems(sorted: seq<FeedbackRow>, page: int, pageSize: int): (items: seq<FeedbackRow>)
    requires NewestFirst(sorted)
    ensures NewestFirst(items)
    ensures forall i | 0 <= i < |items| :: items[i] in sorted
    ensures pageSize > 0 ==> |items| <= pageSize
  {
    var offset := (page - 1) * pageSize;
    var items := LimitOffset(sorted, pageSize, offset);
    assert forall i | 0 <= i < |items| :: items[i] == sorted[Max(offset, 0) + i];
    items
  }

  /** `totalPages` pages of `pageSize` rows hold `n` rows, and one page fewer
      would not. */
  predicate PagesCover(totalPages: int, n: int, pageSize: int) {
    (totalPages - 1) * pageSize < n <= totalPages * pageSize
  }

  /** The page information computed from the count: `totalPages` is the
      ceiling of `totalCount / pageSize`, so that there is a next page
      exactly when rows remain beyond this one. */
  function MakePageInfo(totalCount: nat, page: int, pageSize: int): (info: PageInfo)
    requires pageSize != 0
    ensures info.currentPage == page
    ensures info.hasPreviousPage <==> page > 1
    ensures totalCount == 0 ==> info.totalPages == 0
    ensures pageSize > 0 ==> PagesCover(info.totalPages, totalCount, pageSize)
    ensures pageSize > 0 ==> (info.hasNextPage <==> page * pageSize < totalCount)
    ensures pageSize < 0 ==> info.totalPages * pageSize <= totalCount < (info.totalPages - 1) * pageSize
    ensures info.hasNextPage <==> page < info.totalPages
  {
    var totalPages := CeilDiv(totalCount, pageSize);
    assert pageSize > 0 ==> (page < totalPages <==> page * pageSize < totalCount) by {
      if pageSize > 0 {
        HasNextIffRowsRemain(totalCount, page, pageSize, totalPages);
      }
    }
    PageInfo(page < totalPages, page > 1, page, totalPages)
  }

  /** `page < ceil(n / s)` is the same as `page * s < n`. */
  lemma HasNextIffRowsRemain(n: nat, page: int, s: int, q: int)
    requires s > 0 && PagesCover(q, n, s)
    ensures page < q <==> page * s < n
    ensures n == 0 ==> q == 0
  {
    if page < q {
      assert page <= q - 1;
      assert page * s <= (q - 1) * s;
    } else {
      assert page * s >= q * s;
    }
  }

  /** `Query.feedback(filter, pagination)`. */
  function FeedbackQuery(db: Db, filter: Option<FeedbackFilterInput>, pagination: Option<PaginationInput>)
    : (r: Result<FeedbackConnection, QueryError>)
    ensures r.Failure? <==> PageSizeOf(pagination) == 0
    ensures r.Success? ==> r.value.items == PageItems(Matching(db, filter), PageOf(pagination), PageSizeOf(pagination))
    ensures r.Success? ==>
      forall i | 0 <= i < |r.value.items| :: r.value.items[i] in db.feedback && Where(filter, r.value.items[i])
    ensures r.Success? ==> NewestFirst(r.value.items)
    ensures r.Success? && PageSizeOf(pagination) > 0 ==> |r.value.items| <= PageSizeOf(pagination)
    ensures r.Success? ==> r.value.totalCount == |Matching(db, filter)|
    ensures r.Success? ==> r.value.pageInfo.currentPage == PageOf(pagination)
    ensures r.Success? ==> (r.value.pageInfo.hasPreviousPage <==> PageOf(pagination) > 1)
    ensures r.Success? && r.value.totalCount == 0 ==> r.value.pageInfo.totalPages == 0
    ensures r.Success? && PageSizeOf(pagination) > 0 ==>
      var ps, info := PageSizeOf(pagination), r.value.pageInfo;
      && PagesCover(info.totalPages, r.value.totalCount, ps)
      && (info.hasNextPage <==> PageOf(pagination) * ps < r.value.totalCount)
  {
    var page := PageOf(pagination);
    var pageSize := PageSizeOf(pagination);
    var sorted := Matching(db, filter);
    var items := PageItems(sorted, page, pageSize);
    var totalCount := |Filter(db.feedback, WhereClause(filter))|;
    if pageSize == 0 then
      Failure(IntCannotRepresent)
    else
      var info := MakePageInfo(totalCount, page, pageSize);
      Success(FeedbackConnection(items, totalCount, info))
  }

  /** With no pagination argument the first page of ten is served. */
  lemma DefaultPagination(db: Db, filter: Option<FeedbackFilterInput>)
    ensures FeedbackQuery(db, filter, None).Success?
    ensures FeedbackQuery(db, filter, None).value.pageInfo.currentPage == 1
    ensures FeedbackQuery(db, filter, None).value.items
         == Matching(db, filter)[..Min(DefaultPageSize, |Matching(db, filter)|)]
  {
    var r := FeedbackQuery(db, filter, None);
    assert r.Success?;
    FirstPage(Matching(db, filter), DefaultPageSize);
  }

  /** Page 1 is the leading `pageSize` rows, or all of them when fewer. */
  lemma FirstPage(sorted: seq<FeedbackRow>, pageSize: int)
    requires NewestFirst(sorted) && pageSize > 0
    ensures PageItems(sorted, 1, pageSize) == sorted[..Min(pageSize, |sorted|)]
  {
    var items := PageItems(sorted, 1, pageSize);
    assert items == LimitOffset(sorted, pageSize, 0);
    assert |items| == Min(pageSize, |sorted|);
  }

  /** `items` is the run of `sorted` that starts at `offset`: as many rows as
      remain there, up to `pageSize`. */
  predicate IsWindow(items: seq<FeedbackRow>, sorted: seq<FeedbackRow>, offset: int, pageSize: int) {
    && 0 <= offset
    && |items| == Max(0, Min(pageSize, |sorted| - offset))
    && forall i | 0 <= i < |items| :: offset + i < |sorted| && items[i] == sorted[offset + i]
  }

  /** For a positive page size and a page from 1 on, the items are exactly
      the rows at positions `offset, offset + 1, …` of the ordered result set,
      with `offset = (page - 1) * pageSize`, as many as remain up to
      `pageSize`; so a page past the end is empty. */
  lemma ItemsAreWindow(db: Db, filter: Option<FeedbackFilterInput>, pagination: Option<PaginationInput>)
    requires PageOf(pagination) >= 1 && PageSizeOf(pagination) > 0
    ensures FeedbackQuery(db, filter, pagination).Success?
    ensures IsWindow(FeedbackQuery(db, filter, pagination).value.items, Matching(db, filter),
                     (PageOf(pagination) - 1) * PageSizeOf(pagination), PageSizeOf(pagination))
  {
    var page, pageSize := PageOf(pagination), PageSizeOf(pagination);
    var sorted := Matching(db, filter);
    PageItemsWindow(sorted, page, pageSize);
    var r := FeedbackQuery(db, filter, pagination);
    assert r.Success? && r.value.items == PageItems(sorted, page, pageSize);
  }

  lemma PageItemsWindow(sorted: seq<FeedbackRow>, page: int, pageSize: int)
    requires NewestFirst(sorted) && page >= 1 && pageSize > 0
    ensures IsWindow(PageItems(sorted, page, pageSize), sorted, (page - 1) * pageSize, pageSize)
  {
    var offset := (page - 1) * pageSize;
    MulNonNegative(page - 1, pageSize);
    assert PageItems(sorted, page, pageSize) == LimitOffset(sorted, pageSize, offset);
    assert Max(offset, 0) == offset;
  }

  lemma MulNonNegative(a: int, b: int)
    requires a >= 0 && b >= 0
    ensures a * b >= 0
  {
  }

  /** Every row of the ordered result set is served by exactly the page its
      position falls on: row `k` is item `k % pageSize` of page
      `k / pageSize + 1`. */
  lemma EveryRowOnItsPage(db: Db, filter: Option<FeedbackFilterInput>, pageSize: int, k: nat)
    requires pageSize > 0 && k < |Matching(db, filter)|
    ensures var pagination := Some(PaginationInput(Some(k / pageSize + 1), Some(pageSize)));
            var items := FeedbackQuery(db, filter, pagination).value.items;
            && k % pageSize < |items|
            && items[k % pageSize] == Matching(db, filter)[k]
  {
    var q := k / pageSize;
    var sorted := Matching(db, filter);
    var pagination := Some(PaginationInput(Some(q + 1), Some(pageSize)));
    assert FeedbackQuery(db, filter, pagination).value.items == PageItems(sorted, q + 1, pageSize);
    RowOnItsPage(sorted, pageSize, k);
  }

  lemma RowOnItsPage(sorted: seq<FeedbackRow>, pageSize: int, k: nat)
    requires NewestFirst(sorted) && pageSize > 0 && k < |sorted|
    ensures var items := PageItems(sorted, k / pageSize + 1, pageSize);
            k % pageSize < |items| && items[k % pageSize] == sorted[k]
  {
    var q, m := k / pageSize, k % pageSize;
    DivMod(k, pageSize);
    assert (q + 1 - 1) * pageSize == q * pageSize;
    PageItemsWindow(sorted, q + 1, pageSize);
    var items := PageItems(sorted, q + 1, pageSize);
    assert IsWindow(items, sorted, q * pageSize, pageSize);
    assert m < |items|;
    assert items[m] == sorted[q * pageSize + m];
  }

  lemma DivMod(k: nat, d: int)
    requires d > 0
    ensures (k / d) * d + k % d == k && 0 <= k % d < d && k / d >= 0
  {
  }

  function FindEvent(events: seq<EventRow>, id: Id): (r: Option<EventRow>)
    ensures r.None? <==> forall i | 0 <= i < |events| :: events[i].id != id
    ensures r.Some? ==> r.value in events && r.value.id == id
  {
    if |events| == 0 then None
    else if events[0].id == id then Some(events[0])
    else
      var r := FindEvent(events[1..], id);
      assert forall i | 1 <= i < |events| :: events[i] == events[1..][i - 1];
      r
  }

  /** `Query.event(id)`: the event with that id, or null. */
  function EventById(db: Db, id: Id): (r: Option<EventRow>)
    ensures r.None? <==> !HasEvent(db, id)
    ensures r.Some? ==> r.value in db.events && r.value.id == id
  {
    FindEvent(db.events, id)
  }

  /** Under unique primary keys `Query.event` finds the one event with the id. */
  lemma EventByIdFindsStored(db: Db, e: EventRow)
    requires Valid(db) && e in db.events
    ensures EventById(db, e.id) == Some(e)
  {
    var r := EventById(db, e.id);
    var i :| 0 <= i < |db.events| && db.events[i] == e;
    var j :| 0 <= j < |db.events| && db.events[j] == r.value;
    assert i == j;
  }

  /** `Feedback.event`: the event a feedback row references. */
  function FeedbackEvent(db: Db, row: FeedbackRow): (r: Option<EventRow>)
    ensures r.None? <==> !HasEvent(db, row.eventId)
    ensures r.Some? ==> r.value in db.events && r.value.id == row.eventId
    ensures Valid(db) && row in db.feedback ==> r.Some?
  {
    EventById(db, row.eventId)
  }

  /** `Event.feedback`: the event's rows, newest first. */
  function EventFeedback(db: Db, eventId: Id): (t: seq<FeedbackRow>)
    ensures NewestFirst(t)
    ensures forall x :: x in t <==> x in db.feedback && x.eventId == eventId
  {
    var f := Filter(db.feedback, OfEvent(eventId));
    SortKeepsRows(f);
    SortNewestFirst(f)
  }

  /** As a bag, `Event.feedback` holds each of the event's rows once per
      stored copy. */
  lemma EventFeedbackBag(db: Db, eventId: Id, x: FeedbackRow)
    ensures multiset(EventFeedback(db, eventId))[x] == if x.eventId == eventId then multiset(db.feedback)[x] else 0
  {
    FilterMultiset(db.feedback, OfEvent(eventId), x);
  }

  /** `Event.feedbackCount`: the length of `Event.feedback`. */
  function FeedbackCount(db: Db, eventId: Id): (n: nat)
    ensures n == |EventFeedback(db, eventId)|
  {
    |Filter(db.feedback, OfEvent(eventId))|
  }

  /** Unlike `Query.feedback`, `Event.feedback` compares ids without a
      truthiness test; for a non-empty id the two agree. */
  lemma EventFeedbackIsFilteredQuery(db: Db, eventId: Id)
    requires eventId != ""
    ensures Matching(db, Some(FeedbackFilterInput(Some(eventId), None, None))) == EventFeedback(db, eventId)
  {
    var filter := Some(FeedbackFilterInput(Some(eventId), None, None));
    FilterCongruent(db.feedback, WhereClause(filter), OfEvent(eventId));
  }

  function SumRatings(rows: seq<FeedbackRow>): int {
    if |rows| == 0 then 0 else rows[0].rating + SumRatings(rows[1..])
  }

  /** The SQL `avg(rating)` of an event, kept as its sum and count. */
  datatype Average = Average(sum: int, count: nat)

  /** `Event.averageRating`: null when the event has no feedback, so that
      "no data" is never reported as a number. */
  function AverageRating(db: Db, eventId: Id): (r: Option<Average>)
    ensures r.None? <==> FeedbackCount(db, eventId) == 0
    ensures r.Some? ==> r.value.count == FeedbackCount(db, eventId)
  {
    var rows := Filter(db.feedback, OfEvent(eventId));
    if |rows| == 0 then None else Some(Average(SumRatings(rows), |rows|))
  }

  lemma {:induction false} SumRatingsBounds(rows: seq<FeedbackRow>)
    requires forall i | 0 <= i < |rows| :: RatingInRange(rows[i].rating)
    ensures |rows| <= SumRatings(rows) <= 5 * |rows|
    decreases |rows|
  {
    if |rows| > 0 {
      assert forall i | 0 <= i < |rows[1..]| :: rows[1..][i] == rows[i + 1];
      SumRatingsBounds(rows[1..]);
    }
  }

  /** In a valid store an event's average rating lies between 1 and 5. */
  lemma AverageWithinRange(db: Db, eventId: Id)
    requires Valid(db)
    requires AverageRating(db, eventId).Some?
    ensures var a := AverageRating(db, eventId).value;
            a.count <= a.sum <= 5 * a.count
  {
    var rows := Filter(db.feedback, OfEvent(eventId));
    forall i | 0 <= i < |rows| ensures RatingInRange(rows[i].rating) {
      assert rows[i] in db.feedback;
    }
    SumRatingsBounds(rows);
  }
}
