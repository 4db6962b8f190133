/** The `FeedbackList` component: the variables it sends with the feed query
    and the live subscription, the rating gate it applies to pushed
    records, and which of its views it shows. */
module FeedbackList {
  import opened Wrappers
  import opened JsValues
  import opened Store
  import opened Queries
  import Subscriptions
  import PaginationControls

  /** The `filter` prop: every field nullable. */
  datatype ListFilter = ListFilter(eventId: Option<Id>, minRating: Option<int>, maxRating: Option<int>)

  datatype QueryVariables = QueryVariables(filter: Option<FeedbackFilterInput>, pagination: PaginationInput)

  /** `graphqlFilter`: a key for each truthy field of the prop, and `null`
      in place of an object with no key. */
  function GraphqlFilter(f: ListFilter): (r: Option<FeedbackFilterInput>)
    ensures r.None? <==> !StrTruthy(f.eventId) && !IntTruthy(f.minRating) && !IntTruthy(f.maxRating)
    ensures r.Some? ==>
      && (r.value.eventId.Some? <==> StrTruthy(f.eventId))
      && (r.value.minRating.Some? <==> IntTruthy(f.minRating))
      && (r.value.maxRating.Some? <==> IntTruthy(f.maxRating))
      && (r.value.eventId.Some? ==> r.value.eventId == f.eventId)
      && (r.value.minRating.Some? ==> r.value.minRating == f.minRating)
      && (r.value.maxRating.Some? ==> r.value.maxRating == f.maxRating)
  {
    var eventId := if StrTruthy(f.eventId) then f.eventId else None;
    var minRating := if IntTruthy(f.minRating) then f.minRating else None;
    var maxRating := if IntTruthy(f.maxRating) then f.maxRating else None;
    if eventId.None? && minRating.None? && maxRating.None? then None
    else Some(FeedbackFilterInput(eventId, minRating, maxRating))
  }

  /** The variables of the `GetFeedback` query. */
  function Variables(f: ListFilter, page: int, pageSize: int): (v: QueryVariables)
    ensures v.filter == GraphqlFilter(f)
    ensures v.pagination == PaginationInput(Some(page), Some(pageSize))
  {
    QueryVariables(GraphqlFilter(f), PaginationInput(Some(page), Some(pageSize)))
  }

  /** The server's `WHERE` clause for the variables the list sends is the
      prop's own conditions: the dropped falsy fields constrained nothing. */
  lemma ServerFilterMatchesProp(f: ListFilter, page: int, pageSize: int, r: FeedbackRow)
    ensures Where(Variables(f, page, pageSize).filter, r) <==>
      && (StrTruthy(f.eventId) ==> r.eventId == f.eventId.value)
      && (IntTruthy(f.minRating) ==> r.rating >= f.minRating.value)
      && (IntTruthy(f.maxRating) ==> r.rating <= f.maxRating.value)
  {
  }

  /** The `eventId` variable of the subscription: `filter.eventId || null`. */
  function SubscriptionEventId(f: ListFilter): (e: Option<Id>)
    ensures e.Some? <==> StrTruthy(f.eventId)
    ensures e.Some? ==> e == f.eventId
  {
    StrOrNull(f.eventId)
  }

  /** `matchesRating` for a pushed record. */
  predicate MatchesRating(f: ListFilter, r: FeedbackRow) {
    && (!IntTruthy(f.minRating) || r.rating >= f.minRating.value)
    && (!IntTruthy(f.maxRating) || r.rating <= f.maxRating.value)
  }

  /** The ids highlighted as new. */
  datatype ListState = ListState(newFeedbackIds: set<Id>)

  /** `onData`: a pushed record that passes the rating gate is highlighted
      and triggers a refetch; any other record changes nothing. Returns the
      new state and whether a refetch was issued. */
  function OnData(f: ListFilter, s: ListState, r: FeedbackRow): (res: (ListState, bool))
    ensures res.1 <==> MatchesRating(f, r)
    ensures res.1 ==> res.0.newFeedbackIds == s.newFeedbackIds + {r.id}
    ensures !res.1 ==> res.0 == s
  {
    if MatchesRating(f, r) then (ListState(s.newFeedbackIds + {r.id}), true) else (s, false)
  }

  /** Client and server agree: a record reaches the list through its
      subscription and passes the rating gate exactly when it satisfies the
      `WHERE` clause of the feed query the list sends. */
  lemma LiveGateAgreesWithQuery(f: ListFilter, page: int, pageSize: int, r: FeedbackRow)
    ensures Subscriptions.Delivers(SubscriptionEventId(f), r) && MatchesRating(f, r)
        <==> Where(Variables(f, page, pageSize).filter, r)
  {
    ServerFilterMatchesProp(f, page, pageSize, r);
  }

  /** Of the records published, the ones the list highlights (and refetches
      for) are exactly those the feed query selects. */
  lemma HighlightedIffSelected(
    published: seq<FeedbackRow>, f: ListFilter, page: int, pageSize: int, s: ListState, r: FeedbackRow)
    requires r in published
    ensures (r in Subscriptions.Stream(published, SubscriptionEventId(f)) && OnData(f, s, r).1)
        <==> Where(Variables(f, page, pageSize).filter, r)
  {
    LiveGateAgreesWithQuery(f, page, pageSize, r);
  }

  /** The component's views, in the order it tests for them. */
  datatype View =
    | Spinner
    | LoadError
    | EmptyState
    | Listing(items: seq<FeedbackRow>, totalCount: nat, showsPagination: bool)

  function Render(loading: bool, error: bool, data: Option<FeedbackConnection>): (v: View)
    ensures v.Listing? <==> !(loading && data.None?) && !error && data.Some? && |data.value.items| > 0
    ensures v.Listing? ==> v.items == data.value.items && v.totalCount == data.value.totalCount
    ensures v.Listing? ==> (v.showsPagination <==> data.value.pageInfo.totalPages > 1)
  {
    if loading && data.None? then Spinner
    else if error then LoadError
    else if data.None? || |data.value.items| == 0 then EmptyState
    else Listing(data.value.items, data.value.totalCount, data.value.pageInfo.totalPages > 1)
  }

  /** For any page from 1 on and a positive page size, an enabled Next
      button asks for a page that exists, and an enabled Previous button
      asks for a page from 1 on (one that exists when the current page
      does). */
  lemma NavigationStaysInRange(
    db: Db, filter: Option<FeedbackFilterInput>, page: int, pageSize: int)
    requires page >= 1 && pageSize > 0
    ensures var r := FeedbackQuery(db, filter, Some(PaginationInput(Some(page), Some(pageSize))));
            var info := r.value.pageInfo;
            var c := PaginationControls.Render(info.currentPage, info.totalPages, info.hasNextPage, info.hasPreviousPage);
            && r.Success?
            && (!c.next.disabled ==> 1 <= c.next.target <= info.totalPages)
            && (!c.previous.disabled ==> 1 <= c.previous.target)
            && (!c.previous.disabled && page <= info.totalPages ==> c.previous.target <= info.totalPages)
  {
    var pagination := Some(PaginationInput(Some(page), Some(pageSize)));
    var r := FeedbackQuery(db, filter, pagination);
    var info := r.value.pageInfo;
    var n := r.value.totalCount;
    assert r.Success?;
    var c := PaginationControls.Render(info.currentPage, info.totalPages, info.hasNextPage, info.hasPreviousPage);
    assert c.next.target == page + 1 && c.previous.target == page - 1;
    if info.hasNextPage {
      HasNextIffRowsRemain(n, page, pageSize, info.totalPages);
      assert page < info.totalPages;
    }
  }
}
