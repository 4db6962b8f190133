/** The `Home` page's filter and page state and the `FilterBar` controls
    that drive it. */
module HomePage {
  import opened Wrappers
  import opened JsValues
  import opened Store
  import opened Queries
  import opened Ints
  import FeedbackList

  /** The page size the page asks the list for. */
  const ListPageSize := 5

  datatype HomeState = HomeState(filterEventId: Option<Id>, minRating: Option<int>, currentPage: int)

  const InitialHome := HomeState(None, None, 1)

  /** `handleEventChange`: a new event filter starts again at page 1. */
  function HandleEventChange(s: HomeState, eventId: Option<Id>): (t: HomeState)
    ensures t.filterEventId == eventId && t.minRating == s.minRating && t.currentPage == 1
  {
    HomeState(eventId, s.minRating, 1)
  }

  /** `handleMinRatingChange`: a new minimum rating starts again at page 1. */
  function HandleMinRatingChange(s: HomeState, minRating: Option<int>): (t: HomeState)
    ensures t.minRating == minRating && t.filterEventId == s.filterEventId && t.currentPage == 1
  {
    HomeState(s.filterEventId, minRating, 1)
  }

  /** `onPageChange` from the list: only the page moves. */
  function SetCurrentPage(s: HomeState, page: int): (t: HomeState)
    ensures t.currentPage == page && t.filterEventId == s.filterEventId && t.minRating == s.minRating
  {
    HomeState(s.filterEventId, s.minRating, page)
  }

  /** The variables the list sends for this state: the page's two filters,
      never a maximum rating, the current page and a page size of five. */
  function ListVariables(s: HomeState): (v: FeedbackList.QueryVariables)
    ensures v.pagination == PaginationInput(Some(s.currentPage), Some(ListPageSize))
    ensures v.filter.Some? ==> v.filter.value.maxRating.None?
    ensures forall r :: Where(v.filter, r) <==>
      && (StrTruthy(s.filterEventId) ==> r.eventId == s.filterEventId.value)
      && (IntTruthy(s.minRating) ==> r.rating >= s.minRating.value)
  {
    var f := FeedbackList.ListFilter(s.filterEventId, s.minRating, None);
    var v := FeedbackList.Variables(f, s.currentPage, ListPageSize);
    forall r ensures Where(v.filter, r) <==>
      && (StrTruthy(s.filterEventId) ==> r.eventId == s.filterEventId.value)
      && (IntTruthy(s.minRating) ==> r.rating >= s.minRating.value)
    {
      FeedbackList.ServerFilterMatchesProp(f, s.currentPage, ListPageSize, r);
    }
    v
  }

  /** After either filter change the list shows the first five rows of the
      new result set, with no previous page. */
  lemma FilterChangeShowsFirstPage(db: Db, s: HomeState, eventId: Option<Id>, minRating: Option<int>)
    ensures ShowsFirstPage(db, HandleEventChange(s, eventId))
    ensures ShowsFirstPage(db, HandleMinRatingChange(s, minRating))
  {
    FirstPageShown(db, HandleEventChange(s, eventId));
    FirstPageShown(db, HandleMinRatingChange(s, minRating));
  }

  /** The list's response is the first page: the leading five rows of the
      result set, with no previous page. */
  predicate ShowsFirstPage(db: Db, s: HomeState) {
    var v := ListVariables(s);
    var r := FeedbackQuery(db, v.filter, Some(v.pagination));
    && r.Success?
    && !r.value.pageInfo.hasPreviousPage
    && r.value.items == Matching(db, v.filter)[..Min(ListPageSize, |Matching(db, v.filter)|)]
  }

  lemma FirstPageShown(db: Db, s: HomeState)
    requires s.currentPage == 1
    ensures ShowsFirstPage(db, s)
  {
    var v := ListVariables(s);
    var sorted := Matching(db, v.filter);
    var r := FeedbackQuery(db, v.filter, Some(v.pagination));
    assert r.Success? && r.value.items == PageItems(sorted, 1, ListPageSize);
    FirstPage(sorted, ListPageSize);
  }

  /** The page opens on the unfiltered feed, first page. */
  lemma InitialShowsWholeFeed(r: FeedbackRow)
    ensures ListVariables(InitialHome).pagination.page == Some(1)
    ensures Where(ListVariables(InitialHome).filter, r)
  {
  }
}

