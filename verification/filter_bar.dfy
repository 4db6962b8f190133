/** The `FilterBar` component's minimum-rating logic: the star widget's
    value, the toggle on picking a star, and the Clear button. */
module FilterBar {
  import opened Wrappers
  import opened JsValues
  import opened HomePage

  /** The value the star widget shows: `minRating || 0`. */
  function StarValue(minRating: Option<int>): (v: int)
    ensures minRating.None? ==> v == 0
    ensures minRating.Some? ==> v == minRating.value
  {
    IntOrZero(minRating)
  }

  /** Picking a star: the star equal to the current minimum clears it,
      any other star becomes the minimum. */
  function PickStar(minRating: Option<int>, star: int): (m: Option<int>)
    ensures minRating == Some(star) ==> m == None
    ensures minRating != Some(star) ==> m == Some(star)
  {
    if Some(star) == minRating then None else Some(star)
  }

  /** Picking the same star twice returns to where one started, from no
      minimum or from that star. */
  lemma PickStarTwice(minRating: Option<int>, star: int)
    requires minRating == None || minRating == Some(star)
    ensures PickStar(PickStar(minRating, star), star) == minRating
  {
  }

  /** The Clear button is shown while the minimum is truthy. */
  predicate ShowsClear(minRating: Option<int>) {
    IntTruthy(minRating)
  }

  /** Clear drops the minimum and returns to page 1; the event filter stays. */
  function Clear(s: HomeState): (t: HomeState)
    ensures t.minRating == None && t.filterEventId == s.filterEventId && t.currentPage == 1
  {
    HandleMinRatingChange(s, None)
  }

  /** The Clear button disappears exactly when a pick clears the minimum
      or sets it to a falsy star. */
  lemma ClearButtonTracksPick(minRating: Option<int>, star: int)
    ensures !ShowsClear(PickStar(minRating, star)) <==> minRating == Some(star) || star == 0
  {
  }
}
