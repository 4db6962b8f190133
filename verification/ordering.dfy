/** `ORDER BY created_at DESC`. SQL leaves the order of equal timestamps
    open; this model fixes one (the later-inserted row first) and the
    properties below state only what any such order guarantees, plus the
    fact that under a monotone clock the order is reverse insertion order. */
module Ordering {
  import opened Store

  /** Non-increasing `createdAt`. */
  predicate NewestFirst(s: seq<FeedbackRow>) {
    forall i, j | 0 <= i < j < |s| :: s[i].createdAt >= s[j].createdAt
  }

  /** Strictly increasing `createdAt`: the order a clock produces that
      ticks between any two inserts. */
  predicate StrictlyOldestFirst(s: seq<FeedbackRow>) {
    forall i, j | 0 <= i < j < |s| :: s[i].createdAt < s[j].createdAt
  }

  /** Places `r` before the first row that is not newer than it. */
  function InsertNewest(r: FeedbackRow, s: seq<FeedbackRow>): (t: seq<FeedbackRow>)
    requires NewestFirst(s)
    ensures NewestFirst(t)
    ensures forall x :: x in t <==> x in s || x == r
    ensures multiset(t) == multiset(s) + multiset{r}
    ensures |t| == |s| + 1
  {
    if |s| == 0 || r.createdAt >= s[0].createdAt then
      [r] + s
    else
      var u := InsertNewest(r, s[1..]);
      assert s == [s[0]] + s[1..];
      forall k | 0 <= k < |u| ensures s[0].createdAt >= u[k].createdAt {
        assert u[k] in u;
      }
      ConsNewestFirst(s[0], u);
      assert multiset(s) == multiset{s[0]} + multiset(s[1..]);
      assert multiset([s[0]] + u) == multiset{s[0]} + multiset(u);
      [s[0]] + u
  }

  /** A row no older than any row of a newest-first sequence may head it. */
  lemma ConsNewestFirst(x: FeedbackRow, u: seq<FeedbackRow>)
    requires NewestFirst(u)
    requires forall k | 0 <= k < |u| :: x.createdAt >= u[k].createdAt
    ensures NewestFirst([x] + u)
  {
    var t := [x] + u;
    forall i, j | 0 <= i < j < |t| ensures t[i].createdAt >= t[j].createdAt {
      assert t[j] == u[j - 1];
      if i > 0 {
        assert t[i] == u[i - 1];
      }
    }
  }

  /** The rows ordered newest first; among equal timestamps the row inserted
      later comes first. */
  function SortNewestFirst(s: seq<FeedbackRow>): (t: seq<FeedbackRow>)
    ensures NewestFirst(t)
    ensures multiset(t) == multiset(s)
    ensures |t| == |s|
  {
    if |s| == 0 then []
    else
      assert s == s[..|s| - 1] + [s[|s| - 1]];
      InsertNewest(s[|s| - 1], SortNewestFirst(s[..|s| - 1]))
  }

  function Reverse(s: seq<FeedbackRow>): (t: seq<FeedbackRow>)
    ensures |t| == |s|
    ensures forall i | 0 <= i < |s| :: t[i] == s[|s| - 1 - i]
  {
    if |s| == 0 then [] else [s[|s| - 1]] + Reverse(s[..|s| - 1])
  }

  /** When rows were inserted with strictly increasing timestamps, newest
      first is exactly reverse insertion order; no two rows tie, so this
      holds whatever order the database gives equal timestamps. */
  lemma {:induction false} SortOfChronological(s: seq<FeedbackRow>)
    requires StrictlyOldestFirst(s)
    ensures SortNewestFirst(s) == Reverse(s)
    decreases |s|
  {
    if |s| > 0 {
      var init := s[..|s| - 1];
      assert StrictlyOldestFirst(init);
      SortOfChronological(init);
      var t := SortNewestFirst(init);
      assert |t| == 0 || t[0] == init[|init| - 1];
    }
  }

  /** Sorting keeps exactly the rows it was given. */
  lemma SortKeepsRows(s: seq<FeedbackRow>)
    ensures forall x :: x in SortNewestFirst(s) <==> x in s
  {
    var t := SortNewestFirst(s);
    forall x ensures x in t <==> x in s {
      assert x in t <==> x in multiset(t);
      assert x in s <==> x in multiset(s);
    }
  }

  /** A row strictly newer than every stored row goes to the front. */
  lemma SortAppendNewest(s: seq<FeedbackRow>, r: FeedbackRow)
    requires forall i | 0 <= i < |s| :: s[i].createdAt < r.createdAt
    ensures SortNewestFirst(s + [r]) == [r] + SortNewestFirst(s)
  {
    var t := SortNewestFirst(s);
    var sr := s + [r];
    assert sr[..|sr| - 1] == s && sr[|sr| - 1] == r;
    assert SortNewestFirst(sr) == InsertNewest(r, t);
    if |t| > 0 {
      SortKeepsRows(s);
      assert t[0] in s;
    }
  }
}
