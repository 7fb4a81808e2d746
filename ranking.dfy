/**
 * The final `results.sort(...)` of the matcher: match score descending, then
 * overlap percentage descending, keeping the input order between equals.
 */
module Ranking {
  import opened Records

  /**
   * The comparator `(a, b) => b.matchScore - a.matchScore ||
   * b.overlapPercentage - a.overlapPercentage`: a score difference of 0 is
   * falsy, so ties fall through to the overlap difference.
   */
  function Comparator(a: MatchResult, b: MatchResult): (r: real)
    ensures r == 0.0 <==> a.matchScore == b.matchScore && a.overlapPercentage == b.overlapPercentage
    ensures a.matchScore != b.matchScore ==> r == (b.matchScore - a.matchScore) as real
  {
    var d := (b.matchScore - a.matchScore) as real;
    if d != 0.0 then d else b.overlapPercentage - a.overlapPercentage
  }

  /** The comparator is negative: `x` must come before `y`. */
  predicate Before(x: MatchResult, y: MatchResult) {
    x.matchScore > y.matchScore
    || (x.matchScore == y.matchScore && x.overlapPercentage > y.overlapPercentage)
  }

  /**
   * `Before` holds exactly when the comparator is negative; the comparator is
   * antisymmetric, and `Before` is a strict order whose complement is `AtLeast`.
   */
  lemma ComparatorStrict(x: MatchResult, y: MatchResult)
    ensures Before(x, y) <==> Comparator(x, y) < 0.0
    ensures Comparator(x, y) == -Comparator(y, x)
    ensures Before(x, y) <==> !AtLeast(y, x)
    ensures Before(x, y) ==> AtLeast(x, y) && x != y
  {
  }

  /** `x` may stand anywhere before `y` in a ranked list. */
  predicate AtLeast(x: MatchResult, y: MatchResult) {
    x.matchScore > y.matchScore
    || (x.matchScore == y.matchScore && x.overlapPercentage >= y.overlapPercentage)
  }

  /** Every earlier result ranks at least as high as every later one. */
  ghost predicate Ranked(s: seq<MatchResult>) {
    forall i, j :: 0 <= i < j < |s| ==> AtLeast(s[i], s[j])
  }

  /**
   * Inserts `x` into `s` from the right end, moving it left only past
   * results it must come before (so never past an equal one).
   */
  function InsertRanked(s: seq<MatchResult>, x: MatchResult): (r: seq<MatchResult>)
    ensures multiset(r) == multiset(s) + multiset{x}
    ensures |r| == |s| + 1
    decreases |s|
  {
    if s == [] || !Before(x, s[|s| - 1]) then s + [x]
    else
      var front := InsertRanked(s[..|s| - 1], x);
      assert s == s[..|s| - 1] + [s[|s| - 1]];
      front + [s[|s| - 1]]
  }

  /** Insertion sort by the comparator, one element at a time from the left. */
  function RankSort(s: seq<MatchResult>): (r: seq<MatchResult>)
    ensures multiset(r) == multiset(s)
    ensures |r| == |s|
    decreases |s|
  {
    if s == [] then []
    else
      assert s == s[..|s| - 1] + [s[|s| - 1]];
      InsertRanked(RankSort(s[..|s| - 1]), s[|s| - 1])
  }

  lemma {:induction false} InsertRankedKeepsRanked(s: seq<MatchResult>, x: MatchResult)
    requires Ranked(s)
    ensures Ranked(InsertRanked(s, x))
    decreases |s|
  {
    if s == [] || !Before(x, s[|s| - 1]) {
      forall i | 0 <= i < |s|
        ensures AtLeast(s[i], x)
      {
        assert AtLeast(s[i], s[|s| - 1]);
      }
      RankedSnoc(s, x);
    } else {
      var last := s[|s| - 1];
      var front := s[..|s| - 1];
      InsertRankedKeepsRanked(front, x);
      var f := InsertRanked(front, x);
      forall i | 0 <= i < |f|
        ensures AtLeast(f[i], last)
      {
        assert f[i] in multiset(f);
        if f[i] != x {
          assert f[i] in multiset(front);
          var k :| 0 <= k < |front| && front[k] == f[i];
          assert AtLeast(s[k], s[|s| - 1]);
        }
      }
      RankedSnoc(f, last);
    }
  }

  /** A ranked list stays ranked when followed by a result it all ranks at least as high as. */
  lemma RankedSnoc(s: seq<MatchResult>, x: MatchResult)
    requires Ranked(s)
    requires forall i :: 0 <= i < |s| ==> AtLeast(s[i], x)
    ensures Ranked(s + [x])
  {
    var r := s + [x];
    forall i, j | 0 <= i < j < |r|
      ensures AtLeast(r[i], r[j])
    {
      if j < |s| {
        assert r[i] == s[i] && r[j] == s[j];
      }
    }
  }

  /** The insertion sort always produces a ranked list. */
  lemma {:induction false} RankSortRanked(s: seq<MatchResult>)
    ensures Ranked(RankSort(s))
    decreases |s|
  {
    if s != [] {
      RankSortRanked(s[..|s| - 1]);
      InsertRankedKeepsRanked(RankSort(s[..|s| - 1]), s[|s| - 1]);
    }
  }

  /** A list that is already ranked is left exactly as it is. */
  lemma {:induction false} RankSortOfRanked(s: seq<MatchResult>)
    requires Ranked(s)
    ensures RankSort(s) == s
    decreases |s|
  {
    if s != [] {
      var front, last := s[..|s| - 1], s[|s| - 1];
      forall i, j | 0 <= i < j < |front|
        ensures AtLeast(front[i], front[j])
      {
        assert front[i] == s[i] && front[j] == s[j];
      }
      RankSortOfRanked(front);
      if front != [] {
        assert AtLeast(s[|s| - 2], s[|s| - 1]);
        assert !Before(last, front[|front| - 1]);
      }
      assert s == front + [last];
    }
  }

  /** Sorting twice is sorting once. */
  lemma RankSortIdempotent(s: seq<MatchResult>)
    ensures RankSort(RankSort(s)) == RankSort(s)
  {
    RankSortRanked(s);
    RankSortOfRanked(RankSort(s));
  }

  /** `x` has match score `score` and overlap percentage `overlap`. */
  predicate HasKey(x: MatchResult, score: int, overlap: real) {
    x.matchScore == score && x.overlapPercentage == overlap
  }

  /** `[x]` when `x` has the key, otherwise nothing. */
  function Keyed(x: MatchResult, score: int, overlap: real): seq<MatchResult> {
    if HasKey(x, score, overlap) then [x] else []
  }

  /**
   * The results of `s` whose sort key is (`score`, `overlap`), in order:
   * stability means sorting leaves this subsequence unchanged for every key.
   */
  function WithKey(s: seq<MatchResult>, score: int, overlap: real): (r: seq<MatchResult>)
    ensures |r| <= |s|
    ensures forall x :: x in r ==> HasKey(x, score, overlap)
    decreases |s|
  {
    if s == [] then []
    else WithKey(s[..|s| - 1], score, overlap) + Keyed(s[|s| - 1], score, overlap)
  }

  lemma WithKeySnoc(s: seq<MatchResult>, x: MatchResult, score: int, overlap: real)
    ensures WithKey(s + [x], score, overlap) == WithKey(s, score, overlap) + Keyed(x, score, overlap)
  {
    assert (s + [x])[..|s|] == s;
  }

  /** Inserting `x` puts it after every earlier result with the same key. */
  lemma {:induction false} InsertRankedStable(s: seq<MatchResult>, x: MatchResult, score: int, overlap: real)
    ensures WithKey(InsertRanked(s, x), score, overlap) == WithKey(s, score, overlap) + Keyed(x, score, overlap)
    decreases |s|
  {
    if s == [] || !Before(x, s[|s| - 1]) {
      assert InsertRanked(s, x) == s + [x];
      WithKeySnoc(s, x, score, overlap);
    } else {
      var front, last := s[..|s| - 1], s[|s| - 1];
      var f := InsertRanked(front, x);
      assert InsertRanked(s, x) == f + [last];
      InsertRankedStable(front, x, score, overlap);
      WithKeySnoc(f, last, score, overlap);
      KeyedPairCommutes(x, last, score, overlap);
      SwapLastTwo(WithKey(front, score, overlap), Keyed(x, score, overlap), Keyed(last, score, overlap));
    }
  }

  lemma SwapLastTwo(e: seq<MatchResult>, p: seq<MatchResult>, q: seq<MatchResult>)
    requires p + q == q + p
    ensures (e + p) + q == (e + q) + p
  {
    assert (e + p) + q == e + (p + q);
    assert (e + q) + p == e + (q + p);
  }

  /** Two results the comparator orders strictly never share a key. */
  lemma KeyedPairCommutes(x: MatchResult, y: MatchResult, score: int, overlap: real)
    requires Before(x, y)
    ensures Keyed(x, score, overlap) + Keyed(y, score, overlap) == Keyed(y, score, overlap) + Keyed(x, score, overlap)
  {
    if HasKey(x, score, overlap) {
      assert !HasKey(y, score, overlap);
      assert Keyed(y, score, overlap) == [];
    }
  }

  /**
   * The sort is stable: for every key, the results with that key keep their
   * input order.
   */
  lemma {:induction false} RankSortStable(s: seq<MatchResult>, score: int, overlap: real)
    ensures WithKey(RankSort(s), score, overlap) == WithKey(s, score, overlap)
    decreases |s|
  {
    if s != [] {
      var front, last := s[..|s| - 1], s[|s| - 1];
      var sorted := RankSort(front);
      assert RankSort(s) == InsertRanked(sorted, last);
      RankSortStable(front, score, overlap);
      InsertRankedStable(sorted, last, score, overlap);
    }
  }

  /**
   * The in-place sort of the results array: each element is swapped leftward
   * while it must come before its left neighbour.
   */
  method SortResults(a: array<MatchResult>)
    modifies a
    ensures a[..] == RankSort(old(a[..]))
  {
    ghost var input := a[..];
    var i := 0;
    while i < a.Length
      invariant 0 <= i <= a.Length
      invariant a[..i] == RankSort(input[..i])
      invariant forall k :: i <= k < a.Length ==> a[k] == input[k]
    {
      assert a[i] == input[i];
      ghost var done := a[..i];
      RankSortSnoc(input, i);
      SinkLeft(a, i);
      assert a[..i + 1] == InsertRanked(done, input[i]) == RankSort(input[..i + 1]);
      i := i + 1;
    }
    assert input[..a.Length] == input;
  }

  lemma RankSortSnoc(s: seq<MatchResult>, i: nat)
    requires i < |s|
    ensures RankSort(s[..i + 1]) == InsertRanked(RankSort(s[..i]), s[i])
  {
    assert s[..i + 1][..i] == s[..i];
  }

  /** One pass of the inner loop: `a[i]` is swapped into place within `a[..i + 1]`. */
  method SinkLeft(a: array<MatchResult>, i: nat)
    requires i < a.Length
    modifies a
    ensures a[..i + 1] == InsertRanked(old(a[..i]), old(a[i]))
    ensures forall k :: i < k < a.Length ==> a[k] == old(a[k])
  {
    ghost var sorted := a[..i];
    var x := a[i];
    var j := i;
    assert sorted[..j] == sorted && sorted[j..] == [];
    while j > 0 && Before(a[j], a[j - 1])
      invariant 0 <= j <= i
      invariant a[j] == x
      invariant forall k :: 0 <= k < j ==> a[k] == sorted[k]
      invariant forall k :: j < k <= i ==> a[k] == sorted[k - 1]
      invariant forall k :: i < k < a.Length ==> a[k] == old(a[k])
      invariant InsertRanked(sorted, x) == InsertRanked(sorted[..j], x) + sorted[j..]
    {
      SinkStep(sorted, x, j);
      a[j - 1], a[j] := a[j], a[j - 1];
      j := j - 1;
    }
    SinkDone(sorted, x, j);
    ghost var placed := a[..i + 1];
    assert forall k :: 0 <= k < j ==> placed[k] == sorted[k];
    assert forall k :: j < k <= i ==> placed[k] == sorted[k - 1];
    SinkAssemble(placed, sorted, x, j);
  }

  /** The array slice the inner loop leaves behind is `x` spliced into `sorted` at `j`. */
  lemma SinkAssemble(placed: seq<MatchResult>, sorted: seq<MatchResult>, x: MatchResult, j: nat)
    requires j <= |sorted| && |placed| == |sorted| + 1
    requires placed[j] == x
    requires forall k :: 0 <= k < j ==> placed[k] == sorted[k]
    requires forall k :: j < k < |placed| ==> placed[k] == sorted[k - 1]
    ensures placed == sorted[..j] + [x] + sorted[j..]
  {
  }

  lemma SinkDone(sorted: seq<MatchResult>, x: MatchResult, j: nat)
    requires j <= |sorted|
    requires j == 0 || !Before(x, sorted[j - 1])
    ensures InsertRanked(sorted[..j], x) == sorted[..j] + [x]
  {
  }

  lemma SinkStep(sorted: seq<MatchResult>, x: MatchResult, j: nat)
    requires 0 < j <= |sorted| && Before(x, sorted[j - 1])
    ensures InsertRanked(sorted[..j], x) + sorted[j..] == InsertRanked(sorted[..j - 1], x) + sorted[j - 1..]
  {
    assert sorted[..j][..j - 1] == sorted[..j - 1];
    assert sorted[j - 1..] == [sorted[j - 1]] + sorted[j..];
  }
}
