/**
 * Pairwise comparison matrices: every pair (i, j) with i < j of a
 * collection, in lexicographic order of indices, scored by a comparison
 * function; and the order-preserving map with a progress callback.
 */
module Matrix {
  import opened Common
  import opened Paths

  type Triple<T, S> = (T, T, S)

  /** The triples of anchor `i`: every later element, in order. */
  function Row<T, S>(c: seq<T>, cmp: (T, T) -> S, i: nat): (r: seq<Triple<T, S>>)
    requires i < |c|
    ensures |r| == |c| - 1 - i
    ensures forall k :: 0 <= k < |r| ==> r[k] == (c[i], c[i + 1 + k], cmp(c[i], c[i + 1 + k]))
  {
    seq(|c| - 1 - i, k requires 0 <= k < |c| - 1 - i => (c[i], c[i + 1 + k], cmp(c[i], c[i + 1 + k])))
  }

  /** The rows of anchors 0 .. m-1, concatenated. */
  function Rows<T, S>(c: seq<T>, cmp: (T, T) -> S, m: nat): seq<Triple<T, S>>
    requires m <= |c|
  {
    if m == 0 then [] else Rows(c, cmp, m - 1) + Row(c, cmp, m - 1)
  }

  /** Number of anchors: every element but the last. */
  function Anchors(n: nat): nat
  {
    if n == 0 then 0 else n - 1
  }

  /** The forward half of `build_matrix`: all pairs i < j in lexicographic order. */
  function Forward<T, S>(c: seq<T>, cmp: (T, T) -> S): seq<Triple<T, S>>
  {
    Rows(c, cmp, Anchors(|c|))
  }

  /** Where the row of anchor `i` starts in `Rows`: the lengths of the rows before it. */
  function Offset(n: nat, i: nat): (r: int)
    ensures i <= n ==> r >= 0
  {
    if i == 0 then 0 else Offset(n, i - 1) + (n - i)
  }

  /** Index of pair (i, j), i < j, in the forward matrix of n elements. */
  function Position(n: nat, i: nat, j: nat): int
  {
    Offset(n, i) + (j - i - 1)
  }

  lemma {:induction false} RowsLength<T, S>(c: seq<T>, cmp: (T, T) -> S, m: nat)
    requires m <= |c|
    ensures |Rows(c, cmp, m)| == Offset(|c|, m)
  {
    if m > 0 {
      RowsLength(c, cmp, m - 1);
    }
  }

  lemma {:induction false} OffsetClosedForm(n: nat, m: nat)
    ensures 2 * Offset(n, m) == m * (2 * n - 1 - m)
  {
    if m > 0 {
      OffsetClosedForm(n, m - 1);
      assert m * (2 * n - 1 - m) == (m - 1) * (2 * n - 1 - (m - 1)) + 2 * (n - m);
    }
  }

  /** The forward matrix has n(n-1)/2 triples: none for zero or one element. */
  lemma ForwardLength<T, S>(c: seq<T>, cmp: (T, T) -> S)
    ensures |Forward(c, cmp)| == |c| * (|c| - 1) / 2
  {
    var n := |c|;
    RowsLength(c, cmp, Anchors(n));
    if n > 0 {
      OffsetClosedForm(n, n - 1);
      assert (n - 1) * (2 * n - 1 - (n - 1)) == n * (n - 1);
    }
  }

  lemma {:induction false} OffsetMonotone(n: nat, a: nat, b: nat)
    requires a <= b <= n
    ensures Offset(n, a) <= Offset(n, b)
    decreases b - a
  {
    if a < b {
      OffsetMonotone(n, a, b - 1);
    }
  }

  /** Pair (i, j), i < j, sits at position Offset(n, i) + (j - i - 1). */
  lemma {:induction false} RowsAt<T, S>(c: seq<T>, cmp: (T, T) -> S, m: nat, i: nat, j: nat)
    requires m <= |c| && i < m && i < j < |c|
    ensures 0 <= Offset(|c|, i) + (j - i - 1) < |Rows(c, cmp, m)| &&
            Rows(c, cmp, m)[Offset(|c|, i) + (j - i - 1)] == (c[i], c[j], cmp(c[i], c[j]))
  {
    var n := |c|;
    RowsLength(c, cmp, m);
    RowsLength(c, cmp, m - 1);
    var front := Rows(c, cmp, m - 1);
    assert Rows(c, cmp, m) == front + Row(c, cmp, m - 1);
    if i < m - 1 {
      RowsAt(c, cmp, m - 1, i, j);
    } else {
      var k := j - i - 1;
      assert Offset(n, i) == |front|;
      assert Row(c, cmp, i)[k] == (c[i], c[j], cmp(c[i], c[j]));
    }
  }

  /** Each pair i < j appears in the forward matrix, with its score. */
  lemma ForwardHasEveryPair<T, S>(c: seq<T>, cmp: (T, T) -> S, i: nat, j: nat)
    requires i < j < |c|
    ensures 0 <= Position(|c|, i, j) < |Forward(c, cmp)| &&
            Forward(c, cmp)[Position(|c|, i, j)] == (c[i], c[j], cmp(c[i], c[j]))
  {
    RowsAt(c, cmp, Anchors(|c|), i, j);
  }

  /** And nothing else: every triple is some pair i < j with its score. */
  lemma {:induction false} RowsOnlyPairs<T, S>(c: seq<T>, cmp: (T, T) -> S, m: nat, p: nat)
    requires m <= |c| && p < |Rows(c, cmp, m)|
    ensures exists i, j :: 0 <= i < j < |c| && Rows(c, cmp, m)[p] == (c[i], c[j], cmp(c[i], c[j]))
  {
    var front := Rows(c, cmp, m - 1);
    if p < |front| {
      RowsOnlyPairs(c, cmp, m - 1, p);
    } else {
      var k := p - |front|;
      assert Rows(c, cmp, m)[p] == Row(c, cmp, m - 1)[k];
      assert Row(c, cmp, m - 1)[k] == (c[m - 1], c[m + k], cmp(c[m - 1], c[m + k]));
    }
  }

  /** The triples with the first two elements swapped, scores unchanged. */
  function Swapped<T, S>(s: seq<Triple<T, S>>): (r: seq<Triple<T, S>>)
    ensures |r| == |s|
    ensures forall k :: 0 <= k < |s| ==> r[k] == (s[k].1, s[k].0, s[k].2)
  {
    seq(|s|, k requires 0 <= k < |s| => (s[k].1, s[k].0, s[k].2))
  }

  /**
   * `build_matrix`: nested index loops collect the forward triples; with
   * `unfold` the swapped copies are appended in the same order.
   */
  method BuildMatrix<T, S>(c: seq<T>, cmp: (T, T) -> S, unfold: bool) returns (ret: seq<Triple<T, S>>)
    ensures ret == Forward(c, cmp) + (if unfold then Swapped(Forward(c, cmp)) else [])
  {
    ret := [];
    var n := |c|;
    for i := 0 to Anchors(n)
      invariant ret == Rows(c, cmp, i)
    {
      ghost var before := ret;
      for j := i + 1 to n
        invariant ret == before + Row(c, cmp, i)[..j - i - 1]
      {
        assert Row(c, cmp, i)[..j - i] == Row(c, cmp, i)[..j - i - 1] + [Row(c, cmp, i)[j - i - 1]];
        ret := ret + [(c[i], c[j], cmp(c[i], c[j]))];
      }
      assert Row(c, cmp, i)[..n - i - 1] == Row(c, cmp, i);
    }
    if unfold {
      var forward := ret;
      ret := ret + Swapped(forward);
    }
  }

  // ---------------------------------------------------------------------
  // map_with_progress

  datatype Event<T> = Mapped(item: T) | Updated(item: T)

  /**
   * `map_with_progress`: one result per item in collection order; when a
   * callback is given it is called with the item right after `map_fn`
   * returned for it.
   */
  method MapWithProgress<T, U>(c: seq<T>, mapFn: T -> U, withUpdate: bool)
    returns (results: seq<U>, trace: seq<Event<T>>)
    ensures |results| == |c| && forall i :: 0 <= i < |c| ==> results[i] == mapFn(c[i])
    ensures withUpdate ==> (|trace| == 2 * |c| &&
      forall i :: 0 <= i < |c| ==> trace[2 * i] == Mapped(c[i]) && trace[2 * i + 1] == Updated(c[i]))
    ensures !withUpdate ==> |trace| == |c| && forall i :: 0 <= i < |c| ==> trace[i] == Mapped(c[i])
  {
    results := [];
    trace := [];
    for i := 0 to |c|
      invariant |results| == i && forall k :: 0 <= k < i ==> results[k] == mapFn(c[k])
      invariant withUpdate ==> (|trace| == 2 * i &&
        forall k :: 0 <= k < i ==> trace[2 * k] == Mapped(c[k]) && trace[2 * k + 1] == Updated(c[k]))
      invariant !withUpdate ==> |trace| == i && forall k :: 0 <= k < i ==> trace[k] == Mapped(c[k])
    {
      var r := mapFn(c[i]);
      trace := trace + [Mapped(c[i])];
      if withUpdate {
        trace := trace + [Updated(c[i])];
      }
      results := results + [r];
    }
  }

  // ---------------------------------------------------------------------
  // mdupes.similarity_matrix

  datatype Unreadable = Unreadable(path: Path)

  /**
   * `similarity_matrix`: histograms for every file first (an unreadable
   * file aborts the whole call), then every pair i < j scored by comparing
   * their histograms.
   */
  method SimilarityMatrix<H>(medias: seq<Path>, histogram: Path -> Option<H>, compare: (H, H) -> real)
    returns (r: Result<seq<Triple<Path, real>>, Unreadable>)
    ensures (exists k :: 0 <= k < |medias| && histogram(medias[k]).None?) <==> r.Err?
    ensures r.Ok? ==> |r.value| == |medias| * (|medias| - 1) / 2
    ensures r.Ok? ==> forall i, j :: 0 <= i < j < |medias| ==>
      0 <= Position(|medias|, i, j) < |r.value| &&
      r.value[Position(|medias|, i, j)]
        == (medias[i], medias[j], compare(histogram(medias[i]).value, histogram(medias[j]).value))
  {
    for k := 0 to |medias|
      invariant forall m :: 0 <= m < k ==> histogram(medias[m]).Some?
    {
      if histogram(medias[k]).None? {
        assert 0 <= k < |medias| && histogram(medias[k]).None?;
        return Err(Unreadable(medias[k]));
      }
    }
    var triples := BuildMatrix(medias, HistogramScore(histogram, compare), false);
    assert triples == Forward(medias, HistogramScore(histogram, compare));
    ScoredMatrix(medias, histogram, compare);
    r := Ok(triples);
  }

  /** The score `similarity_matrix` gives a pair of files, both readable. */
  function HistogramScore<H>(histogram: Path -> Option<H>, compare: (H, H) -> real): (Path, Path) -> real
  {
    (a: Path, b: Path) => if histogram(a).Some? && histogram(b).Some?
                          then compare(histogram(a).value, histogram(b).value) else 0.0
  }

  /** With every file readable, the forward matrix scores each pair by its histograms. */
  lemma ScoredMatrix<H>(medias: seq<Path>, histogram: Path -> Option<H>, compare: (H, H) -> real)
    requires forall m :: 0 <= m < |medias| ==> histogram(medias[m]).Some?
    ensures |Forward(medias, HistogramScore(histogram, compare))| == |medias| * (|medias| - 1) / 2
    ensures forall i, j :: 0 <= i < j < |medias| ==>
      0 <= Position(|medias|, i, j) < |Forward(medias, HistogramScore(histogram, compare))| &&
      Forward(medias, HistogramScore(histogram, compare))[Position(|medias|, i, j)]
        == (medias[i], medias[j], compare(histogram(medias[i]).value, histogram(medias[j]).value))
  {
    ForwardLength(medias, HistogramScore(histogram, compare));
    forall i, j | 0 <= i < j < |medias|
      ensures 0 <= Position(|medias|, i, j) < |Forward(medias, HistogramScore(histogram, compare))| &&
        Forward(medias, HistogramScore(histogram, compare))[Position(|medias|, i, j)]
        == (medias[i], medias[j], compare(histogram(medias[i]).value, histogram(medias[j]).value))
    {
      ForwardHasEveryPair(medias, HistogramScore(histogram, compare), i, j);
    }
  }
}
