/**
 * Greedy pairwise clustering by histogram correlation. Every image but the
 * last is an anchor; it is compared with every later image and the later
 * images scoring strictly above the threshold form a group with it.
 * Histograms and their comparison are native code and appear here as
 * functions supplied by the caller.
 */
module Histograms {
  import opened Common
  import opened Strings
  import opened Paths
  import opened Seqs
  import opened Crc32

  const DefaultThreshold: real := 0.90

  datatype MatcherError = ThresholdOutOfRange | CannotReadImage(path: Path)

  /** How the score of a pair is computed. */
  datatype Indexing =
    | AsWritten   // histograms[idx1] against histograms[idx1 + idx2]
    | Intended    // histograms[idx1] against the follower's own histogram

  /** The score of follower `j` against anchor `i`. */
  function Score<H>(hs: seq<H>, compare: (H, H) -> real, ix: Indexing, i: nat, j: nat): real
    requires i < j < |hs|
  {
    match ix
    case AsWritten => compare(hs[i], hs[i + (j - i - 1)])
    case Intended => compare(hs[i], hs[j])
  }

  type Correlation = (Path, Path, real)

  /** The triples anchor `i` yields for followers `j`, `j+1`, ...: every later image, in order. */
  function RowFrom<H>(images: seq<Path>, hs: seq<H>, compare: (H, H) -> real, ix: Indexing, i: nat, j: nat)
    : (r: seq<Correlation>)
    requires |hs| == |images| && i < j <= |images|
    ensures |r| == |images| - j
    ensures forall t :: t in r ==> t.0 == images[i]
    ensures r != [] ==> r[0] == (images[i], images[j], Score(hs, compare, ix, i, j))
    decreases |images| - j
  {
    if j == |images| then []
    else [(images[i], images[j], Score(hs, compare, ix, i, j))] + RowFrom(images, hs, compare, ix, i, j + 1)
  }

  /** The triples of anchors `i`, `i+1`, ... up to the next-to-last image. */
  function RowsFrom<H>(images: seq<Path>, hs: seq<H>, compare: (H, H) -> real, ix: Indexing, i: nat)
    : seq<Correlation>
    requires |hs| == |images|
    decreases |images| - i
  {
    if i + 1 >= |images| then []
    else RowFrom(images, hs, compare, ix, i, i + 1) + RowsFrom(images, hs, compare, ix, i + 1)
  }

  /** Histograms of every image, or the first image that cannot be read. */
  function Histograms<H>(images: seq<Path>, histogram: Path -> Option<H>): (r: Result<seq<H>, MatcherError>)
    ensures r.Ok? ==> |r.value| == |images| && forall k :: 0 <= k < |images| ==> histogram(images[k]) == Some(r.value[k])
    ensures r.Err? <==> exists k :: 0 <= k < |images| && histogram(images[k]).None?
  {
    if images == [] then Ok([])
    else match histogram(images[0])
      case None => Err(CannotReadImage(images[0]))
      case Some(h) =>
        var rest := Histograms(images[1..], histogram);
        if rest.Err? then
          var k :| 0 <= k < |images[1..]| && histogram(images[1..][k]).None?;
          assert histogram(images[k + 1]).None?;
          rest
        else
          assert forall k :: 1 <= k < |images| ==> images[k] == images[1..][k - 1];
          Ok([h] + rest.value)
  }

  /**
   * `calculate_correlations`: the histograms are read first (one unreadable
   * image aborts everything), then the nested loops yield one triple per
   * pair i < j.
   */
  method CalculateCorrelations<H>(images: seq<Path>, histogram: Path -> Option<H>, compare: (H, H) -> real, ix: Indexing)
    returns (r: Result<seq<Correlation>, MatcherError>)
    ensures Histograms(images, histogram).Err? ==> r.Err?
    ensures Histograms(images, histogram).Ok? ==>
      r == Ok(RowsFrom(images, Histograms(images, histogram).value, compare, ix, 0))
  {
    var hsr := Histograms(images, histogram);
    if hsr.Err? {
      return Err(hsr.error);
    }
    var ret := Correlate(images, hsr.value, compare, ix);
    r := Ok(ret);
  }

  /** The nested loops of `calculate_correlations`, once every histogram is known. */
  method Correlate<H>(images: seq<Path>, hs: seq<H>, compare: (H, H) -> real, ix: Indexing)
    returns (ret: seq<Correlation>)
    requires |hs| == |images|
    ensures ret == RowsFrom(images, hs, compare, ix, 0)
  {
    var n := |images|;
    ret := [];
    var i := 0;
    while i + 1 < n
      invariant 0 <= i <= if n == 0 then 0 else n - 1
      invariant ret + RowsFrom(images, hs, compare, ix, i) == RowsFrom(images, hs, compare, ix, 0)
    {
      RowsFromStep(ret, images, hs, compare, ix, i);
      ret := CorrelateRow(ret, images, hs, compare, ix, i);
      i := i + 1;
    }
    assert RowsFrom(images, hs, compare, ix, i) == [];
    assert ret + [] == ret;
  }

  /** Appending the row of anchor `i` leaves the rows of the later anchors to do. */
  lemma RowsFromStep<H>(done: seq<Correlation>, images: seq<Path>, hs: seq<H>, compare: (H, H) -> real,
                        ix: Indexing, i: nat)
    requires |hs| == |images| && i + 1 < |images|
    ensures (done + RowFrom(images, hs, compare, ix, i, i + 1)) + RowsFrom(images, hs, compare, ix, i + 1)
         == done + RowsFrom(images, hs, compare, ix, i)
  {
  }

  /** Appending the triple of follower `j` leaves the later followers to do. */
  lemma RowFromStep<H>(done: seq<Correlation>, images: seq<Path>, hs: seq<H>, compare: (H, H) -> real,
                       ix: Indexing, i: nat, j: nat)
    requires |hs| == |images| && i < j < |images|
    ensures (done + [(images[i], images[j], Score(hs, compare, ix, i, j))]) + RowFrom(images, hs, compare, ix, i, j + 1)
         == done + RowFrom(images, hs, compare, ix, i, j)
  {
  }

  /** The inner loop: anchor `i` against every later image, appended to `ret`. */
  method CorrelateRow<H>(ret0: seq<Correlation>, images: seq<Path>, hs: seq<H>, compare: (H, H) -> real,
                         ix: Indexing, i: nat)
    returns (ret: seq<Correlation>)
    requires |hs| == |images| && i + 1 < |images|
    ensures ret == ret0 + RowFrom(images, hs, compare, ix, i, i + 1)
  {
    ret := ret0;
    for j := i + 1 to |images|
      invariant ret + RowFrom(images, hs, compare, ix, i, j) == ret0 + RowFrom(images, hs, compare, ix, i, i + 1)
    {
      RowFromStep(ret, images, hs, compare, ix, i, j);
      ret := ret + [(images[i], images[j], Score(hs, compare, ix, i, j))];
    }
    assert RowFrom(images, hs, compare, ix, i, |images|) == [];
    assert ret + [] == ret;
  }

  function Anchor(t: Correlation): Path { t.0 }

  /** `[img2 for _, img2, correl in g if correl > threshold]`. */
  function Matching(g: seq<Correlation>, threshold: real): (r: seq<Path>)
    ensures |r| <= |g|
  {
    if g == [] then []
    else (if g[0].2 > threshold then [g[0].1] else []) + Matching(g[1..], threshold)
  }

  /** The groups of `calculate_groups`, from the runs of equal anchors. */
  function GroupsOfRuns(runs: seq<seq<Correlation>>, threshold: real): seq<seq<Path>>
    requires forall i :: 0 <= i < |runs| ==> runs[i] != []
  {
    if runs == [] then []
    else
      var m := Matching(runs[0], threshold);
      (if m != [] then [[runs[0][0].0] + m] else []) + GroupsOfRuns(runs[1..], threshold)
  }

  /**
   * The loop of `calculate_groups`: group consecutive triples by anchor and
   * emit [anchor] + matching followers for each run that has a match.
   */
  method GroupCorrelations(triples: seq<Correlation>, threshold: real) returns (groups: seq<seq<Path>>)
    ensures groups == GroupsOfRuns(GroupRuns(triples, Anchor), threshold)
  {
    var runs := GroupRuns(triples, Anchor);
    groups := [];
    for i := 0 to |runs|
      invariant groups + GroupsOfRuns(runs[i..], threshold) == GroupsOfRuns(runs, threshold)
    {
      assert runs[i..][1..] == runs[i + 1..];
      var matching := Matching(runs[i], threshold);
      if matching != [] {
        groups := groups + [[runs[i][0].0] + matching];
      }
    }
    assert runs[|runs|..] == [];
  }

  /** The groups `calculate_groups` returns once every histogram could be read. */
  function GroupsOf<H>(images: seq<Path>, hs: seq<H>, compare: (H, H) -> real, ix: Indexing, threshold: real)
    : seq<seq<Path>>
    requires |hs| == |images|
  {
    GroupsOfRuns(GroupRuns(RowsFrom(images, hs, compare, ix, 0), Anchor), threshold)
  }

  /**
   * `calculate_groups`: correlate every pair, then group. An unreadable
   * image aborts the whole computation.
   */
  method CalculateGroups<H>(images: seq<Path>, histogram: Path -> Option<H>, compare: (H, H) -> real,
                            ix: Indexing, threshold: real)
    returns (r: Result<seq<seq<Path>>, MatcherError>)
    ensures Histograms(images, histogram).Err? <==> r.Err?
    ensures Histograms(images, histogram).Ok? ==>
      r == Ok(GroupsOf(images, Histograms(images, histogram).value, compare, ix, threshold))
  {
    var triples := CalculateCorrelations(images, histogram, compare, ix);
    if triples.Err? {
      return Err(triples.error);
    }
    var groups := GroupCorrelations(triples.value, threshold);
    r := Ok(groups);
  }

  /** The matches of anchor `i` among the images after it, in order. */
  function FollowersAbove<H>(images: seq<Path>, hs: seq<H>, compare: (H, H) -> real, ix: Indexing,
                             threshold: real, i: nat, j: nat): (r: seq<Path>)
    requires |hs| == |images| && i < j <= |images|
    decreases |images| - j
  {
    if j == |images| then []
    else (if Score(hs, compare, ix, i, j) > threshold then [images[j]] else [])
         + FollowersAbove(images, hs, compare, ix, threshold, i, j + 1)
  }

  /** The reference result: for every anchor in order, [anchor] + its matches, when it has any. */
  function AnchorGroups<H>(images: seq<Path>, hs: seq<H>, compare: (H, H) -> real, ix: Indexing,
                           threshold: real, i: nat): seq<seq<Path>>
    requires |hs| == |images|
    decreases |images| - i
  {
    if i + 1 >= |images| then []
    else
      var m := FollowersAbove(images, hs, compare, ix, threshold, i, i + 1);
      (if m != [] then [[images[i]] + m] else []) + AnchorGroups(images, hs, compare, ix, threshold, i + 1)
  }

  predicate Distinct(images: seq<Path>)
  {
    forall a, b :: 0 <= a < b < |images| ==> images[a] != images[b]
  }

  lemma {:induction false} MatchingOfRow<H>(images: seq<Path>, hs: seq<H>, compare: (H, H) -> real, ix: Indexing,
                                           threshold: real, i: nat, j: nat)
    requires |hs| == |images| && i < j <= |images|
    ensures Matching(RowFrom(images, hs, compare, ix, i, j), threshold)
         == FollowersAbove(images, hs, compare, ix, threshold, i, j)
    decreases |images| - j
  {
    if j < |images| {
      var row := RowFrom(images, hs, compare, ix, i, j);
      assert row[1..] == RowFrom(images, hs, compare, ix, i, j + 1);
      MatchingOfRow(images, hs, compare, ix, threshold, i, j + 1);
    }
  }

  /** A run-of-anchors boundary: a non-empty block of one key in front of other keys. */
  lemma {:induction false} GroupRunsPrefix<T, K>(a: seq<T>, b: seq<T>, key: T -> K)
    requires a != [] && forall x :: 0 <= x < |a| ==> key(a[x]) == key(a[0])
    requires b != [] ==> key(b[0]) != key(a[0])
    ensures GroupRuns(a + b, key) == [a] + GroupRuns(b, key)
  {
    RunOfBlock(a, b, key, key(a[0]));
    assert (a + b)[..|a|] == a && (a + b)[|a|..] == b;
  }

  lemma {:induction false} RunOfBlock<T, K>(a: seq<T>, b: seq<T>, key: T -> K, k: K)
    requires forall x :: 0 <= x < |a| ==> key(a[x]) == k
    requires b != [] ==> key(b[0]) != k
    ensures Run(a + b, key, k) == |a|
  {
    if a == [] {
      assert a + b == b;
    } else {
      assert (a + b)[1..] == a[1..] + b;
      RunOfBlock(a[1..], b, key, k);
    }
  }

  /** One row per anchor `i`, `i+1`, ..., as separate sequences. */
  function RowList<H>(images: seq<Path>, hs: seq<H>, compare: (H, H) -> real, ix: Indexing, i: nat)
    : (r: seq<seq<Correlation>>)
    requires |hs| == |images|
    ensures forall k :: 0 <= k < |r| ==> r[k] != []
    decreases |images| - i
  {
    if i + 1 >= |images| then []
    else [RowFrom(images, hs, compare, ix, i, i + 1)] + RowList(images, hs, compare, ix, i + 1)
  }

  /** For distinct images, grouping the triples by anchor gives back exactly one run per anchor. */
  lemma {:induction false} RunsAreRows<H>(images: seq<Path>, hs: seq<H>, compare: (H, H) -> real, ix: Indexing, i: nat)
    requires |hs| == |images| && Distinct(images)
    ensures GroupRuns(RowsFrom(images, hs, compare, ix, i), Anchor) == RowList(images, hs, compare, ix, i)
    decreases |images| - i
  {
    if i + 1 < |images| {
      var row := RowFrom(images, hs, compare, ix, i, i + 1);
      var laterRows := RowList(images, hs, compare, ix, i + 1);
      assert RowList(images, hs, compare, ix, i) == [row] + laterRows;
      RunsAreRows(images, hs, compare, ix, i + 1);
      RunsOfRows(images, hs, compare, ix, i);
    }
  }

  /** Grouping the anchor rows is the anchor-by-anchor scan. */
  lemma {:induction false} RowGroupsAreAnchorScan<H>(images: seq<Path>, hs: seq<H>, compare: (H, H) -> real,
                                                   ix: Indexing, threshold: real, i: nat)
    requires |hs| == |images|
    ensures GroupsOfRuns(RowList(images, hs, compare, ix, i), threshold)
         == AnchorGroups(images, hs, compare, ix, threshold, i)
    decreases |images| - i
  {
    if i + 1 < |images| {
      var row := RowFrom(images, hs, compare, ix, i, i + 1);
      var later := RowList(images, hs, compare, ix, i + 1);
      var m := FollowersAbove(images, hs, compare, ix, threshold, i, i + 1);
      assert RowList(images, hs, compare, ix, i) == [row] + later;
      assert AnchorGroups(images, hs, compare, ix, threshold, i)
          == (if m != [] then [[images[i]] + m] else []) + AnchorGroups(images, hs, compare, ix, threshold, i + 1);
      GroupsOfRunsCons(row, later, threshold);
      MatchingOfRow(images, hs, compare, ix, threshold, i, i + 1);
      assert row[0].0 == images[i];
      RowGroupsAreAnchorScan(images, hs, compare, ix, threshold, i + 1);
    }
  }

  /**
   * For distinct images, `calculate_groups` over the correlations is the
   * anchor-by-anchor scan: for every anchor in order, [anchor] + the later
   * images scoring above the threshold, when there are any.
   */
  lemma GroupsAreAnchorScan<H>(images: seq<Path>, hs: seq<H>, compare: (H, H) -> real,
                               ix: Indexing, threshold: real)
    requires |hs| == |images| && Distinct(images)
    ensures GroupsOf(images, hs, compare, ix, threshold) == AnchorGroups(images, hs, compare, ix, threshold, 0)
  {
    RunsAreRows(images, hs, compare, ix, 0);
    RowGroupsAreAnchorScan(images, hs, compare, ix, threshold, 0);
  }

  lemma GroupsOfRunsCons(run: seq<Correlation>, later: seq<seq<Correlation>>, threshold: real)
    requires run != [] && forall i :: 0 <= i < |later| ==> later[i] != []
    ensures GroupsOfRuns([run] + later, threshold)
         == (if Matching(run, threshold) != [] then [[run[0].0] + Matching(run, threshold)] else [])
            + GroupsOfRuns(later, threshold)
  {
    assert ([run] + later)[1..] == later;
  }

  /** Every anchor's row is one run of its own. */
  lemma RunsOfRows<H>(images: seq<Path>, hs: seq<H>, compare: (H, H) -> real, ix: Indexing, i: nat)
    requires |hs| == |images| && Distinct(images) && i + 1 < |images|
    ensures GroupRuns(RowsFrom(images, hs, compare, ix, i), Anchor)
         == [RowFrom(images, hs, compare, ix, i, i + 1)] + GroupRuns(RowsFrom(images, hs, compare, ix, i + 1), Anchor)
  {
    var row := RowFrom(images, hs, compare, ix, i, i + 1);
    var rest := RowsFrom(images, hs, compare, ix, i + 1);
    assert forall x :: 0 <= x < |row| ==> row[x] in row;
    if rest != [] {
      assert rest[0] == RowFrom(images, hs, compare, ix, i + 1, i + 2)[0];
    }
    GroupRunsPrefix(row, rest, Anchor);
  }

  /** `CV2Matcher`: a finder with a correlation threshold in [0, 1]. */
  class CV2Matcher {
    const threshold: real

    constructor(threshold: real)
      requires 0.0 <= threshold <= 1.0
      ensures this.threshold == threshold
    {
      this.threshold := threshold;
    }

    /** `find`: the JPEG files, grouped by `calculate_groups` with the histogram indexing as written. */
    method Find<H>(files: seq<Path>, histogram: Path -> Option<H>, compare: (H, H) -> real)
      returns (r: Result<seq<seq<Path>>, MatcherError>)
      ensures var images := JpegsOf(files);
        Histograms(images, histogram).Ok? ==>
          r == Ok(GroupsOf(images, Histograms(images, histogram).value, compare, AsWritten, threshold))
      ensures Histograms(JpegsOf(files), histogram).Err? <==> r.Err?
    {
      var images := JpegsOf(files);
      r := CalculateGroups(images, histogram, compare, AsWritten, threshold);
    }
  }

  /** The constructor's check: a threshold below 0 or above 1 raises ValueError. */
  method NewCV2Matcher(threshold: real) returns (r: Result<CV2Matcher, MatcherError>)
    ensures r.Err? <==> threshold < 0.0 || threshold > 1.0
    ensures r.Ok? ==> r.value.threshold == threshold
  {
    if threshold < 0.0 || threshold > 1.0 {
      return Err(ThresholdOutOfRange);
    }
    var m := new CV2Matcher(threshold);
    r := Ok(m);
  }

  // ---------------------------------------------------------------------
  // The off-by-one in calculate_correlations

  /** As written, the first follower of every anchor is scored against the anchor itself. */
  lemma AsWrittenComparesAnchorWithItself<H>(hs: seq<H>, compare: (H, H) -> real, i: nat)
    requires i + 1 < |hs|
    ensures Score(hs, compare, AsWritten, i, i + 1) == compare(hs[i], hs[i])
  {
  }

  /** As written, the last histogram never influences any score. */
  lemma AsWrittenIgnoresLastHistogram<H>(hs: seq<H>, compare: (H, H) -> real, h: H, i: nat, j: nat)
    requires i < j < |hs|
    ensures Score(hs, compare, AsWritten, i, j) == Score(hs[|hs| - 1 := h], compare, AsWritten, i, j)
  {
  }

  /** A correlation of 0.95 between any two histograms. */
  function Correlated(x: int, y: int): real
  {
    0.95
  }

  /** A correlation of 1 between equal histograms and 0 otherwise. */
  function SameOrNothing(x: int, y: int): real
  {
    if x == y then 1.0 else 0.0
  }

  /**
   * Two images whose histograms correlate at 0 are grouped as written,
   * because the follower is scored with the anchor's own histogram; the
   * intended indexing keeps them apart.
   */
  lemma OffByOneExample(a: Path, b: Path)
    ensures AnchorGroups([a, b], [1, 2], SameOrNothing, AsWritten, DefaultThreshold, 0) == [[a, b]]
    ensures AnchorGroups([a, b], [1, 2], SameOrNothing, Intended, DefaultThreshold, 0) == []
  {
    assert FollowersAbove([a, b], [1, 2], SameOrNothing, AsWritten, DefaultThreshold, 0, 1) == [b];
    assert FollowersAbove([a, b], [1, 2], SameOrNothing, Intended, DefaultThreshold, 0, 1) == [];
    assert [a] + [b] == [a, b];
  }

  /** Groups are not merged: with three mutually similar images, the second one is in two groups. */
  lemma OverlappingGroupsExample(a: Path, b: Path, c: Path)
    ensures AnchorGroups([a, b, c], [1, 2, 3], Correlated, Intended, DefaultThreshold, 0) == [[a, b, c], [b, c]]
  {
    var images := [a, b, c];
    var hs := [1, 2, 3];
    assert FollowersAbove(images, hs, Correlated, Intended, DefaultThreshold, 1, 3) == [];
    assert FollowersAbove(images, hs, Correlated, Intended, DefaultThreshold, 1, 2) == [c];
    assert FollowersAbove(images, hs, Correlated, Intended, DefaultThreshold, 0, 2) == [c];
    assert FollowersAbove(images, hs, Correlated, Intended, DefaultThreshold, 0, 1) == [b, c];
    assert AnchorGroups(images, hs, Correlated, Intended, DefaultThreshold, 2) == [];
    assert AnchorGroups(images, hs, Correlated, Intended, DefaultThreshold, 1) == [[b, c]];
    assert [a] + [b, c] == [a, b, c];
  }

  /** With the intended indexing, a group member scores above the threshold against its anchor. */
  lemma {:induction false} IntendedMembersScoreAbove<H>(images: seq<Path>, hs: seq<H>, compare: (H, H) -> real,
                                                       threshold: real, i: nat, j: nat, p: Path)
    requires |hs| == |images| && i < j <= |images| && Distinct(images)
    requires p in FollowersAbove(images, hs, compare, Intended, threshold, i, j)
    ensures exists m :: j <= m < |images| && images[m] == p && compare(hs[i], hs[m]) > threshold
    decreases |images| - j
  {
    if !(Score(hs, compare, Intended, i, j) > threshold && p == images[j]) {
      IntendedMembersScoreAbove(images, hs, compare, threshold, i, j + 1, p);
    }
  }

  // ---------------------------------------------------------------------
  // cv2cmp.group

  const CmpDefaultThreshold: real := 90.0

  datatype Cluster = Cluster(fuzzyhash: string, items: seq<Path>)

  /** The reference result of `group`: one cluster per anchor with a match, in anchor order. */
  function ClustersFrom<H>(images: seq<Path>, hs: seq<H>, compare: (H, H) -> real, fuzzy: seq<string>,
                           threshold: real, i: nat): seq<Cluster>
    requires |hs| == |images| == |fuzzy|
    decreases |images| - i
  {
    if i + 1 >= |images| then []
    else
      var m := FollowersAbove(images, hs, compare, Intended, threshold, i, i + 1);
      (if m != [] then [Cluster(fuzzy[i], [images[i]] + m)] else [])
      + ClustersFrom(images, hs, compare, fuzzy, threshold, i + 1)
  }

  /**
   * `group`: for every anchor but the last, score every later image with
   * the two images' own histograms, keep the strictly-above-threshold ones
   * and append a cluster when any remain; the cluster's fuzzy hash is the
   * CRC-32 of the anchor's histogram bytes.
   */
  method Group<H>(collection: seq<Path>, histogram: Path -> Option<H>, compare: (H, H) -> real,
                  toBytes: H -> seq<byte>, threshold: real)
    returns (r: Result<seq<Cluster>, MatcherError>)
    ensures var images := JpegsOf(collection);
      Histograms(images, histogram).Ok? ==>
        r == Ok(ClustersFrom(images, Histograms(images, histogram).value, compare,
                             FuzzyHashes(Histograms(images, histogram).value, toBytes), threshold, 0))
    ensures Histograms(JpegsOf(collection), histogram).Err? ==> r.Err?
  {
    var images := JpegsOf(collection);
    var hsr := Histograms(images, histogram);
    if hsr.Err? {
      return Err(hsr.error);
    }
    var hs := hsr.value;
    ghost var fuzzy := FuzzyHashes(hs, toBytes);
    var groups: seq<Cluster> := [];
    var i := 0;
    while i + 1 < |images|
      invariant 0 <= i <= if |images| == 0 then 0 else |images| - 1
      invariant groups + ClustersFrom(images, hs, compare, fuzzy, threshold, i)
             == ClustersFrom(images, hs, compare, fuzzy, threshold, 0)
    {
      // the comprehension over hists[idx1 + 1:] filtered by `sim > threshold`
      var similar := FollowersAbove(images, hs, compare, Intended, threshold, i, i + 1);
      ClustersStep(images, hs, compare, fuzzy, threshold, i, groups);
      if similar != [] {
        groups := groups + [Cluster(HashFromBytes(toBytes(hs[i])), [images[i]] + similar)];
      }
      i := i + 1;
    }
    assert groups + [] == groups;
    r := Ok(groups);
  }

  /** The fuzzy hash of every histogram: the CRC-32 of its bytes, in hexadecimal. */
  function FuzzyHashes<H>(hs: seq<H>, toBytes: H -> seq<byte>): (r: seq<string>)
    ensures |r| == |hs| && forall k :: 0 <= k < |hs| ==> r[k] == HashFromBytes(toBytes(hs[k]))
  {
    if hs == [] then [] else [HashFromBytes(toBytes(hs[0]))] + FuzzyHashes(hs[1..], toBytes)
  }

  lemma ClustersStep<H>(images: seq<Path>, hs: seq<H>, compare: (H, H) -> real, fuzzy: seq<string>,
                        threshold: real, i: nat, acc: seq<Cluster>)
    requires |hs| == |images| == |fuzzy| && i + 1 < |images|
    ensures var m := FollowersAbove(images, hs, compare, Intended, threshold, i, i + 1);
      (if m != [] then acc + [Cluster(fuzzy[i], [images[i]] + m)] else acc)
      + ClustersFrom(images, hs, compare, fuzzy, threshold, i + 1)
      == acc + ClustersFrom(images, hs, compare, fuzzy, threshold, i)
  {
  }

  /** The `items` of every cluster, in order. */
  function ItemsOf(cs: seq<Cluster>): (r: seq<seq<Path>>)
    ensures |r| == |cs| && forall k :: 0 <= k < |cs| ==> r[k] == cs[k].items
  {
    if cs == [] then [] else [cs[0].items] + ItemsOf(cs[1..])
  }

  /** The items of `group`'s clusters are the anchor-scan groups of the intended indexing. */
  lemma {:induction false} ClusterItemsAreAnchorGroups<H>(images: seq<Path>, hs: seq<H>, compare: (H, H) -> real,
                                                         fuzzy: seq<string>, threshold: real, i: nat)
    requires |hs| == |images| == |fuzzy|
    ensures ItemsOf(ClustersFrom(images, hs, compare, fuzzy, threshold, i))
         == AnchorGroups(images, hs, compare, Intended, threshold, i)
    decreases |images| - i
  {
    if i + 1 < |images| {
      var m := FollowersAbove(images, hs, compare, Intended, threshold, i, i + 1);
      var head := if m != [] then [Cluster(fuzzy[i], [images[i]] + m)] else [];
      var later := ClustersFrom(images, hs, compare, fuzzy, threshold, i + 1);
      assert ClustersFrom(images, hs, compare, fuzzy, threshold, i) == head + later;
      assert AnchorGroups(images, hs, compare, Intended, threshold, i)
          == (if m != [] then [[images[i]] + m] else []) + AnchorGroups(images, hs, compare, Intended, threshold, i + 1);
      ItemsOfAppend(head, later);
      assert ItemsOf(head) == if m != [] then [[images[i]] + m] else [];
      ClusterItemsAreAnchorGroups(images, hs, compare, fuzzy, threshold, i + 1);
    }
  }

  lemma ItemsOfAppend(a: seq<Cluster>, b: seq<Cluster>)
    ensures ItemsOf(a + b) == ItemsOf(a) + ItemsOf(b)
  {
    var l := ItemsOf(a + b);
    var r := ItemsOf(a) + ItemsOf(b);
    assert |l| == |r|;
    forall k | 0 <= k < |l| ensures l[k] == r[k] {
      if k < |a| {
        assert (a + b)[k] == a[k];
      } else {
        assert (a + b)[k] == b[k - |a|];
      }
    }
  }

  /**
   * Once the indexing is corrected, the two engines agree: for distinct
   * images, the groups of `CV2Matcher` are the items of `group`'s clusters.
   */
  lemma EnginesAgree<H>(images: seq<Path>, hs: seq<H>, compare: (H, H) -> real,
                        fuzzy: seq<string>, threshold: real)
    requires |hs| == |images| == |fuzzy| && Distinct(images)
    ensures GroupsOf(images, hs, compare, Intended, threshold) == ItemsOf(ClustersFrom(images, hs, compare, fuzzy, threshold, 0))
  {
    GroupsAreAnchorScan(images, hs, compare, Intended, threshold);
    ClusterItemsAreAnchorGroups(images, hs, compare, fuzzy, threshold, 0);
  }

  /**
   * With correlations bounded by 1, the default threshold of 90 admits no
   * pair, so `group` with its default never forms a cluster.
   */
  lemma DefaultThresholdNeverClusters<H>(images: seq<Path>, hs: seq<H>, compare: (H, H) -> real,
                                        fuzzy: seq<string>, i: nat)
    requires |hs| == |images| == |fuzzy|
    requires forall x, y :: compare(x, y) <= 1.0
    ensures ClustersFrom(images, hs, compare, fuzzy, CmpDefaultThreshold, i) == []
    decreases |images| - i
  {
    if i + 1 < |images| {
      NoFollowersAbove(images, hs, compare, i, i + 1);
      DefaultThresholdNeverClusters(images, hs, compare, fuzzy, i + 1);
    }
  }

  lemma {:induction false} NoFollowersAbove<H>(images: seq<Path>, hs: seq<H>, compare: (H, H) -> real, i: nat, j: nat)
    requires |hs| == |images| && i < j <= |images|
    requires forall x, y :: compare(x, y) <= 1.0
    ensures FollowersAbove(images, hs, compare, Intended, CmpDefaultThreshold, i, j) == []
    decreases |images| - j
  {
    if j < |images| {
      NoFollowersAbove(images, hs, compare, i, j + 1);
    }
  }

  /** With the threshold written as the fraction 0.90, a pair correlating at 0.95 clusters. */
  lemma FractionThresholdClusters(a: Path, b: Path, fuzzy: seq<string>)
    requires |fuzzy| == 2
    ensures ClustersFrom([a, b], [1, 2], Correlated, fuzzy, DefaultThreshold, 0) == [Cluster(fuzzy[0], [a, b])]
    ensures ClustersFrom([a, b], [1, 2], Correlated, fuzzy, CmpDefaultThreshold, 0) == []
  {
    assert FollowersAbove([a, b], [1, 2], Correlated, Intended, DefaultThreshold, 0, 1) == [b];
    assert FollowersAbove([a, b], [1, 2], Correlated, Intended, CmpDefaultThreshold, 0, 1) == [];
    assert [a] + [b] == [a, b];
  }

  // ---------------------------------------------------------------------
  // similarity_cmd

  /**
   * The exit status of `similarity_cmd`: None when the command returns
   * normally (status 0).
   */
  function SimilarityExit(val: real, threshold: real): (r: Option<int>)
  {
    if threshold <= val then Some(if val >= threshold then 0 else 1) else None
  }

  /** Whenever the command exits explicitly, it exits 0: the 1 branch is dead. */
  lemma SimilarityExitNeverOne(val: real, threshold: real)
    ensures SimilarityExit(val, threshold) != Some(1)
    ensures threshold <= val ==> SimilarityExit(val, threshold) == Some(0)
  {
  }

  /** The status the command evidently means: 0 at or above the threshold, 1 below it. */
  function SimilarityStatus(val: real, threshold: real): (code: int)
    ensures code == 0 <==> val >= threshold
    ensures code == 1 <==> val < threshold
  {
    if val >= threshold then 0 else 1
  }
}
