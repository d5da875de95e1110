/**
 * Exact-bucket duplicate finding: fingerprint every image, drop the ones
 * that could not be fingerprinted, sort by fingerprint, group equal
 * fingerprints and keep the groups with more than one image. Two copies
 * exist: `ImageDuplicateFinder.find` (bare image lists) and
 * `find_duplicates` (fingerprint and image list pairs); they differ in which
 * hashing errors they absorb.
 */
module HashClusters {
  import opened Common
  import opened Strings
  import opened Paths
  import opened Seqs

  const DefaultHashSize: int := 8

  /** `hash_size or 8`: None and 0 fall back to the default. */
  function HashSizeOrDefault(hashSize: Option<int>): (r: int)
    ensures hashSize.None? || hashSize == Some(0) ==> r == DefaultHashSize
    ensures hashSize.Some? && hashSize.value != 0 ==> r == hashSize.value
  {
    match hashSize
    case None => DefaultHashSize
    case Some(n) => if n == 0 then DefaultHashSize else n
  }

  /** What fingerprinting one image does: a hash string or one of the errors. */
  datatype HashOutcome = Hashed(hash: string) | Unidentified | OsError | OtherError

  /** The two error policies: `find` absorbs `OSError` too, `find_duplicates` does not. */
  datatype Policy = AverageHashPolicy | ImageHashCmpPolicy

  /** Whether the outcome escapes `map_and_update` as an exception. */
  predicate Raises(policy: Policy, o: HashOutcome)
  {
    o == OtherError || (o == OsError && policy == ImageHashCmpPolicy)
  }

  /** The value `map_and_update` returns for an outcome it does not re-raise. */
  function Absorbed(o: HashOutcome): (r: Option<string>)
    ensures r.Some? <==> o.Hashed?
    ensures o.Hashed? ==> r.value == o.hash
  {
    if o.Hashed? then Some(o.hash) else None
  }

  /** One `update_fn(item, ret)` call. */
  datatype Update = Update(image: Path, hash: Option<string>)

  /** The update calls of a batch: one per image whose hashing did not raise, in input order. */
  function UpdateCalls(images: seq<Path>, outcomes: seq<HashOutcome>, policy: Policy): seq<Update>
    requires |images| == |outcomes|
  {
    if images == [] then []
    else
      var n := |images| - 1;
      UpdateCalls(images[..n], outcomes[..n], policy)
      + (if Raises(policy, outcomes[n]) then [] else [Update(images[n], Absorbed(outcomes[n]))])
  }

  function OutcomesOf(images: seq<Path>, size: int, fingerprint: (Path, int) -> HashOutcome): (r: seq<HashOutcome>)
    ensures |r| == |images|
  {
    seq(|images|, i requires 0 <= i < |images| => fingerprint(images[i], size))
  }

  /** What `map_and_update` returns per image, in input order. */
  function HashesOf(images: seq<Path>, size: int, fingerprint: (Path, int) -> HashOutcome): (r: seq<Option<string>>)
    ensures |r| == |images|
  {
    seq(|images|, i requires 0 <= i < |images| => Absorbed(fingerprint(images[i], size)))
  }

  predicate AnyRaises(images: seq<Path>, size: int, fingerprint: (Path, int) -> HashOutcome, policy: Policy)
  {
    exists i :: 0 <= i < |images| && Raises(policy, fingerprint(images[i], size))
  }

  /**
   * The executor map: every image is fingerprinted in input order, each
   * non-raising result is reported to `update_fn`, and the batch fails
   * when any image raised.
   */
  method MapAndUpdate(images: seq<Path>, hashSize: int, fingerprint: (Path, int) -> HashOutcome, policy: Policy)
    returns (hashes: seq<Option<string>>, updates: seq<Update>, raised: bool)
    ensures hashes == HashesOf(images, hashSize, fingerprint)
    ensures raised == AnyRaises(images, hashSize, fingerprint, policy)
    ensures updates == UpdateCalls(images, OutcomesOf(images, hashSize, fingerprint), policy)
  {
    hashes := [];
    updates := [];
    raised := false;
    ghost var outcomes := OutcomesOf(images, hashSize, fingerprint);
    for i := 0 to |images|
      invariant |hashes| == i
      invariant forall k :: 0 <= k < i ==> hashes[k] == Absorbed(fingerprint(images[k], hashSize))
      invariant raised <==> exists k :: 0 <= k < i && Raises(policy, fingerprint(images[k], hashSize))
      invariant updates == UpdateCalls(images[..i], outcomes[..i], policy)
    {
      var o := fingerprint(images[i], hashSize);
      assert images[..i + 1][..i] == images[..i];
      assert outcomes[..i + 1][..i] == outcomes[..i];
      if Raises(policy, o) {
        raised := true;
      } else {
        updates := updates + [Update(images[i], Absorbed(o))];
      }
      hashes := hashes + [Absorbed(o)];
    }
    assert images[..|images|] == images;
    assert outcomes[..|images|] == outcomes;
    assert hashes == HashesOf(images, hashSize, fingerprint);
  }

  /**
   * When nothing raises, `update_fn` is called exactly once per image, in
   * input order, with that image and its hash or None.
   */
  lemma {:induction false} UpdateCallsOncePerImage(images: seq<Path>, outcomes: seq<HashOutcome>, policy: Policy)
    requires |images| == |outcomes|
    requires forall i :: 0 <= i < |outcomes| ==> !Raises(policy, outcomes[i])
    ensures |UpdateCalls(images, outcomes, policy)| == |images|
    ensures forall i :: 0 <= i < |images| ==>
      UpdateCalls(images, outcomes, policy)[i] == Update(images[i], Absorbed(outcomes[i]))
  {
    if images != [] {
      var n := |images| - 1;
      UpdateCallsOncePerImage(images[..n], outcomes[..n], policy);
    }
  }

  // ---------------------------------------------------------------------
  // The clustering pipeline

  type Pair = (string, Path)

  function HashOf(p: Pair): string { p.0 }

  /** `(imghash, image) for ... in zip(hashes, images) if imghash is not None`. */
  function Pairs(images: seq<Path>, hashes: seq<Option<string>>): (r: seq<Pair>)
    requires |images| == |hashes|
    ensures |r| <= |images|
  {
    if images == [] then []
    else
      var n := |images| - 1;
      Pairs(images[..n], hashes[..n]) + (if hashes[n].Some? then [(hashes[n].value, images[n])] else [])
  }

  /** The images that hashed to `h`, in input order: the reference for every group. */
  function ImagesWithHash(images: seq<Path>, hashes: seq<Option<string>>, h: string): (r: seq<Path>)
    requires |images| == |hashes|
  {
    if images == [] then []
    else
      var n := |images| - 1;
      ImagesWithHash(images[..n], hashes[..n], h) + (if hashes[n] == Some(h) then [images[n]] else [])
  }

  function Images(s: seq<Pair>): (r: seq<Path>)
    ensures |r| == |s|
    ensures forall i :: 0 <= i < |s| ==> r[i] == s[i].1
  {
    seq(|s|, i requires 0 <= i < |s| => s[i].1)
  }

  /** `(imghash, [img for _, img in gr]) for imghash, gr in groupby(sorted(...))`. */
  function Grouped(images: seq<Path>, hashes: seq<Option<string>>): seq<(string, seq<Path>)>
    requires |images| == |hashes|
  {
    var runs := GroupRuns(SortBy(Pairs(images, hashes), HashOf), HashOf);
    seq(|runs|, i requires 0 <= i < |runs| => (runs[i][0].0, Images(runs[i])))
  }

  /** `if len(gr) > 1`. */
  function KeepShared(gs: seq<(string, seq<Path>)>): (r: seq<(string, seq<Path>)>)
    ensures forall x :: x in r ==> x in gs && |x.1| > 1
    ensures forall x :: x in gs && |x.1| > 1 ==> x in r
  {
    if gs == [] then []
    else (if |gs[0].1| > 1 then [gs[0]] else []) + KeepShared(gs[1..])
  }

  /** `find_duplicates`: (hash, images) for every hash shared by two or more images. */
  function FindDuplicates(images: seq<Path>, hashes: seq<Option<string>>): seq<(string, seq<Path>)>
    requires |images| == |hashes|
  {
    KeepShared(Grouped(images, hashes))
  }

  /** `ImageDuplicateFinder.find`: the same groups with the hash stripped. */
  function FindGroups(images: seq<Path>, hashes: seq<Option<string>>): (r: seq<seq<Path>>)
    requires |images| == |hashes|
    ensures |r| == |FindDuplicates(images, hashes)|
    ensures forall i :: 0 <= i < |r| ==> r[i] == FindDuplicates(images, hashes)[i].1
  {
    var d := FindDuplicates(images, hashes);
    seq(|d|, i requires 0 <= i < |d| => d[i].1)
  }

  // ---------------------------------------------------------------------
  // What the pipeline promises

  lemma {:induction false} PairsSelect(images: seq<Path>, hashes: seq<Option<string>>, h: string)
    requires |images| == |hashes|
    ensures Images(Select(Pairs(images, hashes), HashOf, h)) == ImagesWithHash(images, hashes, h)
  {
    if images != [] {
      var n := |images| - 1;
      var front := Pairs(images[..n], hashes[..n]);
      var last: seq<Pair> := if hashes[n].Some? then [(hashes[n].value, images[n])] else [];
      assert Pairs(images, hashes) == front + last;
      SelectAppend(front, last, HashOf, h);
      ImagesAppend(Select(front, HashOf, h), Select(last, HashOf, h));
      PairsSelect(images[..n], hashes[..n], h);
      LastPairSelect(images[n], hashes[n], h);
    }
  }

  lemma ImagesAppend(a: seq<Pair>, b: seq<Pair>)
    ensures Images(a + b) == Images(a) + Images(b)
  {
  }

  /** The pair one image contributes, selected by `h`, is the image exactly when it hashed to `h`. */
  lemma LastPairSelect(image: Path, hash: Option<string>, h: string)
    ensures var last: seq<Pair> := if hash.Some? then [(hash.value, image)] else [];
      Images(Select(last, HashOf, h)) == if hash == Some(h) then [image] else []
  {
    var last: seq<Pair> := if hash.Some? then [(hash.value, image)] else [];
    if hash.Some? {
      assert last[1..] == [];
    }
  }

  /** Each group of `Grouped` is exactly the images with its hash. */
  lemma GroupedExact(images: seq<Path>, hashes: seq<Option<string>>)
    requires |images| == |hashes|
    ensures forall i :: 0 <= i < |Grouped(images, hashes)| ==>
      Grouped(images, hashes)[i].1 == ImagesWithHash(images, hashes, Grouped(images, hashes)[i].0)
  {
    var pairs := Pairs(images, hashes);
    var sorted := SortBy(pairs, HashOf);
    var runs: seq<seq<Pair>> := GroupRuns(sorted, HashOf);
    var g := Grouped(images, hashes);
    SortBySorted(pairs, HashOf);
    GroupRunsOfSorted(sorted, HashOf);
    forall i | 0 <= i < |g| ensures g[i].1 == ImagesWithHash(images, hashes, g[i].0) {
      var h := g[i].0;
      assert runs[i] == Select(sorted, HashOf, h);
      SelectSortBy(pairs, HashOf, h);
      PairsSelect(images, hashes, h);
    }
  }

  /** The hashes of `Grouped` strictly ascend. */
  lemma GroupedAscending(images: seq<Path>, hashes: seq<Option<string>>)
    requires |images| == |hashes|
    ensures forall i, j :: 0 <= i < j < |Grouped(images, hashes)| ==>
      Less(Grouped(images, hashes)[i].0, Grouped(images, hashes)[j].0)
  {
    var sorted := SortBy(Pairs(images, hashes), HashOf);
    SortBySorted(Pairs(images, hashes), HashOf);
    GroupRunsOfSorted(sorted, HashOf);
  }

  /** Every hash some image has is the hash of a group. */
  lemma GroupedComplete(images: seq<Path>, hashes: seq<Option<string>>, h: string)
    requires |images| == |hashes|
    requires ImagesWithHash(images, hashes, h) != []
    ensures exists i :: 0 <= i < |Grouped(images, hashes)| && Grouped(images, hashes)[i].0 == h
  {
    var pairs := Pairs(images, hashes);
    var sorted := SortBy(pairs, HashOf);
    var runs: seq<seq<Pair>> := GroupRuns(sorted, HashOf);
    var g := Grouped(images, hashes);
    PairsSelect(images, hashes, h);
    SelectSortBy(pairs, HashOf, h);
    assert Select(sorted, HashOf, h) != [];
    var p := SelectWitness(sorted, HashOf, h);
    InFlatten(runs, p);
    var i, j :| 0 <= i < |runs| && 0 <= j < |runs[i]| && runs[i][j] == Flatten(runs)[p];
    assert g[i].0 == h;
  }

  /** A non-empty selection has a witness position. */
  lemma {:induction false} SelectWitness<T>(s: seq<T>, key: T -> string, k: string) returns (p: nat)
    requires Select(s, key, k) != []
    ensures p < |s| && key(s[p]) == k
  {
    if key(s[0]) == k {
      p := 0;
    } else {
      p := SelectWitness(s[1..], key, k);
      p := p + 1;
    }
  }

  /**
   * `find_duplicates`: every pair's image list has at least two images, is
   * exactly the images that hashed to that pair's hash in input order, the
   * hashes strictly ascend, and every hash shared by two images is present.
   */
  lemma FindDuplicatesSpec(images: seq<Path>, hashes: seq<Option<string>>)
    requires |images| == |hashes|
    ensures forall i :: 0 <= i < |FindDuplicates(images, hashes)| ==>
      |FindDuplicates(images, hashes)[i].1| >= 2 &&
      FindDuplicates(images, hashes)[i].1 == ImagesWithHash(images, hashes, FindDuplicates(images, hashes)[i].0)
    ensures forall i, j :: 0 <= i < j < |FindDuplicates(images, hashes)| ==>
      Less(FindDuplicates(images, hashes)[i].0, FindDuplicates(images, hashes)[j].0)
    ensures forall h :: |ImagesWithHash(images, hashes, h)| >= 2 ==>
      exists i :: 0 <= i < |FindDuplicates(images, hashes)| && FindDuplicates(images, hashes)[i].0 == h
  {
    var g := Grouped(images, hashes);
    var r := FindDuplicates(images, hashes);
    GroupedExact(images, hashes);
    GroupedAscending(images, hashes);
    forall i | 0 <= i < |r|
      ensures |r[i].1| >= 2 && r[i].1 == ImagesWithHash(images, hashes, r[i].0)
    {
      assert r[i] in r;
    }
    KeepSharedAscending(g);
    forall h | |ImagesWithHash(images, hashes, h)| >= 2
      ensures exists i :: 0 <= i < |r| && r[i].0 == h
    {
      GroupedComplete(images, hashes, h);
      var i :| 0 <= i < |g| && g[i].0 == h;
      assert g[i] in g;
      assert g[i] in r;
    }
  }

  lemma {:induction false} KeepSharedAscending(gs: seq<(string, seq<Path>)>)
    requires forall i, j :: 0 <= i < j < |gs| ==> Less(gs[i].0, gs[j].0)
    ensures forall i, j :: 0 <= i < j < |KeepShared(gs)| ==> Less(KeepShared(gs)[i].0, KeepShared(gs)[j].0)
  {
    if gs != [] {
      KeepSharedAscending(gs[1..]);
      var rest := KeepShared(gs[1..]);
      forall x | x in rest ensures Less(gs[0].0, x.0) {
        var j :| 0 <= j < |gs[1..]| && gs[1..][j] == x;
        assert gs[j + 1] == x;
      }
    }
  }

  /** An image whose fingerprint failed is in no group. */
  lemma UnhashedInNoGroup(images: seq<Path>, hashes: seq<Option<string>>, k: nat)
    requires |images| == |hashes| && k < |images| && hashes[k].None?
    requires forall m :: 0 <= m < |images| && m != k ==> images[m] != images[k]
    ensures forall g :: g in FindGroups(images, hashes) ==> images[k] !in g
  {
    FindDuplicatesSpec(images, hashes);
    var d := FindDuplicates(images, hashes);
    forall g | g in FindGroups(images, hashes) ensures images[k] !in g {
      var i :| 0 <= i < |FindGroups(images, hashes)| && FindGroups(images, hashes)[i] == g;
      if images[k] in g {
        ImagesWithHashFrom(images, hashes, d[i].0, images[k]);
      }
    }
  }

  /** A member of `ImagesWithHash` is an input image hashed to that value. */
  lemma {:induction false} ImagesWithHashFrom(images: seq<Path>, hashes: seq<Option<string>>, h: string, x: Path)
    requires |images| == |hashes|
    requires x in ImagesWithHash(images, hashes, h)
    ensures exists m :: 0 <= m < |images| && images[m] == x && hashes[m] == Some(h)
  {
    var n := |images| - 1;
    if x in ImagesWithHash(images[..n], hashes[..n], h) {
      ImagesWithHashFrom(images[..n], hashes[..n], h, x);
      var m :| 0 <= m < n && images[..n][m] == x && hashes[..n][m] == Some(h);
      assert images[m] == x && hashes[m] == Some(h);
    }
  }

  // ---------------------------------------------------------------------
  // The two entry points

  datatype HashingFailed = HashingFailed

  /** `ImageDuplicateFinder`: the hash size is fixed at construction. */
  class ImageDuplicateFinder {
    const hashSize: int

    constructor(hashSize: Option<int>)
      ensures this.hashSize == HashSizeOrDefault(hashSize)
    {
      this.hashSize := HashSizeOrDefault(hashSize);
    }

    /** `find`: bare image groups, absorbing unidentified images and `OSError`. */
    method Find(images: seq<Path>, fingerprint: (Path, int) -> HashOutcome)
      returns (r: Result<seq<seq<Path>>, HashingFailed>, updates: seq<Update>)
      ensures r == if AnyRaises(images, hashSize, fingerprint, AverageHashPolicy) then Err(HashingFailed)
                   else Ok(FindGroups(images, HashesOf(images, hashSize, fingerprint)))
      ensures updates == UpdateCalls(images, OutcomesOf(images, hashSize, fingerprint), AverageHashPolicy)
    {
      var hashes, raised;
      hashes, updates, raised := MapAndUpdate(images, hashSize, fingerprint, AverageHashPolicy);
      if raised {
        r := Err(HashingFailed);
      } else {
        r := Ok(FindGroups(images, hashes));
      }
    }
  }

  /** `find_duplicates`: (hash, images) pairs, absorbing only unidentified images. */
  method FindDuplicatesCmd(images: seq<Path>, hashSize: Option<int>, fingerprint: (Path, int) -> HashOutcome)
    returns (r: Result<seq<(string, seq<Path>)>, HashingFailed>, updates: seq<Update>)
    ensures var size := HashSizeOrDefault(hashSize);
      r == if AnyRaises(images, size, fingerprint, ImageHashCmpPolicy) then Err(HashingFailed)
           else Ok(FindDuplicates(images, HashesOf(images, size, fingerprint)))
    ensures updates == UpdateCalls(images, OutcomesOf(images, HashSizeOrDefault(hashSize), fingerprint), ImageHashCmpPolicy)
  {
    var size := HashSizeOrDefault(hashSize);
    var hashes, raised;
    hashes, updates, raised := MapAndUpdate(images, size, fingerprint, ImageHashCmpPolicy);
    if raised {
      r := Err(HashingFailed);
    } else {
      r := Ok(FindDuplicates(images, hashes));
    }
  }
}
