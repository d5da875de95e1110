/**
 * Dictionary buckets: images keyed by a perceptual hash in a dict that
 * keeps its keys in order of first insertion. One pass buckets the image
 * files of a walk; the other hashes the JPEG files once, then rehashes the
 * bucketed images at twice the hash size and keeps the buckets of two or
 * more images.
 */
module Buckets {
  import opened Common
  import opened Strings
  import opened Paths
  import opened Seqs

  /** A value handed to `as_posix_path`: a path, a string, or anything else. */
  datatype PathOrStr = PathValue(path: Path) | StrValue(str: string) | OtherValue(typeName: string)

  datatype TypeError = TypeError(typeName: string)

  /** `as_posix_path`: strings pass through, paths are rendered, anything else is a TypeError. */
  function AsPosixPath(v: PathOrStr): (r: Result<string, TypeError>)
    ensures r.Ok? <==> !v.OtherValue?
    ensures v.StrValue? ==> r == Ok(v.str)
    ensures v.PathValue? && v.path.parent == [] ==> r == Ok(v.path.name)
    ensures r.Err? ==> r.error.typeName == v.typeName
  {
    match v
    case PathValue(p) => Ok(ToString(p))
    case StrValue(s) => Ok(s)
    case OtherValue(t) => Err(TypeError(t))
  }

  /** Converting a converted value again changes nothing. */
  lemma AsPosixPathIdempotent(v: PathOrStr)
    requires AsPosixPath(v).Ok?
    ensures AsPosixPath(StrValue(AsPosixPath(v).value)) == AsPosixPath(v)
  {
  }

  // ---------------------------------------------------------------------
  // Insertion-ordered dictionaries of buckets

  /** The distinct keys of `s`, in order of first appearance. */
  function FirstSeen(s: seq<Path>, key: Path -> string): (r: seq<string>)
    ensures forall i, j :: 0 <= i < j < |r| ==> r[i] != r[j]
    ensures forall k :: k in r <==> exists x :: x in s && key(x) == k
    decreases |s|
  {
    if s == [] then []
    else
      var ks := FirstSeen(s[..|s| - 1], key);
      var x := s[|s| - 1];
      assert forall y :: y in s <==> y in s[..|s| - 1] || y == x by {
        assert s == s[..|s| - 1] + [x];
      }
      if key(x) in ks then ks else ks + [key(x)]
  }

  /** Keys are only ever appended: the keys of a prefix are a prefix of the keys. */
  lemma {:induction false} FirstSeenPrefix(s: seq<Path>, key: Path -> string, i: nat)
    requires i <= |s|
    ensures FirstSeen(s[..i], key) <= FirstSeen(s, key)
    decreases |s|
  {
    if i < |s| {
      assert s[..|s| - 1][..i] == s[..i];
      FirstSeenPrefix(s[..|s| - 1], key, i);
    } else {
      assert s[..i] == s;
    }
  }

  /** The buckets of `s` for the keys `ks`, in that order. */
  function BucketsFor(s: seq<Path>, key: Path -> string, ks: seq<string>): (r: seq<seq<Path>>)
    ensures |r| == |ks|
    ensures forall j :: 0 <= j < |ks| ==> r[j] == Select(s, key, ks[j])
  {
    if ks == [] then [] else [Select(s, key, ks[0])] + BucketsFor(s, key, ks[1..])
  }

  /** `dict[K, list[T]]`: the keys in insertion order and the entries. */
  datatype OrderedDict = OrderedDict(keys: seq<string>, entries: map<string, seq<Path>>)
  {
    ghost predicate Valid()
    {
      (forall i, j :: 0 <= i < j < |keys| ==> keys[i] != keys[j])
      && (forall k :: k in entries <==> k in keys)
    }

    /** `list(d.values())`. */
    function Values(): (r: seq<seq<Path>>)
      requires forall k :: k in keys ==> k in entries
      ensures |r| == |keys| && forall j :: 0 <= j < |keys| ==> r[j] == entries[keys[j]]
    {
      seq(|keys|, j requires 0 <= j < |keys| => entries[keys[j]])
    }
  }

  /** The dictionary that buckets `s` by `key`: first-seen keys, each mapped to its elements in order. */
  ghost predicate Buckets(d: OrderedDict, s: seq<Path>, key: Path -> string)
  {
    d.Valid() && d.keys == FirstSeen(s, key)
    && forall k :: k in d.entries ==> d.entries[k] == Select(s, key, k)
  }

  /** A key not seen yet selects nothing. */
  lemma {:induction false} SelectUnseen(s: seq<Path>, key: Path -> string, k: string)
    requires k !in FirstSeen(s, key)
    ensures Select(s, key, k) == []
  {
    if Select(s, key, k) != [] {
      var x := Select(s, key, k)[0];
      InSelect(s, key, k, x);
      assert false;
    }
  }

  /** The dictionary after filing `x` under `k`: a new key is appended, a known one keeps its place. */
  function Filed(d: OrderedDict, k: string, x: Path): OrderedDict
  {
    if k in d.entries then OrderedDict(d.keys, d.entries[k := d.entries[k] + [x]])
    else OrderedDict(d.keys + [k], d.entries[k := [x]])
  }

  /** Filing keeps the keys distinct and in step with the entries. */
  lemma FiledValid(d: OrderedDict, k: string, x: Path)
    requires d.Valid()
    ensures Filed(d, k, x).Valid()
  {
  }

  /** Filing appends the key exactly when it was not seen yet. */
  lemma FiledKeys(d: OrderedDict, s: seq<Path>, key: Path -> string, x: Path)
    requires Buckets(d, s, key)
    ensures Filed(d, key(x), x).keys == FirstSeen(s + [x], key)
  {
    assert (s + [x])[..|s + [x]| - 1] == s;
  }

  /** Filing grows the bucket of `key(x)` by `x` and leaves the others alone. */
  lemma FiledEntries(d: OrderedDict, s: seq<Path>, key: Path -> string, x: Path)
    requires Buckets(d, s, key)
    ensures forall h :: h in Filed(d, key(x), x).entries ==> Filed(d, key(x), x).entries[h] == Select(s + [x], key, h)
  {
    var k := key(x);
    var e := Filed(d, k, x).entries;
    forall h | h in e
      ensures e[h] == Select(s + [x], key, h)
    {
      SelectAppend(s, [x], key, h);
      if h == k && k !in d.entries {
        SelectUnseen(s, key, k);
      }
    }
  }

  /** One more element: its key is appended if new, and its bucket grows by it. */
  lemma AddToBuckets(d: OrderedDict, s: seq<Path>, key: Path -> string, x: Path)
    requires Buckets(d, s, key)
    ensures Buckets(Filed(d, key(x), x), s + [x], key)
  {
    FiledValid(d, key(x), x);
    FiledKeys(d, s, key, x);
    FiledEntries(d, s, key, x);
  }

  /** The invariant of `build_hash_dict` carried over one more image. */
  lemma BuildStep(d: OrderedDict, s: seq<Path>, key: Path -> string, i: nat)
    requires i < |s| && Buckets(d, s[..i], key)
    ensures Buckets(Filed(d, key(s[i]), s[i]), s[..i + 1], key)
  {
    AddToBuckets(d, s[..i], key, s[i]);
    assert s[..i + 1] == s[..i] + [s[i]];
  }

  /**
   * `build_hash_dict`: hash every image in turn; a new hash gets a fresh
   * list, a known one has the image appended to its list.
   */
  method BuildHashDict(collection: seq<Path>, hashOf: Path -> string) returns (d: OrderedDict)
    ensures Buckets(d, collection, hashOf)
  {
    d := OrderedDict([], map[]);
    for i := 0 to |collection|
      invariant Buckets(d, collection[..i], hashOf)
    {
      var img := collection[i];
      var ih := hashOf(img);
      BuildStep(d, collection, hashOf, i);
      ghost var next := Filed(d, ih, img);
      if ih !in d.entries {
        d := OrderedDict(d.keys + [ih], d.entries[ih := [img]]);
      } else {
        d := d.(entries := d.entries[ih := d.entries[ih] + [img]]);
      }
      assert d == next;
    }
    assert collection[..|collection|] == collection;
  }

  /** The values of a bucket dictionary are the buckets in first-seen order. */
  lemma BucketsValues(d: OrderedDict, s: seq<Path>, key: Path -> string)
    requires Buckets(d, s, key)
    ensures d.Values() == BucketsFor(s, key, FirstSeen(s, key))
  {
  }

  /** Every bucket of first-seen keys is non-empty. */
  lemma BucketsNonEmpty(s: seq<Path>, key: Path -> string, j: nat)
    requires j < |FirstSeen(s, key)|
    ensures BucketsFor(s, key, FirstSeen(s, key))[j] != []
  {
    var k := FirstSeen(s, key)[j];
    assert k in FirstSeen(s, key);
    var x :| x in s && key(x) == k;
    InSelect(s, key, k, x);
  }

  /** Every element lands in exactly one bucket: the one of its own key. */
  lemma InExactlyOneBucket(s: seq<Path>, key: Path -> string, x: Path)
    requires x in s
    ensures exists j :: 0 <= j < |FirstSeen(s, key)| && x in BucketsFor(s, key, FirstSeen(s, key))[j]
    ensures forall j1, j2 :: 0 <= j1 < |FirstSeen(s, key)| && 0 <= j2 < |FirstSeen(s, key)|
              && x in BucketsFor(s, key, FirstSeen(s, key))[j1] && x in BucketsFor(s, key, FirstSeen(s, key))[j2]
              ==> j1 == j2
  {
    var ks := FirstSeen(s, key);
    assert key(x) in ks;
    var j :| 0 <= j < |ks| && ks[j] == key(x);
    InSelect(s, key, key(x), x);
    assert x in BucketsFor(s, key, ks)[j];
    forall j1 | 0 <= j1 < |ks| && x in BucketsFor(s, key, ks)[j1]
      ensures ks[j1] == key(x)
    {
      InSelect(s, key, ks[j1], x);
    }
  }

  /** Buckets hold only elements of `s`. */
  lemma BucketMember(s: seq<Path>, key: Path -> string, j: nat, x: Path)
    requires j < |FirstSeen(s, key)| && x in BucketsFor(s, key, FirstSeen(s, key))[j]
    ensures x in s && key(x) == FirstSeen(s, key)[j]
  {
    InSelect(s, key, FirstSeen(s, key)[j], x);
  }

  // ---------------------------------------------------------------------
  // mdupes

  predicate IsImageMime(mime: string)
  {
    StartsWith(mime, "image/")
  }

  /** The files whose MIME type starts with `image/`, in order. */
  function ImagesOf(files: seq<Path>, mimeOf: Path -> string): (r: seq<Path>)
    ensures forall p :: p in r <==> p in files && IsImageMime(mimeOf(p))
    decreases |files|
  {
    if files == [] then []
    else
      var init := files[..|files| - 1];
      var last := files[|files| - 1];
      assert forall p :: p in files <==> p in init || p == last by {
        assert files == init + [last];
      }
      ImagesOf(init, mimeOf) + (if IsImageMime(mimeOf(last)) then [last] else [])
  }

  /**
   * `group_paths_by_hash`: files that are not images are skipped; every
   * image goes to the list of its hash, and the lists come out in order of
   * each hash's first appearance.
   */
  method GroupPathsByHash(files: seq<Path>, mimeOf: Path -> string, hashOf: Path -> string)
    returns (groups: seq<seq<Path>>)
    ensures var images := ImagesOf(files, mimeOf);
      groups == BucketsFor(images, hashOf, FirstSeen(images, hashOf))
  {
    var d: OrderedDict := OrderedDict([], map[]);
    for i := 0 to |files|
      invariant Buckets(d, ImagesOf(files[..i], mimeOf), hashOf)
    {
      var file := files[i];
      assert files[..i + 1][..i] == files[..i];
      var mime := mimeOf(file);
      if !IsImageMime(mime) {
        assert ImagesOf(files[..i + 1], mimeOf) == ImagesOf(files[..i], mimeOf);
        continue;
      }
      assert ImagesOf(files[..i + 1], mimeOf) == ImagesOf(files[..i], mimeOf) + [file];
      var h := hashOf(file);
      AddToBuckets(d, ImagesOf(files[..i], mimeOf), hashOf, file);
      var prior := if h in d.entries then d.entries[h] else [];
      d := OrderedDict(if h in d.entries then d.keys else d.keys + [h], d.entries[h := prior + [file]]);
    }
    assert files[..|files|] == files;
    BucketsValues(d, ImagesOf(files, mimeOf), hashOf);
    groups := d.Values();
  }

  /** `main`'s filter: only groups with more than one file are reported. */
  function SharedGroups(groups: seq<seq<Path>>): (r: seq<seq<Path>>)
    ensures forall g :: g in r <==> g in groups && |g| > 1
  {
    if groups == [] then []
    else (if |groups[0]| > 1 then [groups[0]] else []) + SharedGroups(groups[1..])
  }

  /** Non-images appear in no group; images are in exactly the group of their hash. */
  lemma GroupedFiles(files: seq<Path>, mimeOf: Path -> string, hashOf: Path -> string, j: nat, p: Path)
    requires var images := ImagesOf(files, mimeOf); j < |FirstSeen(images, hashOf)|
    ensures var images := ImagesOf(files, mimeOf);
      p in BucketsFor(images, hashOf, FirstSeen(images, hashOf))[j]
      <==> p in files && IsImageMime(mimeOf(p)) && hashOf(p) == FirstSeen(images, hashOf)[j]
  {
    var images := ImagesOf(files, mimeOf);
    InSelect(images, hashOf, FirstSeen(images, hashOf)[j], p);
  }

  // ---------------------------------------------------------------------
  // similarimages

  const DefaultHashSize: int := 16

  datatype SimilarImagesGroup = SimilarImagesGroup(hash: string, paths: seq<Path>)

  /** `[SimilarImagesGroup(ih, imgs) for ih, imgs in d.items() if len(imgs) > 1]`. */
  function SharedBuckets(keys: seq<string>, entries: map<string, seq<Path>>): (r: seq<SimilarImagesGroup>)
    requires forall k :: k in keys ==> k in entries
    ensures forall g :: g in r <==> g.hash in keys && g.paths == entries[g.hash] && |g.paths| > 1
  {
    if keys == [] then []
    else
      (if |entries[keys[0]]| > 1 then [SimilarImagesGroup(keys[0], entries[keys[0]])] else [])
      + SharedBuckets(keys[1..], entries)
  }

  /** The hashes of the groups, in order. */
  function HashesOf(r: seq<SimilarImagesGroup>): (h: seq<string>)
    ensures |h| == |r| && forall i :: 0 <= i < |r| ==> h[i] == r[i].hash
  {
    seq(|r|, i requires 0 <= i < |r| => r[i].hash)
  }

  /** The keys whose entry holds more than one image, in the order of the keys. */
  function SharedKeys(keys: seq<string>, entries: map<string, seq<Path>>): (r: seq<string>)
    requires forall k :: k in keys ==> k in entries
    ensures forall k :: k in r <==> k in keys && |entries[k]| > 1
  {
    if keys == [] then []
    else (if |entries[keys[0]]| > 1 then [keys[0]] else []) + SharedKeys(keys[1..], entries)
  }

  /** The groups come one per shared key, in the order of the keys. */
  lemma {:induction false} SharedBucketsOrdered(keys: seq<string>, entries: map<string, seq<Path>>)
    requires forall k :: k in keys ==> k in entries
    ensures HashesOf(SharedBuckets(keys, entries)) == SharedKeys(keys, entries)
  {
    if keys != [] {
      var rest := SharedBuckets(keys[1..], entries);
      SharedBucketsOrdered(keys[1..], entries);
      var head := if |entries[keys[0]]| > 1 then [SimilarImagesGroup(keys[0], entries[keys[0]])] else [];
      assert SharedBuckets(keys, entries) == head + rest;
      HashesOfAppend(head, rest);
    }
  }

  lemma HashesOfAppend(a: seq<SimilarImagesGroup>, b: seq<SimilarImagesGroup>)
    ensures HashesOf(a + b) == HashesOf(a) + HashesOf(b)
  {
    assert forall i :: 0 <= i < |a + b| ==> HashesOf(a + b)[i] == (HashesOf(a) + HashesOf(b))[i];
  }

  /** The dict of key to the elements with that key, over the keys seen. */
  function EntriesFor(s: seq<Path>, key: Path -> string): (m: map<string, seq<Path>>)
    ensures forall k :: k in m <==> k in FirstSeen(s, key)
  {
    map k | k in FirstSeen(s, key) :: Select(s, key, k)
  }

  /** The images after the first pass, bucket by bucket. */
  function FirstPassOrder(images: seq<Path>, hashOf: (Path, int) -> string, hashSize: int): seq<Path>
  {
    Flatten(BucketsFor(images, p => hashOf(p, hashSize), FirstSeen(images, p => hashOf(p, hashSize))))
  }

  class SimilarImages {
    const hashSize: int

    constructor(hashSize: int)
      ensures this.hashSize == hashSize
    {
      this.hashSize := hashSize;
    }

    /**
     * `search_similar`: bucket the JPEG files by their hash; if there are
     * none, stop. Otherwise rehash every bucketed image, singletons
     * included, at twice the hash size in first-pass bucket order, and keep
     * the second-pass buckets of two or more images with their hash.
     */
    method SearchSimilar(collection: seq<Path>, hashOf: (Path, int) -> string)
      returns (r: seq<SimilarImagesGroup>)
      ensures JpegsOf(collection) == [] ==> r == []
      ensures JpegsOf(collection) != [] ==>
        var chained := FirstPassOrder(JpegsOf(collection), hashOf, hashSize);
        var second := (p: Path) => hashOf(p, hashSize * 2);
        forall g :: g in r <==> g.hash in FirstSeen(chained, second)
                                && g.paths == Select(chained, second, g.hash) && |g.paths| > 1
    ensures JpegsOf(collection) != [] ==>
        var chained := FirstPassOrder(JpegsOf(collection), hashOf, hashSize);
        var second := (p: Path) => hashOf(p, hashSize * 2);
        HashesOf(r) == SharedKeys(FirstSeen(chained, second), EntriesFor(chained, second))
    {
      var images := JpegsOf(collection);
      var first := BuildHashDict(images, p => hashOf(p, hashSize));
      if |first.keys| == 0 {
        return [];
      }
      BucketsValues(first, images, p => hashOf(p, hashSize));
      var chained := Flatten(first.Values());
      var second := BuildHashDict(chained, p => hashOf(p, hashSize * 2));
      r := SharedBuckets(second.keys, second.entries);
      SharedBucketsOrdered(second.keys, second.entries);
      assert second.entries == EntriesFor(chained, p => hashOf(p, hashSize * 2));
    }
  }

  /** Flattening the buckets of a key list that covers every key gives back the elements, reordered. */
  lemma {:induction false} FlattenBucketsPermutes(s: seq<Path>, key: Path -> string, ks: seq<string>)
    requires forall i, j :: 0 <= i < j < |ks| ==> ks[i] != ks[j]
    requires forall x :: x in s ==> key(x) in ks
    ensures multiset(Flatten(BucketsFor(s, key, ks))) == multiset(s)
    decreases |s|
  {
    if s == [] {
      EmptyBuckets(key, ks);
    } else {
      var x := s[0];
      var t := s[1..];
      assert s == [x] + t;
      BucketsOfCons(x, t, key, ks);
      FlattenBucketsPermutes(t, key, ks);
    }
  }

  lemma {:induction false} EmptyBuckets(key: Path -> string, ks: seq<string>)
    ensures Flatten(BucketsFor([], key, ks)) == []
  {
    if ks != [] {
      EmptyBuckets(key, ks[1..]);
    }
  }

  /** Putting one element in front adds it to exactly the bucket of its key. */
  lemma {:induction false} BucketsOfCons(x: Path, t: seq<Path>, key: Path -> string, ks: seq<string>)
    requires forall i, j :: 0 <= i < j < |ks| ==> ks[i] != ks[j]
    ensures multiset(Flatten(BucketsFor([x] + t, key, ks)))
         == multiset(Flatten(BucketsFor(t, key, ks))) + (if key(x) in ks then multiset{x} else multiset{})
  {
    if ks != [] {
      var s := [x] + t;
      assert s[1..] == t;
      BucketsOfCons(x, t, key, ks[1..]);
      assert key(x) in ks <==> key(x) == ks[0] || key(x) in ks[1..];
      assert key(x) == ks[0] ==> key(x) !in ks[1..];
    }
  }

  /** The second pass sees every first-pass image exactly once. */
  lemma FirstPassOrderPermutes(images: seq<Path>, hashOf: (Path, int) -> string, hashSize: int)
    ensures multiset(FirstPassOrder(images, hashOf, hashSize)) == multiset(images)
  {
    var key := (p: Path) => hashOf(p, hashSize);
    FlattenBucketsPermutes(images, key, FirstSeen(images, key));
  }

  /**
   * A second-pass bucket holds exactly the JPEG files with its second-pass
   * hash: rehashing in bucket order loses and duplicates nothing.
   */
  lemma SecondPassMembers(images: seq<Path>, hashOf: (Path, int) -> string, hashSize: int,
                          second: Path -> string, h: string, x: Path)
    ensures x in Select(FirstPassOrder(images, hashOf, hashSize), second, h) <==> x in images && second(x) == h
  {
    var chained := FirstPassOrder(images, hashOf, hashSize);
    FirstPassOrderPermutes(images, hashOf, hashSize);
    InSelect(chained, second, h, x);
    assert x in chained <==> x in multiset(chained);
    assert x in images <==> x in multiset(images);
  }
}
