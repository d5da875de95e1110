/**
 * The list plumbing the clustering pipelines are built from: Python's
 * stable `sorted(xs, key=...)` on string keys, `itertools.groupby` (runs of
 * consecutive equal keys) and the order-preserving filter on a key.
 */
module Seqs {
  import opened Strings

  /** The elements of `s` whose key is `k`, in their order in `s`. */
  function Select<T, K(==)>(s: seq<T>, key: T -> K, k: K): (r: seq<T>)
    ensures |r| <= |s|
    ensures forall i :: 0 <= i < |r| ==> key(r[i]) == k
  {
    if s == [] then []
    else (if key(s[0]) == k then [s[0]] else []) + Select(s[1..], key, k)
  }

  lemma {:induction false} SelectAppend<T, K>(a: seq<T>, b: seq<T>, key: T -> K, k: K)
    ensures Select(a + b, key, k) == Select(a, key, k) + Select(b, key, k)
  {
    if a == [] {
      assert a + b == b;
    } else {
      assert (a + b)[1..] == a[1..] + b;
      SelectAppend(a[1..], b, key, k);
    }
  }

  /** Membership in a selection: an element of `s` whose key is `k`. */
  lemma {:induction false} InSelect<T, K>(s: seq<T>, key: T -> K, k: K, x: T)
    ensures x in Select(s, key, k) <==> x in s && key(x) == k
  {
    if s != [] {
      InSelect(s[1..], key, k, x);
      assert s == [s[0]] + s[1..];
    }
  }

  /** Concatenation of a list of lists. */
  function Flatten<T>(ss: seq<seq<T>>): (r: seq<T>)
  {
    if ss == [] then [] else ss[0] + Flatten(ss[1..])
  }

  lemma {:induction false} InFlatten<T>(ss: seq<seq<T>>, p: nat)
    requires p < |Flatten(ss)|
    ensures exists i, j :: 0 <= i < |ss| && 0 <= j < |ss[i]| && ss[i][j] == Flatten(ss)[p]
  {
    if p < |ss[0]| {
      assert ss[0][p] == Flatten(ss)[p];
    } else {
      InFlatten(ss[1..], p - |ss[0]|);
      var i, j :| 0 <= i < |ss[1..]| && 0 <= j < |ss[1..][i]| && ss[1..][i][j] == Flatten(ss[1..])[p - |ss[0]|];
      assert ss[i + 1][j] == Flatten(ss)[p];
    }
  }

  /** `f` applied to each element, the results concatenated in order. */
  function ConcatMap<T, U>(s: seq<T>, f: T -> seq<U>): seq<U>
  {
    if s == [] then [] else f(s[0]) + ConcatMap(s[1..], f)
  }

  lemma {:induction false} ConcatMapAppend<T, U>(a: seq<T>, b: seq<T>, f: T -> seq<U>)
    ensures ConcatMap(a + b, f) == ConcatMap(a, f) + ConcatMap(b, f)
  {
    if a == [] {
      assert a + b == b;
    } else {
      var ab := a + b;
      assert ab[0] == a[0] && ab[1..] == a[1..] + b;
      ConcatMapAppend(a[1..], b, f);
    }
  }

  /** Emitting `f(s[i])` after `done` leaves `s[i + 1..]` to do. */
  lemma ConcatMapStep<T, U>(done: seq<U>, s: seq<T>, f: T -> seq<U>, i: nat)
    requires i < |s|
    ensures (done + f(s[i])) + ConcatMap(s[i + 1..], f) == done + ConcatMap(s[i..], f)
  {
    assert s[i..][0] == s[i] && s[i..][1..] == s[i + 1..];
  }

  // ---------------------------------------------------------------------
  // Stable sort on a string key

  predicate SortedBy<T>(s: seq<T>, key: T -> string)
  {
    forall i, j :: 0 <= i < j < |s| ==> Below(key(s[i]), key(s[j]))
  }

  /** Put `x` before the first element whose key is not below `x`'s key. */
  function Insert<T>(x: T, s: seq<T>, key: T -> string): (r: seq<T>)
    ensures |r| == |s| + 1
    ensures multiset(r) == multiset(s) + multiset{x}
  {
    if s == [] then [x]
    else if Below(key(x), key(s[0])) then [x] + s
    else
      assert s == [s[0]] + s[1..];
      [s[0]] + Insert(x, s[1..], key)
  }

  /** Python `sorted(s, key=key)`: a stable sort. */
  function SortBy<T>(s: seq<T>, key: T -> string): (r: seq<T>)
    ensures |r| == |s|
    ensures multiset(r) == multiset(s)
  {
    if s == [] then []
    else
      assert s == [s[0]] + s[1..];
      Insert(s[0], SortBy(s[1..], key), key)
  }

  lemma {:induction false} InsertSorted<T>(x: T, s: seq<T>, key: T -> string)
    requires SortedBy(s, key)
    ensures SortedBy(Insert(x, s, key), key)
  {
    if s != [] && !Below(key(x), key(s[0])) {
      var t := Insert(x, s[1..], key);
      SortedSuffix(s, key, 1);
      InsertSorted(x, s[1..], key);
      BelowTotal(key(x), key(s[0]));
      InsertAbove(x, s, key);
      ConsSorted(s[0], t, key);
    } else if s != [] {
      forall j | 0 < j < |s| ensures Below(key(x), key(s[j])) {
        BelowTransitive(key(x), key(s[0]), key(s[j]));
      }
    }
  }

  /** Inserting into the tail of a sorted sequence keeps everything at or above its head. */
  lemma InsertAbove<T>(x: T, s: seq<T>, key: T -> string)
    requires SortedBy(s, key) && s != [] && Below(key(s[0]), key(x))
    ensures forall j :: 0 <= j < |Insert(x, s[1..], key)| ==> Below(key(s[0]), key(Insert(x, s[1..], key)[j]))
  {
    var t := Insert(x, s[1..], key);
    forall j | 0 <= j < |t| ensures Below(key(s[0]), key(t[j])) {
      assert t[j] in multiset(t);
      assert t[j] in multiset(s[1..]) + multiset{x};
      if t[j] != x {
        var i :| 0 <= i < |s[1..]| && s[1..][i] == t[j];
        assert s[i + 1] == t[j];
      }
    }
  }

  /** A head at or below every element of a sorted tail gives a sorted sequence. */
  lemma ConsSorted<T>(h: T, t: seq<T>, key: T -> string)
    requires SortedBy(t, key) && forall j :: 0 <= j < |t| ==> Below(key(h), key(t[j]))
    ensures SortedBy([h] + t, key)
  {
    forall i, j | 0 <= i < j < |[h] + t|
      ensures Below(key(([h] + t)[i]), key(([h] + t)[j]))
    {
      assert ([h] + t)[j] == t[j - 1];
      if i > 0 {
        assert ([h] + t)[i] == t[i - 1];
      }
    }
  }

  lemma {:induction false} SortBySorted<T>(s: seq<T>, key: T -> string)
    ensures SortedBy(SortBy(s, key), key)
  {
    if s != [] {
      SortBySorted(s[1..], key);
      InsertSorted(s[0], SortBy(s[1..], key), key);
    }
  }

  /** Inserting `x` does not disturb the relative order of any key class. */
  lemma {:induction false} SelectInsert<T>(x: T, s: seq<T>, key: T -> string, k: string)
    ensures Select(Insert(x, s, key), key, k)
         == (if key(x) == k then [x] else []) + Select(s, key, k)
    decreases |s|, 1
  {
    if s == [] {
      assert Insert(x, s, key) == [x];
      assert Select([x], key, k) == (if key(x) == k then [x] else []) + Select([], key, k);
    } else if Below(key(x), key(s[0])) {
      SelectAppend([x], s, key, k);
      assert Select([x], key, k) == (if key(x) == k then [x] else []) + Select([], key, k);
    } else {
      SelectInsertSkip(x, s, key, k);
    }
  }

  lemma {:induction false} SelectInsertSkip<T>(x: T, s: seq<T>, key: T -> string, k: string)
    requires s != [] && !Below(key(x), key(s[0]))
    ensures Select(Insert(x, s, key), key, k)
         == (if key(x) == k then [x] else []) + Select(s, key, k)
    decreases |s|, 0
  {
    var t := Insert(x, s[1..], key);
    var hx := if key(x) == k then [x] else [];
    var h0 := if key(s[0]) == k then [s[0]] else [];
    assert Insert(x, s, key) == [s[0]] + t;
    assert Select(s, key, k) == h0 + Select(s[1..], key, k);
    assert Select([s[0]] + t, key, k) == h0 + Select(t, key, k) by {
      assert ([s[0]] + t)[1..] == t;
    }
    assert h0 == [] || hx == [] by {
      BelowReflexive(key(x));
    }
    SelectInsert(x, s[1..], key, k);
    SwapEmpty(h0, hx, Select(s[1..], key, k));
  }

  lemma SwapEmpty<T>(a: seq<T>, b: seq<T>, c: seq<T>)
    requires a == [] || b == []
    ensures a + (b + c) == b + (a + c)
  {
  }

  /** Stability: within one key, `SortBy` keeps the input order. */
  lemma {:induction false} SelectSortBy<T>(s: seq<T>, key: T -> string, k: string)
    ensures Select(SortBy(s, key), key, k) == Select(s, key, k)
  {
    if s != [] {
      SelectSortBy(s[1..], key, k);
      SelectInsert(s[0], SortBy(s[1..], key), key, k);
    }
  }

  // ---------------------------------------------------------------------
  // itertools.groupby

  /** Length of the leading run of elements whose key is `k`. */
  function Run<T, K(==)>(s: seq<T>, key: T -> K, k: K): (n: nat)
    ensures n <= |s|
    ensures forall i :: 0 <= i < n ==> key(s[i]) == k
    ensures n < |s| ==> key(s[n]) != k
  {
    if s == [] || key(s[0]) != k then 0 else 1 + Run(s[1..], key, k)
  }

  /** `itertools.groupby(s, key)`: maximal runs of consecutive equal keys. */
  function GroupRuns<T, K(==)>(s: seq<T>, key: T -> K): (r: seq<seq<T>>)
    ensures Flatten(r) == s
    ensures forall i :: 0 <= i < |r| ==> r[i] != []
    ensures forall i, j :: 0 <= i < |r| && 0 <= j < |r[i]| ==> key(r[i][j]) == key(r[i][0])
    ensures forall i :: 0 <= i < |r| - 1 ==> key(r[i][0]) != key(r[i + 1][0])
    decreases |s|
  {
    if s == [] then []
    else
      var n := Run(s, key, key(s[0]));
      var rest := GroupRuns(s[n..], key);
      assert s[..n] + s[n..] == s;
      [s[..n]] + rest
  }

  /** After the first run of a sorted sequence, every key is strictly greater. */
  lemma AfterFirstRun<T>(t: seq<T>, key: T -> string)
    requires SortedBy(t, key) && t != []
    ensures forall j :: Run(t, key, key(t[0])) <= j < |t| ==> Less(key(t[0]), key(t[j]))
  {
    var h := key(t[0]);
    var n := Run(t, key, h);
    forall j | n <= j < |t| ensures Less(h, key(t[j])) {
      if key(t[j]) == h {
        if j > n {
          assert Below(key(t[n]), key(t[j]));
          assert Below(h, key(t[n]));
        }
        BelowAntisymmetric(h, key(t[n]));
      }
    }
  }

  /** On a sorted sequence, everything after the first run is sorted and has a strictly greater key. */
  lemma AfterFirstRunAbove<T>(t: seq<T>, key: T -> string, n: nat)
    requires SortedBy(t, key) && t != [] && n == Run(t, key, key(t[0]))
    ensures SortedBy(t[n..], key)
    ensures forall p :: 0 <= p < |t[n..]| ==> Less(key(t[0]), key(t[n..][p]))
  {
    SortedSuffix(t, key, n);
    AfterFirstRun(t, key);
    forall p | 0 <= p < |t[n..]| ensures Less(key(t[0]), key(t[n..][p])) {
      assert t[n..][p] == t[n + p];
    }
  }

  /** When everything in the flattened runs is above `h`, so is every run's first element. */
  lemma FirstsAbove<T>(runs: seq<seq<T>>, s: seq<T>, key: T -> string, h: string)
    requires Flatten(runs) == s && forall i :: 0 <= i < |runs| ==> runs[i] != []
    requires forall p :: 0 <= p < |s| ==> Less(h, key(s[p]))
    ensures forall i :: 0 <= i < |runs| ==> Less(h, key(runs[i][0]))
  {
    forall i | 0 <= i < |runs| ensures Less(h, key(runs[i][0])) {
      FlattenMember(runs, i);
    }
  }

  lemma SortedSuffix<T>(t: seq<T>, key: T -> string, n: nat)
    requires SortedBy(t, key) && n <= |t|
    ensures SortedBy(t[n..], key)
  {
    forall i, j | 0 <= i < j < |t[n..]| ensures Below(key(t[n..][i]), key(t[n..][j])) {
      assert t[n..][i] == t[n + i] && t[n..][j] == t[n + j];
    }
  }

  /** On a sorted sequence the runs' keys strictly ascend. */
  lemma {:induction false} GroupRunsAscend<T>(t: seq<T>, key: T -> string)
    requires SortedBy(t, key)
    ensures forall i, j :: 0 <= i < j < |GroupRuns(t, key)| ==>
      Less(key(GroupRuns(t, key)[i][0]), key(GroupRuns(t, key)[j][0]))
    decreases |t|
  {
    if t != [] {
      var g := GroupRuns(t, key);
      var n := Run(t, key, key(t[0]));
      var rest := GroupRuns(t[n..], key);
      assert g == [t[..n]] + rest;
      AfterFirstRunAbove(t, key, n);
      FirstsAbove(rest, t[n..], key, key(t[0]));
      GroupRunsAscend(t[n..], key);
      assert g[0][0] == t[0];
      forall i, j | 0 <= i < j < |g| ensures Less(key(g[i][0]), key(g[j][0])) {
        assert g[j] == rest[j - 1];
        if i > 0 {
          assert g[i] == rest[i - 1];
          assert Less(key(rest[i - 1][0]), key(rest[j - 1][0]));
        } else {
          assert Less(key(t[0]), key(rest[j - 1][0]));
        }
      }
    }
  }

  /** On a sorted sequence every run is the whole class of its key. */
  lemma {:induction false} GroupRunsAreClasses<T>(t: seq<T>, key: T -> string)
    requires SortedBy(t, key)
    ensures forall i :: 0 <= i < |GroupRuns(t, key)| ==>
      GroupRuns(t, key)[i] == Select(t, key, key(GroupRuns(t, key)[i][0]))
    decreases |t|
  {
    if t != [] {
      var g := GroupRuns(t, key);
      var h := key(t[0]);
      var n := Run(t, key, h);
      var tail := t[n..];
      var rest := GroupRuns(tail, key);
      assert g == [t[..n]] + rest;
      assert t[..n] + tail == t;
      AfterFirstRun(t, key);
      AfterFirstRunAbove(t, key, n);
      FirstsAbove(rest, tail, key, h);
      GroupRunsAreClasses(tail, key);
      SelectOfRun(t[..n], key, h);
      SelectAbove(tail, key, h);
      SelectAppend(t[..n], tail, key, h);
      forall i | 1 <= i < |g| ensures g[i] == Select(t, key, key(g[i][0])) {
        var k := key(g[i][0]);
        assert g[i] == rest[i - 1];
        SelectOfOtherRun(t[..n], key, h, k);
        SelectAppend(t[..n], tail, key, k);
      }
    }
  }

  /**
   * On a sorted sequence every run is the whole key class, and the runs'
   * keys strictly ascend.
   */
  lemma GroupRunsOfSorted<T>(t: seq<T>, key: T -> string)
    requires SortedBy(t, key)
    ensures forall i :: 0 <= i < |GroupRuns(t, key)| ==>
      GroupRuns(t, key)[i] == Select(t, key, key(GroupRuns(t, key)[i][0]))
    ensures forall i, j :: 0 <= i < j < |GroupRuns(t, key)| ==>
      Less(key(GroupRuns(t, key)[i][0]), key(GroupRuns(t, key)[j][0]))
  {
    GroupRunsAreClasses(t, key);
    GroupRunsAscend(t, key);
  }

  lemma {:induction false} SelectAbove<T>(s: seq<T>, key: T -> string, h: string)
    requires forall j :: 0 <= j < |s| ==> Less(h, key(s[j]))
    ensures Select(s, key, h) == []
  {
    if s != [] {
      SelectAbove(s[1..], key, h);
    }
  }

  lemma FlattenMember<T>(ss: seq<seq<T>>, i: nat)
    requires i < |ss| && ss[i] != []
    ensures exists p :: 0 <= p < |Flatten(ss)| && Flatten(ss)[p] == ss[i][0]
    decreases i
  {
    if i == 0 {
      assert Flatten(ss)[0] == ss[0][0];
    } else {
      FlattenMember(ss[1..], i - 1);
      var p :| 0 <= p < |Flatten(ss[1..])| && Flatten(ss[1..])[p] == ss[1..][i - 1][0];
      assert Flatten(ss)[|ss[0]| + p] == ss[i][0];
    }
  }

  lemma {:induction false} SelectOfRun<T, K>(s: seq<T>, key: T -> K, k: K)
    requires forall i :: 0 <= i < |s| ==> key(s[i]) == k
    ensures Select(s, key, k) == s
  {
    if s != [] {
      SelectOfRun(s[1..], key, k);
      assert [s[0]] + s[1..] == s;
    }
  }

  lemma {:induction false} SelectOfOtherRun<T, K>(s: seq<T>, key: T -> K, h: K, k: K)
    requires forall i :: 0 <= i < |s| ==> key(s[i]) == h
    requires h != k
    ensures Select(s, key, k) == []
  {
    if s != [] {
      SelectOfOtherRun(s[1..], key, h, k);
    }
  }
}
