/**
 * `CacheDir` of `mediatools/lib/cache.py`: values kept in files named by
 * the SHA-256 of their key, each file holding a dict from key hash to
 * value. The digest is an oracle; pickling is the identity.
 */
module Cache {
  import opened Common
  import opened Paths

  /** A digest as `hexdigest()` of SHA-256 gives it: 64 characters. */
  predicate Digest(hd: string)
  {
    |hd| == 64
  }

  /** `_get_filepath`: `basepath / hd[0] / hd[0:2] / (hd + ".bin")`. */
  function FilePath(basepath: string, hd: string): (r: Path)
    requires Digest(hd)
    ensures r.name == hd + ".bin"
    ensures r.parent == basepath + "/" + [hd[0]] + "/" + hd[..2]
  {
    Path(basepath + "/" + [hd[0]] + "/" + hd[..2], hd + ".bin")
  }

  /** Different digests are kept in different files. */
  lemma FilePathInjective(basepath: string, h1: string, h2: string)
    requires Digest(h1) && Digest(h2) && FilePath(basepath, h1) == FilePath(basepath, h2)
    ensures h1 == h2
  {
    assert h1 == FilePath(basepath, h1).name[..64];
    assert h2 == FilePath(basepath, h2).name[..64];
  }

  /** The dict of each cache file that exists. */
  type Files<V> = map<Path, map<string, V>>

  datatype Miss = Miss(key: string)

  /** `get`: a missing file or a missing entry is a miss. */
  function Lookup<V>(files: Files<V>, basepath: string, sha: string -> string, key: string): (r: Result<V, Miss>)
    requires Digest(sha(key))
    ensures r.Err? ==> r.error == Miss(key)
    ensures r.Ok? <==> FilePath(basepath, sha(key)) in files && sha(key) in files[FilePath(basepath, sha(key))]
  {
    var fp := FilePath(basepath, sha(key));
    if fp !in files then Err(Miss(key))
    else if sha(key) !in files[fp] then Err(Miss(key))
    else Ok(files[fp][sha(key)])
  }

  /** `set`: read the file's dict, or start from an empty one, store the value under the hash, write it back. */
  function Store<V>(files: Files<V>, basepath: string, sha: string -> string, key: string, value: V): (r: Files<V>)
    requires Digest(sha(key))
    ensures r.Keys == files.Keys + {FilePath(basepath, sha(key))}
  {
    var fp := FilePath(basepath, sha(key));
    var data := if fp in files then files[fp] else map[];
    files[fp := data[sha(key) := value]]
  }

  /** `set(k, v)` then `get(k)` gives back `v`. */
  lemma StoreThenLookup<V>(files: Files<V>, basepath: string, sha: string -> string, key: string, value: V)
    requires Digest(sha(key))
    ensures Lookup(Store(files, basepath, sha, key, value), basepath, sha, key) == Ok(value)
  {
  }

  /** A second `set` of the same key replaces the first. */
  lemma StoreOverwrites<V>(files: Files<V>, basepath: string, sha: string -> string, key: string, v1: V, v2: V)
    requires Digest(sha(key))
    ensures Store(Store(files, basepath, sha, key, v1), basepath, sha, key, v2) == Store(files, basepath, sha, key, v2)
  {
    var fp := FilePath(basepath, sha(key));
    var data := if fp in files then files[fp] else map[];
    assert data[sha(key) := v1][sha(key) := v2] == data[sha(key) := v2];
  }

  /**
   * `set` keeps every other entry: the other hashes stored in the same
   * file, and everything another key reads.
   */
  lemma StoreKeepsOthers<V>(files: Files<V>, basepath: string, sha: string -> string, key: string, value: V, other: string)
    requires Digest(sha(key)) && Digest(sha(other)) && sha(other) != sha(key)
    ensures Lookup(Store(files, basepath, sha, key, value), basepath, sha, other) == Lookup(files, basepath, sha, other)
    ensures var fp := FilePath(basepath, sha(key));
      fp in files ==> forall h :: h in files[fp] && h != sha(key) ==>
        h in Store(files, basepath, sha, key, value)[fp] && Store(files, basepath, sha, key, value)[fp][h] == files[fp][h]
  {
    if FilePath(basepath, sha(key)) == FilePath(basepath, sha(other)) {
      FilePathInjective(basepath, sha(key), sha(other));
    }
  }

  /** The cache after `set` of each (key, value) in turn, from `files`. */
  function StoreAll<V>(files: Files<V>, basepath: string, sha: string -> string, entries: seq<(string, V)>): Files<V>
    requires forall i :: 0 <= i < |entries| ==> Digest(sha(entries[i].0))
  {
    if entries == [] then files
    else
      var last := entries[|entries| - 1];
      Store(StoreAll(files, basepath, sha, entries[..|entries| - 1]), basepath, sha, last.0, last.1)
  }

  /** A key never set misses, whatever other keys were set on an empty cache. */
  lemma {:induction false} NeverSetMisses<V>(basepath: string, sha: string -> string, entries: seq<(string, V)>, key: string)
    requires Digest(sha(key))
    requires forall i :: 0 <= i < |entries| ==> Digest(sha(entries[i].0)) && sha(entries[i].0) != sha(key)
    ensures Lookup(StoreAll(map[], basepath, sha, entries), basepath, sha, key) == Err(Miss(key))
  {
    if entries != [] {
      var init := entries[..|entries| - 1];
      assert forall i :: 0 <= i < |init| ==> init[i] == entries[i];
      NeverSetMisses(basepath, sha, init, key);
      var last := entries[|entries| - 1];
      StoreKeepsOthers(StoreAll(map[], basepath, sha, init), basepath, sha, last.0, last.1, key);
    }
  }

  class CacheDir<V> {
    const basepath: string
    /** The cache files under `basepath`, each holding its dict. */
    var files: Files<V>

    constructor(basepath: string, files: Files<V>)
      ensures this.basepath == basepath && this.files == files
    {
      this.basepath := basepath;
      this.files := files;
    }

    method Get(key: string, sha: string -> string) returns (r: Result<V, Miss>)
      requires Digest(sha(key))
      ensures r == Lookup(files, basepath, sha, key)
    {
      var fp := FilePath(basepath, sha(key));
      if fp !in files {
        return Err(Miss(key));
      }
      var data := files[fp];
      if sha(key) !in data {
        return Err(Miss(key));
      }
      return Ok(data[sha(key)]);
    }

    method Set(key: string, value: V, sha: string -> string)
      requires Digest(sha(key))
      modifies this
      ensures files == Store(old(files), basepath, sha, key, value)
    {
      var fp := FilePath(basepath, sha(key));
      var data: map<string, V> := map[];
      if fp in files {
        data := files[fp];
      }
      data := data[sha(key) := value];
      files := files[fp := data];
    }
  }
}
