/**
 * The transcript search of `mediatools/audio.py` and
 * `mediatools/audiogrep.py`: find the segments of a media file's
 * transcription whose text matches a pattern, taking the transcription
 * from the cache, else from the `.srt` sidecar, else from a fresh
 * transcription that is then cached; and `transcribe_cmd`, which writes
 * the sidecars.
 *
 * Files hold transcriptions as values: the JSON and SubRip codecs are
 * not modelled. The transcriber, the MIME sniffer and SHA-1 are oracles.
 */
module Transcripts {
  import opened Common
  import opened Strings
  import opened Paths

  datatype Segment = Segment(start: int, end: int, text: string)
  datatype Transcription = Transcription(text: string, segments: seq<Segment>, language: Option<string>)

  // ---------------------------------------------------------------------
  // fnmatch
  // ---------------------------------------------------------------------

  /** `fnmatch.fnmatch` for patterns built from `*`, `?` and literal characters. */
  function GlobMatch(s: string, pat: string): bool
    decreases |pat|, |s|
  {
    if pat == [] then s == []
    else if pat[0] == '*' then GlobMatch(s, pat[1..]) || (s != [] && GlobMatch(s[1..], pat))
    else if s == [] then false
    else (pat[0] == '?' || pat[0] == s[0]) && GlobMatch(s[1..], pat[1..])
  }

  /** A pattern without wildcards or character classes. */
  predicate Literal(p: string)
  {
    '*' !in p && '?' !in p && '[' !in p
  }

  /** `*` matches anything. */
  lemma {:induction false} StarMatchesAll(s: string)
    ensures GlobMatch(s, "*")
    decreases |s|
  {
    if s != [] {
      StarMatchesAll(s[1..]);
    }
  }

  /** A leading `*` lets the rest of the pattern match any suffix. */
  lemma {:induction false} LeadingStar(s: string, q: string)
    ensures GlobMatch(s, ['*'] + q) <==> exists i :: 0 <= i <= |s| && GlobMatch(s[i..], q)
    decreases |s|
  {
    var pat := ['*'] + q;
    assert pat[1..] == q;
    assert s[0..] == s;
    if s != [] {
      LeadingStar(s[1..], q);
      forall i | 0 <= i <= |s| - 1 ensures s[1..][i..] == s[i + 1..] { }
      if exists i :: 0 <= i <= |s| && GlobMatch(s[i..], q) {
        var i :| 0 <= i <= |s| && GlobMatch(s[i..], q);
        if i > 0 {
          assert s[1..][i - 1..] == s[i..];
        }
      }
    }
  }

  /** A literal followed by `*` matches the strings that start with it. */
  lemma {:induction false} LiteralThenStar(s: string, p: string)
    requires Literal(p)
    ensures GlobMatch(s, p + "*") <==> StartsWith(s, p)
    decreases |p|
  {
    if p == [] {
      assert p + "*" == "*";
      StarMatchesAll(s);
    } else {
      var pat := p + "*";
      assert pat[0] == p[0] && pat[1..] == p[1..] + "*";
      assert p[0] in p;
      if s != [] {
        LiteralThenStar(s[1..], p[1..]);
        if StartsWith(s, p) {
          assert s[1..][..|p| - 1] == s[..|p|][1..];
        }
        if p[0] == s[0] && StartsWith(s[1..], p[1..]) {
          assert s[..|p|] == [s[0]] + s[1..][..|p| - 1];
        }
      }
    }
  }

  /** `*pattern*` with a literal pattern matches exactly the texts that contain it. */
  lemma WrappedMatchesContaining(s: string, p: string)
    requires Literal(p)
    ensures GlobMatch(s, Wrap(p)) <==> Contains(s, p)
  {
    LeadingStar(s, p + "*");
    assert Wrap(p) == ['*'] + (p + "*");
    if GlobMatch(s, Wrap(p)) {
      var i :| 0 <= i <= |s| && GlobMatch(s[i..], p + "*");
      LiteralThenStar(s[i..], p);
      assert s[i..][..|p|] == s[i..i + |p|];
      assert OccursAt(s, p, i);
    }
    if Contains(s, p) {
      var i :| OccursAt(s, p, i);
      LiteralThenStar(s[i..], p);
      assert s[i..][..|p|] == s[i..i + |p|];
    }
  }

  // ---------------------------------------------------------------------
  // _grep
  // ---------------------------------------------------------------------

  /** The pattern `_grep` hands to `fnmatch`. */
  function Wrap(pattern: string): string
  {
    "*" + pattern + "*"
  }

  /** `_grep`: (start, text) of each segment whose text matches `*pattern*`, in segment order. */
  function Hits(pattern: string, segments: seq<Segment>): (r: seq<(int, string)>)
    ensures |r| <= |segments|
  {
    if segments == [] then [] else Hit(pattern, segments[0]) + Hits(pattern, segments[1..])
  }

  /** What one segment contributes. */
  function Hit(pattern: string, s: Segment): (r: seq<(int, string)>)
    ensures |r| <= 1
  {
    if GlobMatch(s.text, Wrap(pattern)) then [(s.start, s.text)] else []
  }

  /** A pair is yielded exactly when some segment with that start and text matches. */
  lemma {:induction false} HitsMeaning(pattern: string, segments: seq<Segment>, start: int, text: string)
    ensures (start, text) in Hits(pattern, segments) <==>
      GlobMatch(text, Wrap(pattern)) && exists i :: 0 <= i < |segments| && segments[i].start == start && segments[i].text == text
  {
    if segments != [] {
      HitsMeaning(pattern, segments[1..], start, text);
      if exists i :: 0 <= i < |segments| && segments[i].start == start && segments[i].text == text {
        var i :| 0 <= i < |segments| && segments[i].start == start && segments[i].text == text;
        if i > 0 {
          assert segments[1..][i - 1] == segments[i];
        }
      }
      if exists i :: 0 <= i < |segments[1..]| && segments[1..][i].start == start && segments[1..][i].text == text {
        var i :| 0 <= i < |segments[1..]| && segments[1..][i].start == start && segments[1..][i].text == text;
        assert segments[i + 1] == segments[1..][i];
      }
    }
  }

  /** The hits keep the order of the segments: those of a later part come after those of an earlier one. */
  lemma {:induction false} HitsAppend(pattern: string, a: seq<Segment>, b: seq<Segment>)
    ensures Hits(pattern, a + b) == Hits(pattern, a) + Hits(pattern, b)
  {
    if a == [] {
      assert a + b == b;
    } else {
      assert (a + b)[0] == a[0] && (a + b)[1..] == a[1..] + b;
      assert Hits(pattern, a + b) == Hit(pattern, a[0]) + Hits(pattern, a[1..] + b);
      HitsAppend(pattern, a[1..], b);
      assert Hits(pattern, a) == Hit(pattern, a[0]) + Hits(pattern, a[1..]);
    }
  }

  // ---------------------------------------------------------------------
  // _checksum
  // ---------------------------------------------------------------------

  /** An open file: its bytes and the current position, which may lie past the end. */
  class FileHandle {
    const content: seq<byte>
    var pos: nat

    constructor(content: seq<byte>)
      ensures this.content == content && pos == 0
    {
      this.content := content;
      pos := 0;
    }

    method Tell() returns (r: nat)
      ensures r == pos
    {
      return pos;
    }

    method Seek(p: nat)
      modifies this
      ensures pos == p
    {
      pos := p;
    }

    /** `read()`: everything from the position on; the position moves to the end. */
    method Read() returns (r: seq<byte>)
      modifies this
      ensures old(pos) < |content| ==> r == content[old(pos)..] && pos == |content|
      ensures old(pos) >= |content| ==> r == [] && pos == old(pos)
    {
      if pos < |content| {
        r := content[pos..];
        pos := |content|;
      } else {
        r := [];
      }
    }
  }

  /**
   * `_checksum`: the digest of everything the hasher was fed, which is the
   * whole file whatever the position was; the position is put back.
   */
  method Checksum(fh: FileHandle, sha1: seq<byte> -> string) returns (r: string)
    modifies fh
    ensures r == sha1(fh.content) && fh.pos == old(fh.pos)
  {
    var fed: seq<byte> := [];
    var curr := fh.Tell();
    fh.Seek(0);
    var buff := fh.Read();
    while buff != []
      invariant fh.pos == |fh.content| && fed + buff == fh.content
      decreases |buff|
    {
      fed := fed + buff;
      buff := fh.Read();
    }
    assert fed == fh.content;
    fh.Seek(curr);
    return sha1(fed);
  }

  // ---------------------------------------------------------------------
  // grep
  // ---------------------------------------------------------------------

  /** A SHA-1 `hexdigest()`: 40 hexadecimal characters, so no dot. */
  predicate HexDigest(cs: string)
  {
    |cs| == 40 && '.' !in cs
  }

  /** `user_cache_dir("transcriptions/{cs[0]}/{cs[0:2]}/{cs}")` under the cache root. */
  function CacheFile(root: string, cs: string): (r: Path)
    requires HexDigest(cs)
    ensures r.name == cs && r.parent == root + "/transcriptions/" + [cs[0]] + "/" + cs[..2]
  {
    Path(root + "/transcriptions/" + [cs[0]] + "/" + cs[..2], cs)
  }

  /** The `.srt` sidecar of a media file. */
  function Sidecar(file: Path): (r: Path)
    ensures r.parent == file.parent && '.' in r.name
  {
    var r := ChangeExtension(file, "srt");
    assert r.name[|Stem(file)|] == '.';
    r
  }

  /** The cache file is never the sidecar: a digest has no dot, a sidecar's name does. */
  lemma CacheIsNotSidecar(root: string, cs: string, file: Path)
    requires HexDigest(cs)
    ensures CacheFile(root, cs) != Sidecar(file)
  {
  }

  /** Where a transcription was taken from. */
  datatype Origin = FromCache | FromSidecar | Transcribed

  /**
   * The lookup of `grep`: the cache file, else the sidecar, else a fresh
   * transcription, which alone is written to the cache.
   */
  function Lookup(files: map<Path, Transcription>, cache: Path, srt: Path, newest: Transcription)
    : (r: (Origin, Transcription, map<Path, Transcription>))
    ensures r.0 == FromCache <==> cache in files
    ensures r.0 == FromSidecar <==> cache !in files && srt in files
    ensures r.0 != Transcribed ==> r.2 == files
    ensures r.0 == Transcribed ==> r.1 == newest && r.2 == files[cache := newest]
    ensures r.0 == FromCache ==> r.1 == files[cache]
    ensures r.0 == FromSidecar ==> r.1 == files[srt]
  {
    if cache in files then (FromCache, files[cache], files)
    else if srt in files then (FromSidecar, files[srt], files)
    else (Transcribed, newest, files[cache := newest])
  }

  /** `grep`: the hits, and the files afterwards. */
  function GrepSpec(files: map<Path, Transcription>, pattern: string, file: Path, content: seq<byte>, root: string,
                    sha1: seq<byte> -> string, transcribe: (Path, Option<string>) -> Transcription,
                    backend: Option<string>): (seq<(int, string)>, map<Path, Transcription>)
    requires HexDigest(sha1(content))
  {
    var l := Lookup(files, CacheFile(root, sha1(content)), Sidecar(file), transcribe(file, backend));
    (Hits(pattern, l.1.segments), l.2)
  }

  /** The cache and sidecar files, as values. */
  class Store {
    var files: map<Path, Transcription>

    constructor(files: map<Path, Transcription>)
      ensures this.files == files
    {
      this.files := files;
    }

    /**
     * `grep` of `audiogrep.py` (`backend` is its `transcribe_backend`) and
     * of `audio.py` (which transcribes with the default backend): checksum
     * the file, look the transcription up, search it.
     */
    method Grep(pattern: string, file: Path, content: seq<byte>, root: string, sha1: seq<byte> -> string,
                transcribe: (Path, Option<string>) -> Transcription, backend: Option<string>)
      returns (hits: seq<(int, string)>)
      requires HexDigest(sha1(content))
      modifies this
      ensures (hits, files) == GrepSpec(old(files), pattern, file, content, root, sha1, transcribe, backend)
    {
      var fh := new FileHandle(content);
      var cs := Checksum(fh, sha1);
      var cachefile := CacheFile(root, cs);
      var srtfile := Sidecar(file);
      var transcription;
      if cachefile in files {
        transcription := files[cachefile];
      } else if srtfile in files {
        transcription := files[srtfile];
      } else {
        transcription := transcribe(file, backend);
        files := files[cachefile := transcription];
      }
      hits := Hits(pattern, transcription.segments);
    }
  }

  /** The cache wins over the sidecar; nothing is written. */
  lemma GrepPrefersCache(files: map<Path, Transcription>, pattern: string, file: Path, content: seq<byte>, root: string,
                         sha1: seq<byte> -> string, transcribe: (Path, Option<string>) -> Transcription, backend: Option<string>)
    requires HexDigest(sha1(content)) && CacheFile(root, sha1(content)) in files
    ensures GrepSpec(files, pattern, file, content, root, sha1, transcribe, backend)
         == (Hits(pattern, files[CacheFile(root, sha1(content))].segments), files)
  {
  }

  /** Without a cache file the sidecar is read; nothing is written. */
  lemma GrepFallsBackToSidecar(files: map<Path, Transcription>, pattern: string, file: Path, content: seq<byte>, root: string,
                               sha1: seq<byte> -> string, transcribe: (Path, Option<string>) -> Transcription, backend: Option<string>)
    requires HexDigest(sha1(content)) && CacheFile(root, sha1(content)) !in files && Sidecar(file) in files
    ensures GrepSpec(files, pattern, file, content, root, sha1, transcribe, backend)
         == (Hits(pattern, files[Sidecar(file)].segments), files)
  {
  }

  /** With neither, the file is transcribed with the backend asked for, and only the cache is written. */
  lemma GrepTranscribes(files: map<Path, Transcription>, pattern: string, file: Path, content: seq<byte>, root: string,
                        sha1: seq<byte> -> string, transcribe: (Path, Option<string>) -> Transcription, backend: Option<string>)
    requires HexDigest(sha1(content)) && CacheFile(root, sha1(content)) !in files && Sidecar(file) !in files
    ensures GrepSpec(files, pattern, file, content, root, sha1, transcribe, backend)
         == (Hits(pattern, transcribe(file, backend).segments), files[CacheFile(root, sha1(content)) := transcribe(file, backend)])
  {
  }

  /** The backend matters only when the file has to be transcribed. */
  lemma BackendOnlyForFresh(files: map<Path, Transcription>, pattern: string, file: Path, content: seq<byte>, root: string,
                            sha1: seq<byte> -> string, transcribe: (Path, Option<string>) -> Transcription, b1: Option<string>, b2: Option<string>)
    requires HexDigest(sha1(content)) && (CacheFile(root, sha1(content)) in files || Sidecar(file) in files)
    ensures GrepSpec(files, pattern, file, content, root, sha1, transcribe, b1)
         == GrepSpec(files, pattern, file, content, root, sha1, transcribe, b2)
  {
  }

  /** A second search of the same file finds the same hits and writes nothing: the first one cached what it used. */
  lemma GrepTwiceStable(files: map<Path, Transcription>, pattern: string, file: Path, content: seq<byte>, root: string,
                        sha1: seq<byte> -> string, transcribe: (Path, Option<string>) -> Transcription, backend: Option<string>)
    requires HexDigest(sha1(content))
    ensures var first := GrepSpec(files, pattern, file, content, root, sha1, transcribe, backend);
      GrepSpec(first.1, pattern, file, content, root, sha1, transcribe, backend) == first
  {
    CacheIsNotSidecar(root, sha1(content), file);
  }

  // ---------------------------------------------------------------------
  // transcribe_cmd
  // ---------------------------------------------------------------------

  /** What `transcribe_cmd` reports for a file it skips. */
  datatype Notice = AlreadyExists(srt: Path) | NotMedia(file: Path)

  predicate IsMedia(mime: string)
  {
    StartsWith(mime, "video/") || StartsWith(mime, "audio/")
  }

  /**
   * One file of `transcribe_cmd`: an existing sidecar is kept unless
   * overwriting (checked before the MIME type), a file that is neither
   * video nor audio is skipped, anything else gets its sidecar written.
   */
  function TranscribeOne(files: map<Path, Transcription>, file: Path, overwrite: bool, mime: Path -> string,
                         tr: Path -> Transcription): (r: (map<Path, Transcription>, Option<Notice>))
    ensures r.1.None? <==> (Sidecar(file) !in files || overwrite) && IsMedia(mime(file))
    ensures r.1.None? ==> r.0 == files[Sidecar(file) := tr(file)]
    ensures r.1.Some? ==> r.0 == files
  {
    var srt := Sidecar(file);
    if srt in files && !overwrite then (files, Some(AlreadyExists(srt)))
    else if !IsMedia(mime(file)) then (files, Some(NotMedia(file)))
    else (files[srt := tr(file)], None)
  }

  /** `transcribe_cmd` over the files the targets yield, in order. */
  function TranscribeAll(files: map<Path, Transcription>, targets: seq<Path>, overwrite: bool, mime: Path -> string,
                         tr: Path -> Transcription): (r: (map<Path, Transcription>, seq<Notice>))
    ensures files.Keys <= r.0.Keys
    decreases |targets|
  {
    if targets == [] then (files, [])
    else
      var before := TranscribeAll(files, targets[..|targets| - 1], overwrite, mime, tr);
      var step := TranscribeOne(before.0, targets[|targets| - 1], overwrite, mime, tr);
      (step.0, before.1 + (if step.1.Some? then [step.1.value] else []))
  }

  /** The MIME type of a file whose sidecar already exists is never looked at. */
  lemma ExistingSidecarSkipsMime(files: map<Path, Transcription>, file: Path, mime1: Path -> string, mime2: Path -> string,
                                 tr: Path -> Transcription)
    requires Sidecar(file) in files
    ensures TranscribeOne(files, file, false, mime1, tr) == TranscribeOne(files, file, false, mime2, tr)
          == (files, Some(AlreadyExists(Sidecar(file))))
  {
  }

  /** Without `--overwrite`, every file that already existed keeps its content. */
  lemma {:induction false} NoOverwriteKeepsFiles(files: map<Path, Transcription>, targets: seq<Path>, mime: Path -> string,
                                                 tr: Path -> Transcription)
    ensures var after := TranscribeAll(files, targets, false, mime, tr).0;
      forall p :: p in files ==> after[p] == files[p]
    decreases |targets|
  {
    if targets != [] {
      NoOverwriteKeepsFiles(files, targets[..|targets| - 1], mime, tr);
    }
  }

  /** After the command every media file it was given has a sidecar. */
  lemma {:induction false} MediaGetSidecars(files: map<Path, Transcription>, targets: seq<Path>, overwrite: bool,
                                            mime: Path -> string, tr: Path -> Transcription)
    ensures var after := TranscribeAll(files, targets, overwrite, mime, tr).0;
      forall i :: 0 <= i < |targets| && IsMedia(mime(targets[i])) ==> Sidecar(targets[i]) in after
    decreases |targets|
  {
    if targets != [] {
      var init := targets[..|targets| - 1];
      MediaGetSidecars(files, init, overwrite, mime, tr);
      forall i | 0 <= i < |targets| - 1 ensures targets[i] == init[i] { }
    }
  }

  /** `v` is what transcribing one of the media `targets` writes to `p`. */
  ghost predicate WrittenFor(p: Path, v: Transcription, targets: seq<Path>, mime: Path -> string, tr: Path -> Transcription)
  {
    exists i :: 0 <= i < |targets| && IsMedia(mime(targets[i])) && p == Sidecar(targets[i]) && v == tr(targets[i])
  }

  lemma WrittenForSnoc(p: Path, v: Transcription, targets: seq<Path>, mime: Path -> string, tr: Path -> Transcription)
    requires targets != []
    requires WrittenFor(p, v, targets[..|targets| - 1], mime, tr)
      || (IsMedia(mime(targets[|targets| - 1])) && p == Sidecar(targets[|targets| - 1]) && v == tr(targets[|targets| - 1]))
    ensures WrittenFor(p, v, targets, mime, tr)
  {
    var init := targets[..|targets| - 1];
    if WrittenFor(p, v, init, mime, tr) {
      var i :| 0 <= i < |init| && IsMedia(mime(init[i])) && p == Sidecar(init[i]) && v == tr(init[i]);
      assert targets[i] == init[i];
    }
  }

  /** Only sidecars of the files given are written, and only media files get one written. */
  lemma {:induction false} OnlySidecarsWritten(files: map<Path, Transcription>, targets: seq<Path>, overwrite: bool,
                                               mime: Path -> string, tr: Path -> Transcription)
    ensures var after := TranscribeAll(files, targets, overwrite, mime, tr).0;
      forall p :: p in after && (p !in files || after[p] != files[p]) ==> WrittenFor(p, after[p], targets, mime, tr)
    decreases |targets|
  {
    if targets != [] {
      var init := targets[..|targets| - 1];
      OnlySidecarsWritten(files, init, overwrite, mime, tr);
      var before := TranscribeAll(files, init, overwrite, mime, tr).0;
      var last := targets[|targets| - 1];
      var step := TranscribeOne(before, last, overwrite, mime, tr);
      var after := TranscribeAll(files, targets, overwrite, mime, tr).0;
      assert after == step.0;
      forall p | p in after && (p !in files || after[p] != files[p])
        ensures WrittenFor(p, after[p], targets, mime, tr)
      {
        if step.1.None? && p == Sidecar(last) {
          WrittenForSnoc(p, after[p], targets, mime, tr);
        } else {
          assert p in before && after[p] == before[p];
          WrittenForSnoc(p, after[p], targets, mime, tr);
        }
      }
    }
  }

  lemma TranscribeAllSnoc(files: map<Path, Transcription>, targets: seq<Path>, i: nat, overwrite: bool,
                          mime: Path -> string, tr: Path -> Transcription)
    requires i < |targets|
    ensures var before := TranscribeAll(files, targets[..i], overwrite, mime, tr);
      var step := TranscribeOne(before.0, targets[i], overwrite, mime, tr);
      TranscribeAll(files, targets[..i + 1], overwrite, mime, tr)
        == (step.0, before.1 + (if step.1.Some? then [step.1.value] else []))
  {
    assert targets[..i + 1][..i] == targets[..i];
  }

  /** `transcribe_cmd`, with the files the targets yield and the notices it prints. */
  method TranscribeCmd(store: Store, targets: seq<Path>, overwrite: bool, mime: Path -> string, tr: Path -> Transcription)
    returns (notices: seq<Notice>)
    modifies store
    ensures (store.files, notices) == TranscribeAll(old(store.files), targets, overwrite, mime, tr)
  {
    notices := [];
    ghost var files0 := store.files;
    for i := 0 to |targets|
      invariant store.files == TranscribeAll(files0, targets[..i], overwrite, mime, tr).0
      invariant notices == TranscribeAll(files0, targets[..i], overwrite, mime, tr).1
    {
      TranscribeAllSnoc(files0, targets, i, overwrite, mime, tr);
      ghost var step := TranscribeOne(store.files, targets[i], overwrite, mime, tr);
      ghost var notices0 := notices;
      var audiofp := targets[i];
      var srtfp := Sidecar(audiofp);
      if srtfp in store.files && !overwrite {
        notices := notices + [AlreadyExists(srtfp)];
      } else if !IsMedia(mime(audiofp)) {
        notices := notices + [NotMedia(audiofp)];
      } else {
        store.files := store.files[srtfp := tr(audiofp)];
      }
      assert store.files == step.0 && notices == notices0 + (if step.1.Some? then [step.1.value] else []);
    }
    assert targets[..|targets|] == targets;
  }
}
