/**
 * File paths as `pathlib.Path` sees them: a parent directory and a final
 * name, whose last dot (when it is neither the first nor the last
 * character) starts the suffix.
 */
module Paths {
  import opened Strings

  datatype Path = Path(parent: string, name: string)

  /** Index of the dot that starts the suffix, or -1 when there is none. */
  function SuffixDot(name: string): (r: int)
    ensures r == -1 || (0 < r < |name| - 1 && name[r] == '.')
    ensures r != -1 ==> forall j :: r < j < |name| ==> name[j] != '.'
  {
    var i := RFind(name, '.');
    if 0 < i < |name| - 1 then i else -1
  }

  /** `Path.suffix`: the last `.xxx` of the name, or "". */
  function Suffix(p: Path): (r: string)
    ensures r == [] || (|r| >= 2 && r[0] == '.' && '.' !in r[1..])
  {
    var i := SuffixDot(p.name);
    if i == -1 then [] else p.name[i..]
  }

  /** `Path.stem`: the name without its suffix. */
  function Stem(p: Path): (r: string)
  {
    var i := SuffixDot(p.name);
    if i == -1 then p.name else p.name[..i]
  }

  lemma StemSuffix(p: Path)
    ensures Stem(p) + Suffix(p) == p.name
  {
  }

  /** Python's `s.lstrip(".")`. */
  function LStripDots(s: string): (r: string)
    ensures |r| <= |s| && r == s[|s| - |r|..]
    ensures r == [] || r[0] != '.'
    ensures forall j :: 0 <= j < |s| - |r| ==> s[j] == '.'
  {
    if s != [] && s[0] == '.' then LStripDots(s[1..]) else s
  }

  /** `get_file_extension`: the suffix without its leading dot. */
  function Extension(p: Path): (r: string)
    ensures Suffix(p) == [] ==> r == []
    ensures Suffix(p) != [] ==> Suffix(p) == "." + r && r != [] && '.' !in r
  {
    var s := Suffix(p);
    StripSuffixDot(s);
    LStripDots(s)
  }

  lemma StripSuffixDot(s: string)
    requires s == [] || (|s| >= 2 && s[0] == '.' && '.' !in s[1..])
    ensures s != [] ==> LStripDots(s) == s[1..]
  {
    if s != [] {
      assert s[1..][0] in s[1..];
    }
  }

  /** `change_file_extension`: same parent, the stem, a dot, the new extension. */
  function ChangeExtension(p: Path, ext: string): (r: Path)
    ensures r.parent == p.parent
    ensures r.name == Stem(p) + "." + ext
  {
    Path(p.parent, Stem(p) + "." + ext)
  }

  /** A stem is never empty and never ends the name on a lone dot. */
  lemma StemNonEmpty(p: Path)
    requires p.name != []
    ensures Stem(p) != []
  {
  }

  /**
   * Changing the extension to a dot-free, non-empty one gives exactly that
   * suffix and keeps the stem.
   */
  lemma ChangeExtensionSuffix(p: Path, ext: string)
    requires p.name != [] && ext != [] && '.' !in ext
    ensures Suffix(ChangeExtension(p, ext)) == "." + ext
    ensures Stem(ChangeExtension(p, ext)) == Stem(p)
    ensures Extension(ChangeExtension(p, ext)) == ext
  {
    var n := Stem(p) + "." + ext;
    var k := |Stem(p)|;
    StemNonEmpty(p);
    assert n[k] == '.';
    forall j | k < j < |n| ensures n[j] != '.' {
      assert n[j] == ext[j - k - 1];
    }
    RFindIs(n, '.', k);
    assert n[..k] == Stem(p);
    assert n[k..] == "." + ext;
  }

  /** What a non-empty `Path.suffix` looks like: a dot, then one or more non-dot characters. */
  predicate SuffixShape(s: string)
  {
    |s| >= 2 && s[0] == '.' && '.' !in s[1..]
  }

  /** `parent / (stem + s)` has suffix `s` and the same stem, for any well-formed `s`. */
  lemma ReplaceSuffix(p: Path, s: string)
    requires p.name != [] && SuffixShape(s)
    ensures Suffix(Path(p.parent, Stem(p) + s)) == s
    ensures Stem(Path(p.parent, Stem(p) + s)) == Stem(p)
  {
    var n := Stem(p) + s;
    var k := |Stem(p)|;
    StemNonEmpty(p);
    assert n[k] == '.';
    forall j | k < j < |n| ensures n[j] != '.' {
      assert n[j] == s[1..][j - k - 1];
    }
    RFindIs(n, '.', k);
    assert n[..k] == Stem(p);
    assert n[k..] == s;
  }

  /** Lowercasing keeps a suffix well formed. */
  lemma LowerSuffixShape(s: string)
    requires SuffixShape(s)
    ensures SuffixShape(Lower(s))
  {
    var l := Lower(s);
    forall j | 1 <= j < |l| ensures l[j] != '.' {
      assert s[j] == s[1..][j - 1];
    }
    assert forall x :: x in l[1..] ==> exists j :: 1 <= j < |l| && l[j] == x;
  }

  /** Characters `_random_string` draws from. */
  const RandomAlphabet: string := "qwertyuiopasdfghjklzxcvbnm1234567890"

  /** A string `_random_string()` can return: 6 characters of the alphabet. */
  predicate RandomToken(t: string)
  {
    |t| == 6 && forall i :: 0 <= i < |t| ==> t[i] in RandomAlphabet
  }

  /** `alternative_filename`, with the random token supplied by the caller. */
  function AlternativeFilename(p: Path, token: string): (r: Path)
    ensures r.parent == p.parent
    ensures r.name == Stem(p) + "." + token + Suffix(p)
  {
    Path(p.parent, Stem(p) + "." + token + Suffix(p))
  }

  /**
   * An alternative name keeps parent and suffix and lengthens the stem by
   * ".token"; a name without suffix gets ".token" as its suffix.
   */
  lemma AlternativeFilenameShape(p: Path, token: string)
    requires p.name != [] && RandomToken(token)
    ensures Suffix(p) != [] ==> Suffix(AlternativeFilename(p, token)) == Suffix(p)
    ensures Suffix(p) != [] ==> Stem(AlternativeFilename(p, token)) == Stem(p) + "." + token
    ensures Suffix(p) == [] ==> Suffix(AlternativeFilename(p, token)) == "." + token
    ensures AlternativeFilename(p, token) != p
  {
    TokenHasNoDot(token);
    StemNonEmpty(p);
    StemSuffix(p);
    if Suffix(p) != [] {
      AlternativeWithSuffix(p, token);
    } else {
      AlternativeWithoutSuffix(p, token);
    }
    assert |AlternativeFilename(p, token).name| == |p.name| + 7;
  }

  lemma TokenHasNoDot(token: string)
    requires RandomToken(token)
    ensures '.' !in token
  {
    forall i | 0 <= i < |token| ensures token[i] != '.' {
      assert token[i] in RandomAlphabet;
    }
  }

  lemma AlternativeWithSuffix(p: Path, token: string)
    requires p.name != [] && Suffix(p) != [] && '.' !in token
    ensures Suffix(AlternativeFilename(p, token)) == Suffix(p)
    ensures Stem(AlternativeFilename(p, token)) == Stem(p) + "." + token
  {
    var a := AlternativeFilename(p, token);
    StemSuffix(p);
    var s := Suffix(p);
    var head := Stem(p) + "." + token;
    var k := |head|;
    assert a.name == head + s;
    assert a.name[k] == '.';
    forall j | k < j < |a.name| ensures a.name[j] != '.' {
      assert a.name[j] == s[j - k];
    }
    RFindIs(a.name, '.', k);
    assert a.name[..k] == head;
    assert a.name[k..] == s;
  }

  lemma AlternativeWithoutSuffix(p: Path, token: string)
    requires p.name != [] && Suffix(p) == [] && token != [] && '.' !in token
    ensures Suffix(AlternativeFilename(p, token)) == "." + token
  {
    var a := AlternativeFilename(p, token);
    StemNonEmpty(p);
    var m := |Stem(p)|;
    assert a.name == Stem(p) + "." + token;
    assert a.name[m] == '.';
    forall j | m < j < |a.name| ensures a.name[j] != '.' {
      assert a.name[j] == token[j - m - 1];
    }
    RFindIs(a.name, '.', m);
    assert a.name[m..] == "." + token;
  }

  /** `as_posix`: the parent and name joined by a slash. */
  function ToString(p: Path): (r: string)
    ensures p.parent == [] ==> r == p.name
    ensures p.parent != [] ==> r == p.parent + "/" + p.name
  {
    if p.parent == [] then p.name else p.parent + "/" + p.name
  }

  /** `os.path.splitext` on a bare file name: (root, ext). */
  function SplitExt(name: string): (r: (string, string))
    ensures r.0 + r.1 == name
    ensures r.1 == [] || (r.1[0] == '.' && '.' !in r.1[1..])
    ensures r.1 != [] ==> exists j :: 0 <= j < |r.0| && r.0[j] != '.'
  {
    var i := RFind(name, '.');
    if i > 0 && exists j :: 0 <= j < i && name[j] != '.' then
      assert name[..i] + name[i..] == name;
      (name[..i], name[i..])
    else (name, [])
  }

  /** `x.suffix.lower()[1:] in ["jpg", "jpeg"]`. */
  predicate IsJpeg(p: Path)
  {
    var s := Lower(Suffix(p));
    (if s == [] then s else s[1..]) in ["jpg", "jpeg"]
  }

  /** The JPEG files among `files`, in their order. */
  function JpegsOf(files: seq<Path>): (r: seq<Path>)
    ensures |r| <= |files|
    ensures forall p :: p in r <==> p in files && IsJpeg(p)
  {
    if files == [] then []
    else (if IsJpeg(files[0]) then [files[0]] else []) + JpegsOf(files[1..])
  }

  /** `[Path(root) / name for name in names]`. */
  function Under(root: string, names: seq<string>): (r: seq<Path>)
    ensures |r| == |names| && forall i :: 0 <= i < |names| ==> r[i] == Path(root, names[i])
  {
    if names == [] then [] else [Path(root, names[0])] + Under(root, names[1..])
  }
}
