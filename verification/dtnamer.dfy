/**
 * `ocdutils/dtnamer.py`: where a photo's date comes from (EXIF tags, the
 * file name) and how a file is renamed after it. Datetimes are seconds;
 * `strptime`, `strftime` and `int()` are oracles.
 */
module DtNamer {
  import opened Common
  import opened Strings
  import opened Paths
  import FsOps

  // ---------------------------------------------------------------------
  // validate_format
  // ---------------------------------------------------------------------

  /** The directives of `NameHandler._tbl`, in its order. */
  const Directives: seq<char> := ['d', 'H', 'M', 'm', 'S', 's', 'Y', 'y']

  predicate IsDirective(c: char)
  {
    c == 'd' || c == 'H' || c == 'M' || c == 'm' || c == 'S' || c == 's' || c == 'Y' || c == 'y'
  }

  lemma DirectivesListed(c: char)
    ensures IsDirective(c) <==> c in Directives
  {
  }

  /** The errors of `validate_format`: a `%` at the end, or an unknown directive. */
  datatype FormatError = Trailing | Unknown(directive: string)

  /** The scan of `validate_format`: a `%` and the character after it are taken together. */
  function Validate(fmt: string): (r: Result<(), FormatError>)
    decreases |fmt|
  {
    if fmt == [] then Ok(())
    else if fmt[0] != '%' then Validate(fmt[1..])
    else if |fmt| == 1 then Err(Trailing)
    else if fmt[1] != '%' && !IsDirective(fmt[1]) then Err(Unknown(['%', fmt[1]]))
    else Validate(fmt[2..])
  }

  /** `validate_format`. */
  method ValidateFormat(fmt: string) returns (r: Result<(), FormatError>)
    ensures r == Validate(fmt)
  {
    var i := 0;
    while i < |fmt|
      invariant 0 <= i <= |fmt|
      invariant Validate(fmt[i..]) == Validate(fmt)
    {
      if fmt[i] == '%' {
        if i + 1 >= |fmt| {
          return Err(Trailing);
        }
        var param := fmt[i + 1];
        if param != '%' && !IsDirective(param) {
          return Err(Unknown(['%', param]));
        }
        assert fmt[i..][2..] == fmt[i + 2..];
        i := i + 2;
      } else {
        assert fmt[i..][1..] == fmt[i + 1..];
        i := i + 1;
      }
    }
    return Ok(());
  }

  /** A unit of an accepted format: a plain character, `%%`, or `%` and a directive. */
  predicate Token(t: string)
  {
    (|t| == 1 && t[0] != '%') || (|t| == 2 && t[0] == '%' && (t[1] == '%' || IsDirective(t[1])))
  }

  function Concat(ts: seq<string>): string
  {
    if ts == [] then [] else ts[0] + Concat(ts[1..])
  }

  /** The tokens the scan reads an accepted format as. */
  function Tokenize(fmt: string): (ts: seq<string>)
    requires Validate(fmt).Ok?
    ensures Concat(ts) == fmt
    ensures forall i :: 0 <= i < |ts| ==> Token(ts[i])
    decreases |fmt|
  {
    if fmt == [] then []
    else if fmt[0] != '%' then
      assert [fmt[0]] + fmt[1..] == fmt;
      [[fmt[0]]] + Tokenize(fmt[1..])
    else
      assert fmt[..2] + fmt[2..] == fmt;
      [fmt[..2]] + Tokenize(fmt[2..])
  }

  /** Any sequence of tokens is accepted: with `Tokenize`, a format is accepted iff it is made of tokens. */
  lemma {:induction false} TokensAccepted(ts: seq<string>)
    requires forall i :: 0 <= i < |ts| ==> Token(ts[i])
    ensures Validate(Concat(ts)) == Ok(())
  {
    if ts != [] {
      TokensAccepted(ts[1..]);
      var rest := Concat(ts[1..]);
      var s := ts[0] + rest;
      if |ts[0]| == 1 {
        assert s[1..] == rest;
      } else {
        assert s[2..] == rest;
      }
    }
  }

  /** After an accepted prefix, a lone `%` at the end is refused. */
  lemma {:induction false} TrailingRefused(fmt: string)
    requires Validate(fmt).Ok?
    ensures Validate(fmt + "%") == Err(Trailing)
    decreases |fmt|
  {
    if fmt != [] {
      var s := fmt + "%";
      if fmt[0] != '%' {
        assert s[1..] == fmt[1..] + "%";
        TrailingRefused(fmt[1..]);
      } else {
        assert s[2..] == fmt[2..] + "%";
        TrailingRefused(fmt[2..]);
      }
    }
  }

  /** After an accepted prefix, `%` and a character that is neither `%` nor a directive is refused with that pair. */
  lemma {:induction false} UnknownRefused(fmt: string, c: char, rest: string)
    requires Validate(fmt).Ok? && c != '%' && !IsDirective(c)
    ensures Validate(fmt + ['%', c] + rest) == Err(Unknown(['%', c]))
    decreases |fmt|
  {
    var s := fmt + ['%', c] + rest;
    if fmt == [] {
      assert s[0] == '%' && s[1] == c;
    } else if fmt[0] != '%' {
      assert s[1..] == fmt[1..] + ['%', c] + rest;
      UnknownRefused(fmt[1..], c, rest);
    } else {
      assert s[2..] == fmt[2..] + ['%', c] + rest;
      UnknownRefused(fmt[2..], c, rest);
    }
  }

  // ---------------------------------------------------------------------
  // regexify_fmt
  // ---------------------------------------------------------------------

  /** The regular expression `_tbl` gives each directive. */
  function Pattern(k: char): string
  {
    if k == 's' then "\\d+" else if k == 'Y' || k == 'y' then "\\d{4}" else "\\d{2}"
  }

  /** `(?P<k>pattern)`. */
  function Group(k: char): (g: string)
    ensures |g| > 0 && g[0] == '('
    ensures k != '%' ==> '%' !in g
  {
    assert '%' !in "(?P<" && '%' !in ">" && '%' !in ")" && '%' !in Pattern(k);
    "(?P<" + [k] + ">" + Pattern(k) + ")"
  }

  /** `fmt.replace('%' + k, group)` for each directive in table order. */
  function ReplaceDirectives(fmt: string, keys: seq<char>): string
    decreases |keys|
  {
    if keys == [] then fmt else ReplaceDirectives(Replace(fmt, ['%', keys[0]], Group(keys[0])), keys[1..])
  }

  /** `regexify_fmt`: validate, then replace each directive by its named group. */
  method RegexifyFmt(fmt: string) returns (r: Result<string, FormatError>)
    ensures Validate(fmt).Err? ==> r == Err(Validate(fmt).error)
    ensures Validate(fmt).Ok? ==> r == Ok(ReplaceDirectives(fmt, Directives))
  {
    var v := ValidateFormat(fmt);
    if v.Err? {
      return Err(v.error);
    }
    var s := fmt;
    for i := 0 to |Directives|
      invariant ReplaceDirectives(s, Directives[i..]) == ReplaceDirectives(fmt, Directives)
    {
      assert Directives[i..][1..] == Directives[i + 1..];
      s := Replace(s, ['%', Directives[i]], Group(Directives[i]));
    }
    return Ok(s);
  }

  /** A string whose only `%` is its first character, followed by `(`, holds no directive. */
  lemma NoDirectiveAfterGroup(s: string, k: char)
    requires |s| >= 2 && s[0] == '%' && s[1] == '(' && '%' !in s[1..] && k != '('
    ensures Replace(s, ['%', k], Group(k)) == s
  {
    assert !Contains(s, ['%', k]) by {
      forall i | 0 <= i && i + 2 <= |s| ensures !OccursAt(s, ['%', k], i) {
        if i == 0 {
          assert s[i..i + 2][1] == '(';
        } else {
          assert s[i..i + 2][0] == s[1..][i - 1];
        }
      }
    }
  }

  lemma {:induction false} ReplaceKeepsAll(s: string, keys: seq<char>)
    requires |s| >= 2 && s[0] == '%' && s[1] == '(' && '%' !in s[1..]
    requires forall i :: 0 <= i < |keys| ==> keys[i] != '('
    ensures ReplaceDirectives(s, keys) == s
  {
    if keys != [] {
      NoDirectiveAfterGroup(s, keys[0]);
      ReplaceKeepsAll(s, keys[1..]);
    }
  }

  /**
   * `%%d` is accepted as an escaped `%` followed by a plain `d`, yet the
   * replacement finds `%d` inside it and turns the `d` into a group.
   */
  lemma EscapedPercentRewritten()
    ensures Validate("%%d") == Ok(())
    ensures ReplaceDirectives("%%d", Directives) == "%" + Group('d')
  {
    EscapedDirective('d', Group('d'));
    var s := "%" + Group('d');
    assert s[1..] == Group('d');
    ReplaceKeepsAll(s, Directives[1..]);
  }

  /** `%%c` holds `%c` at index 1. */
  lemma EscapedDirective(c: char, g: string)
    requires c != '%'
    ensures Replace(['%', '%', c], ['%', c], g) == ['%'] + g
  {
    var s := ['%', '%', c];
    var p := ['%', c];
    assert s[..2][1] != p[1];
    assert s[1..] == p && s[1..][..2] == p && s[1..][2..] == [];
    assert Replace([], p, g) == [];
  }

  /**
   * The replacement as the scan reads the format: directives become
   * groups, `%%` becomes the single `%` that `strftime` writes for it, and
   * plain characters stay.
   */
  function RegexifyTokens(fmt: string): (r: string)
    requires Validate(fmt).Ok?
    decreases |fmt|
  {
    if fmt == [] then []
    else if fmt[0] != '%' then [fmt[0]] + RegexifyTokens(fmt[1..])
    else if fmt[1] == '%' then "%" + RegexifyTokens(fmt[2..])
    else Group(fmt[1]) + RegexifyTokens(fmt[2..])
  }

  /** Read by tokens, `%%d` is the literal `%d` a name formatted with it holds. */
  lemma EscapedPercentKept()
    ensures Validate("%%d") == Ok(())
    ensures RegexifyTokens("%%d") == "%d"
  {
    assert "%%d"[2..] == "d";
    assert "d"[1..] == [];
  }

  /** Two valid formats side by side make a valid format. */
  lemma {:induction false} ValidateConcat(a: string, b: string)
    requires Validate(a).Ok? && Validate(b).Ok?
    ensures Validate(a + b).Ok?
    decreases |a|
  {
    if a == [] {
      assert a + b == b;
    } else if a[0] != '%' {
      assert (a + b)[1..] == a[1..] + b;
      ValidateConcat(a[1..], b);
    } else {
      assert (a + b)[2..] == a[2..] + b;
      ValidateConcat(a[2..], b);
    }
  }

  /** Replacing by tokens works token by token: each token's output follows the previous ones'. */
  lemma {:induction false} RegexifyTokensConcat(a: string, b: string)
    requires Validate(a).Ok? && Validate(b).Ok?
    ensures Validate(a + b).Ok?
    ensures RegexifyTokens(a + b) == RegexifyTokens(a) + RegexifyTokens(b)
    decreases |a|
  {
    ValidateConcat(a, b);
    if a == [] {
      assert a + b == b;
    } else if a[0] != '%' {
      assert (a + b)[1..] == a[1..] + b;
      RegexifyTokensConcat(a[1..], b);
    } else {
      assert (a + b)[2..] == a[2..] + b;
      RegexifyTokensConcat(a[2..], b);
    }
  }

  /** A format without `%` is its own pattern, whichever way it is read. */
  lemma {:induction false} PlainFormat(fmt: string)
    requires '%' !in fmt
    ensures Validate(fmt).Ok? && RegexifyTokens(fmt) == fmt
    decreases |fmt|
  {
    if fmt != [] {
      assert fmt[0] != '%';
      PlainFormat(fmt[1..]);
    }
  }

  // ---------------------------------------------------------------------
  // NameHandler.set
  // ---------------------------------------------------------------------

  predicate IsDigit(c: char)
  {
    '0' <= c <= '9'
  }

  /** How many digits `s` starts with. */
  function DigitRun(s: string): (k: nat)
    ensures k <= |s|
    ensures forall i :: 0 <= i < k ==> IsDigit(s[i])
    ensures k < |s| ==> !IsDigit(s[k])
  {
    if s == [] || !IsDigit(s[0]) then 0 else 1 + DigitRun(s[1..])
  }

  /** `str(n)`. */
  function Decimal(n: nat): (r: string)
    ensures |r| > 0 && forall i :: 0 <= i < |r| ==> IsDigit(r[i])
  {
    if n < 10 then [('0' as int + n) as char] else Decimal(n / 10) + [('0' as int + n % 10) as char]
  }

  function DigitValue(c: char): nat
    requires IsDigit(c)
  {
    c as int - '0' as int
  }

  /** The number a string of digits denotes. */
  function DecimalValue(s: string): nat
    requires forall i :: 0 <= i < |s| ==> IsDigit(s[i])
  {
    if s == [] then 0 else 10 * DecimalValue(s[..|s| - 1]) + DigitValue(s[|s| - 1])
  }

  lemma {:induction false} DecimalRoundTrip(n: nat)
    ensures DecimalValue(Decimal(n)) == n
  {
    if n >= 10 {
      DecimalRoundTrip(n / 10);
      var d := Decimal(n);
      assert d[..|d| - 1] == Decimal(n / 10);
    }
  }

  /** Leading zeros do not change the value. */
  lemma {:induction false} LeadingZeros(z: nat, s: string)
    requires forall i :: 0 <= i < |s| ==> IsDigit(s[i])
    ensures var t := seq(z, _ => '0') + s;
      (forall i :: 0 <= i < |t| ==> IsDigit(t[i])) && DecimalValue(t) == DecimalValue(s)
    decreases |s|
  {
    var t := seq(z, _ => '0') + s;
    if s == [] {
      assert t == seq(z, _ => '0');
      AllZeros(z);
    } else {
      LeadingZeros(z, s[..|s| - 1]);
      assert t[..|t| - 1] == seq(z, _ => '0') + s[..|s| - 1];
    }
  }

  lemma {:induction false} AllZeros(z: nat)
    ensures DecimalValue(seq(z, _ => '0')) == 0
  {
    if z > 0 {
      AllZeros(z - 1);
      assert seq(z, _ => '0')[..z - 1] == seq(z - 1, _ => '0');
    }
  }

  /** `s` right-aligned in `width` with `fill` on the left. */
  function PadLeft(s: string, fill: char, width: nat): (r: string)
    ensures |r| == if |s| < width then width else |s|
    ensures r == seq(|r| - |s|, _ => fill) + s
  {
    if |s| < width then seq(width - |s|, _ => fill) + s else s
  }

  /** Python's integer format spec of digits: a leading `0` pads with zeros, the rest is the width. */
  function FormatIndex(spec: string, n: nat): (r: string)
    requires forall i :: 0 <= i < |spec| ==> IsDigit(spec[i])
  {
    if spec == [] then Decimal(n)
    else if spec[0] == '0' then PadLeft(Decimal(n), '0', DecimalValue(spec[1..]))
    else PadLeft(Decimal(n), ' ', DecimalValue(spec))
  }

  /** A zero-padded index reads back as the counter, at least as wide as asked. */
  lemma ZeroPaddedIndex(width: string, n: nat)
    requires forall i :: 0 <= i < |width| ==> IsDigit(width[i])
    ensures var r := FormatIndex(['0'] + width, n);
      |r| >= DecimalValue(width) && (forall i :: 0 <= i < |r| ==> IsDigit(r[i])) && DecimalValue(r) == n
  {
    assert (['0'] + width)[1..] == width;
    var d := Decimal(n);
    var r := FormatIndex(['0'] + width, n);
    LeadingZeros(|r| - |d|, d);
    DecimalRoundTrip(n);
  }

  /**
   * `re.sub(r'%([0-9]*)i', r'{_ocd_index:\1}', fmt).format(_ocd_index=n)`:
   * each `%<digits>i` becomes the counter formatted by the digits.
   */
  function IndexFormat(fmt: string, n: nat): string
    decreases |fmt|
  {
    if fmt == [] then []
    else if fmt[0] == '%' then
      var k := DigitRun(fmt[1..]);
      if 1 + k < |fmt| && fmt[1 + k] == 'i' then FormatIndex(fmt[1..1 + k], n) + IndexFormat(fmt[2 + k..], n)
      else [fmt[0]] + IndexFormat(fmt[1..], n)
    else [fmt[0]] + IndexFormat(fmt[1..], n)
  }

  /** A format without `%` carries no index. */
  lemma {:induction false} IndexFormatPlain(fmt: string, n: nat)
    requires '%' !in fmt
    ensures IndexFormat(fmt, n) == fmt
    decreases |fmt|
  {
    if fmt != [] {
      IndexFormatPlain(fmt[1..], n);
    }
  }

  /** The name `set` gives a file: the formatted date, and the file's own suffix. */
  function NewPath(p: Path, format: string, counter: nat, dt: int, strftime: (int, string) -> string): (r: Path)
    ensures r.parent == p.parent
  {
    Path(p.parent, strftime(dt, IndexFormat(format, counter)) + Suffix(p))
  }

  class NameHandler {
    const format: string
    /** `_counter`: the index of the next file named. */
    var counter: nat

    /** The default format is `%s`, the counter starts at 1. */
    constructor(format: string)
      ensures this.format == format && counter == 1
    {
      this.format := format;
      counter := 1;
    }

    /**
     * `set`: every call uses the current index and moves it on by one; a
     * rename is returned only when the name changes.
     */
    method Set(p: Path, dt: int, strftime: (int, string) -> string) returns (op: Option<FsOps.Operation>)
      modifies this
      ensures counter == old(counter) + 1
      ensures var np := NewPath(p, format, old(counter), dt, strftime);
        op == if np != p then Some(FsOps.Rename(p, np)) else None
    {
      var fmt := IndexFormat(format, counter);
      var name := strftime(dt, fmt);
      counter := counter + 1;
      var np := Path(p.parent, name + Suffix(p));
      if np != p {
        return Some(FsOps.Rename(p, np));
      }
      return None;
    }
  }

  // ---------------------------------------------------------------------
  // ExifHandler.get
  // ---------------------------------------------------------------------

  /** The tags of the EXIF IFD the handler reads. */
  datatype Tag = DateTimeOriginal | OffsetTimeOriginal | DateTimeDigitized | OffsetTimeDigitized

  datatype ExifError =
    | InvalidFileType                       // the file has no readable EXIF
    | RequiredDataNotFound                  // neither date tag is present
    | Mismatch(original: int, digitized: int)
    | BadDatetime(text: string)             // `strptime` refused the text

  const Day: int := 86400

  /**
   * Whether a tag's text gets the hour-24 fix and an extra day. As
   * written, `dt.find(' 24:')` is used as a truth value.
   */
  function ShiftsDay(dt: string, reading: FsOps.Reading): (r: bool)
    ensures reading == FsOps.Intended ==> (r <==> Contains(dt, " 24:"))
    ensures reading == FsOps.AsWritten ==> (r <==> Find(dt, " 24:") != 0)
  {
    if reading == FsOps.AsWritten then Find(dt, " 24:") != 0 else Find(dt, " 24:") != -1
  }

  /** One date tag: absent, or its text parsed with its offset and the hour-24 fix applied. */
  function TagTime(ifd: map<Tag, string>, dtTag: Tag, offsetTag: Tag, strptime: string -> Option<int>,
                   intOf: string -> Option<int>, reading: FsOps.Reading): (r: Result<Option<int>, ExifError>)
    ensures dtTag !in ifd <==> r == Ok(None)
  {
    if dtTag !in ifd then Ok(None)
    else
      var dt := ifd[dtTag];
      var offset := if offsetTag in ifd && intOf(ifd[offsetTag]).Some? then intOf(ifd[offsetTag]).value else 0;
      var shift := ShiftsDay(dt, reading);
      var text := if shift then Replace(dt, " 24:", " 00:") else dt;
      var delta := offset + (if shift then Day else 0);
      match strptime(text)
      case None => Err(BadDatetime(text))
      case Some(t) => Ok(Some(t + delta))
  }

  /**
   * The resolution at the end of `get`: neither date is an error, two
   * different dates are an error, otherwise the digitized date if there is
   * one, else the original.
   */
  function Resolve(original: Option<int>, digitized: Option<int>): (r: Result<int, ExifError>)
    ensures original.None? && digitized.None? <==> r == Err(RequiredDataNotFound)
    ensures r.Err? && r.error.Mismatch? <==> original.Some? && digitized.Some? && original.value != digitized.value
    ensures r.Ok? ==> (digitized.Some? && r.value == digitized.value) || (digitized.None? && original == Some(r.value))
  {
    if original.None? && digitized.None? then Err(RequiredDataNotFound)
    else if original.Some? && digitized.Some? && original.value != digitized.value then
      Err(Mismatch(original.value, digitized.value))
    else if digitized.Some? then Ok(digitized.value)
    else Ok(original.value)
  }

  /** `ExifHandler.get`: the original tag is read first, then the digitized one. */
  function ExifGet(exif: Option<map<Tag, string>>, strptime: string -> Option<int>, intOf: string -> Option<int>,
                   reading: FsOps.Reading): (r: Result<int, ExifError>)
    ensures exif.None? ==> r == Err(InvalidFileType)
  {
    if exif.None? then Err(InvalidFileType)
    else
      var o := TagTime(exif.value, DateTimeOriginal, OffsetTimeOriginal, strptime, intOf, reading);
      if o.Err? then Err(o.error)
      else
        var d := TagTime(exif.value, DateTimeDigitized, OffsetTimeDigitized, strptime, intOf, reading);
        if d.Err? then Err(d.error)
        else Resolve(o.value, d.value)
  }

  /** The table `get` fills: each entry's name, date tag and offset tag. */
  const Entries: seq<(string, Tag, Tag)> :=
    [("original", DateTimeOriginal, OffsetTimeOriginal), ("digitized", DateTimeDigitized, OffsetTimeDigitized)]

  /** `ExifHandler.get` as the loop that fills `t` and then resolves it. */
  method ExifHandlerGet(exif: Option<map<Tag, string>>, strptime: string -> Option<int>, intOf: string -> Option<int>,
                        reading: FsOps.Reading) returns (r: Result<int, ExifError>)
    ensures r == ExifGet(exif, strptime, intOf, reading)
  {
    if exif.None? {
      return Err(InvalidFileType);
    }
    var ifd := exif.value;
    var t: map<string, Option<int>> := map[];
    for i := 0 to |Entries|
      invariant i >= 1 ==>
        ("original" in t && TagTime(ifd, DateTimeOriginal, OffsetTimeOriginal, strptime, intOf, reading) == Ok(t["original"]))
      invariant i >= 2 ==>
        ("digitized" in t && TagTime(ifd, DateTimeDigitized, OffsetTimeDigitized, strptime, intOf, reading) == Ok(t["digitized"]))
    {
      assert Entries[i] == if i == 0 then ("original", DateTimeOriginal, OffsetTimeOriginal)
                           else ("digitized", DateTimeDigitized, OffsetTimeDigitized);
      var (key, dtTag, offsetTag) := Entries[i];
      var v := TagTime(ifd, dtTag, offsetTag, strptime, intOf, reading);
      if v.Err? {
        return Err(v.error);
      }
      t := t[key := v.value];
    }
    return Resolve(t["original"], t["digitized"]);
  }

  /**
   * As written, a tag without hour 24 still gets a day added, unless its
   * text begins with ` 24:`: an ordinary timestamp moves one day on.
   */
  lemma OrdinaryTagShiftedAsWritten(ifd: map<Tag, string>, strptime: string -> Option<int>, intOf: string -> Option<int>)
    requires DateTimeOriginal in ifd && OffsetTimeOriginal !in ifd
    requires !Contains(ifd[DateTimeOriginal], " 24:") && strptime(ifd[DateTimeOriginal]).Some?
    ensures TagTime(ifd, DateTimeOriginal, OffsetTimeOriginal, strptime, intOf, FsOps.AsWritten)
         == Ok(Some(strptime(ifd[DateTimeOriginal]).value + Day))
    ensures TagTime(ifd, DateTimeOriginal, OffsetTimeOriginal, strptime, intOf, FsOps.Intended)
         == Ok(Some(strptime(ifd[DateTimeOriginal]).value))
  {
  }

  /** Read as intended, a day is added exactly to tags whose hour is written as 24. */
  lemma Hour24Intended(ifd: map<Tag, string>, strptime: string -> Option<int>, intOf: string -> Option<int>)
    requires DateTimeOriginal in ifd && OffsetTimeOriginal !in ifd
    ensures var dt := ifd[DateTimeOriginal];
      var text := if Contains(dt, " 24:") then Replace(dt, " 24:", " 00:") else dt;
      TagTime(ifd, DateTimeOriginal, OffsetTimeOriginal, strptime, intOf, FsOps.Intended)
        == if strptime(text).None? then Err(BadDatetime(text))
           else Ok(Some(strptime(text).value + (if Contains(dt, " 24:") then Day else 0)))
  {
  }

  /** Both readings agree on a tag with hour 24 written after the date, where EXIF puts it. */
  lemma ReadingsAgreeOnHour24(dt: string)
    requires Find(dt, " 24:") > 0
    ensures ShiftsDay(dt, FsOps.AsWritten) && ShiftsDay(dt, FsOps.Intended)
  {
  }

  // ---------------------------------------------------------------------
  // extract_subarguments
  // ---------------------------------------------------------------------

  /** `extract_subarguments`: the options named `name_<k>` that are set, as (k, value), in order. */
  function ExtractSubarguments(args: seq<(string, Option<string>)>, name: string): (r: seq<(string, string)>)
    ensures |r| <= |args|
  {
    if args == [] then []
    else
      var prefix := name + "_";
      var (k, v) := args[0];
      (if StartsWith(k, prefix) && v.Some? then [(k[|prefix|..], v.value)] else [])
        + ExtractSubarguments(args[1..], name)
  }

  /** A pair comes out exactly when an option `name_<k>` holds that value. */
  lemma {:induction false} ExtractMeaning(args: seq<(string, Option<string>)>, name: string, k: string, v: string)
    ensures (k, v) in ExtractSubarguments(args, name) <==>
      exists i :: 0 <= i < |args| && args[i] == (name + "_" + k, Some(v))
  {
    if args != [] {
      ExtractMeaning(args[1..], name, k, v);
      var prefix := name + "_";
      if args[0] == (prefix + k, Some(v)) {
        assert (prefix + k)[..|prefix|] == prefix;
        assert (prefix + k)[|prefix|..] == k;
      }
      if StartsWith(args[0].0, prefix) && args[0].1.Some? && (args[0].0[|prefix|..], args[0].1.value) == (k, v) {
        assert args[0].0 == prefix + k;
      }
      forall i | 1 <= i < |args| ensures args[i] == args[1..][i - 1] { }
      if exists i :: 0 <= i < |args| && args[i] == (name + "_" + k, Some(v)) {
        var i :| 0 <= i < |args| && args[i] == (name + "_" + k, Some(v));
        if i > 0 {
          assert args[1..][i - 1] == args[i];
        }
      }
    }
  }
}
