/**
 * `ocdutils/metadata/handlers.py`: reading and writing a file's date
 * metadata, from its EXIF tags or its stat times. Datetimes are seconds;
 * `piexif.load`, `strptime` and `strftime` are oracles given as values.
 */
module MetadataHandlers {
  import opened Common
  import opened Strings
  import opened Paths
  import FsOps

  /** The dataclasses of `ocdutils/metadata/types.py`. */
  datatype ExifMetadata = ExifMetadata(datetime: int)
  datatype StatMetadata = StatMetadata(access: int, modification: int, creation: int)
  datatype Metadata = Metadata(exif: Option<ExifMetadata>, stat: Option<StatMetadata>)

  datatype HandlerError =
    | BackendMissing(path: Path)
    | MetadataRead                        // piexif refused the file
    | MetadataNotFound
    | Mismatch(original: Option<int>, digitized: Option<int>)  // the ValueError of `get`
    | NameError(name: string)
    | NotImplemented                      // the abstract `get`/`set` of `_BaseHandler`
    | AttributeError                      // an attribute of `None` was used
    | TypeError                           // a string passed as seconds to `timedelta`
    | BadDatetime(text: string)           // `strptime` refused the text
    | FileNotFound(path: Path)

  // ---------------------------------------------------------------------
  // ExifHandler and Factory
  // ---------------------------------------------------------------------

  datatype Backend = ExifJpeg | ExifVideo

  /** The table of `ExifHandler`, keyed by the lower-case extension. */
  const Backends: map<string, Backend> :=
    map["jpeg" := ExifJpeg, "jpg" := ExifJpeg, "m4v" := ExifVideo, "mov" := ExifVideo, "mp4" := ExifVideo]

  /** `tbl[ext]`, a missing key being None. */
  function BackendFor(ext: string): Option<Backend>
  {
    if ext in Backends then Some(Backends[ext]) else None
  }

  /** The JPEG backend exactly for `jpeg` and `jpg`, the video backend exactly for the three video extensions. */
  lemma BackendTable(ext: string)
    ensures BackendFor(ext) == Some(ExifJpeg) <==> ext == "jpeg" || ext == "jpg"
    ensures BackendFor(ext) == Some(ExifVideo) <==> ext == "m4v" || ext == "mov" || ext == "mp4"
    ensures BackendFor(ext).None? <==> ext !in {"jpeg", "jpg", "m4v", "mov", "mp4"}
  {
  }

  /** A handler, with the options the JPEG backend takes. */
  datatype Handler =
    | Jpeg(path: Path, ignoreMismatch: bool, overwriteOriginal: bool)
    | Video(path: Path)
    | Stat(path: Path)

  /** `ExifHandler`: the backend for the file's extension, whatever its case. */
  function ExifHandler(p: Path, ignoreMismatch: bool, overwriteOriginal: bool): (r: Result<Handler, HandlerError>)
    ensures r.Err? <==> BackendFor(Lower(Extension(p))).None?
    ensures r.Err? ==> r.error == BackendMissing(p)
    ensures r.Ok? ==> r.value.path == p
    ensures r.Ok? && r.value.Jpeg? ==> r.value.ignoreMismatch == ignoreMismatch && r.value.overwriteOriginal == overwriteOriginal
  {
    match BackendFor(Lower(Extension(p)))
    case None => Err(BackendMissing(p))
    case Some(ExifJpeg) => Ok(Jpeg(p, ignoreMismatch, overwriteOriginal))
    case Some(ExifVideo) => Ok(Video(p))
  }

  /**
   * The handler depends on the path only through its lower-cased
   * extension: extensions that differ only in case get the same backend.
   */
  lemma ExifHandlerByKey(p: Path, ext: string, ignoreMismatch: bool, overwriteOriginal: bool)
    requires ext == Lower(Extension(p))
    ensures ExifHandler(p, ignoreMismatch, overwriteOriginal).Ok? <==> BackendFor(ext).Some?
    ensures ExifHandler(p, ignoreMismatch, overwriteOriginal).Ok? ==>
      (ExifHandler(p, ignoreMismatch, overwriteOriginal).value.Jpeg? <==> BackendFor(ext) == Some(ExifJpeg))
  {
  }

  /** `Factory`: `exif` and `stat` name a handler, any other name is refused. */
  function Factory(name: string, p: Path, ignoreMismatch: bool, overwriteOriginal: bool): (r: Result<Handler, HandlerError>)
    ensures name != "exif" && name != "stat" <==> r == Err(NameError(name))
    ensures name == "stat" ==> r == Ok(Stat(p))
    ensures name == "exif" ==> r == ExifHandler(p, ignoreMismatch, overwriteOriginal)
  {
    if name == "exif" then ExifHandler(p, ignoreMismatch, overwriteOriginal)
    else if name == "stat" then Ok(Stat(p))
    else Err(NameError(name))
  }

  // ---------------------------------------------------------------------
  // ExifJpegBackend.get
  // ---------------------------------------------------------------------

  /** The EXIF tags the backend touches, and any other. */
  datatype Tag =
    | DateTimeOriginal | DateTimeDigitized
    | OffsetTime | OffsetTimeOriginal | OffsetTimeDigitized
    | OtherTag(id: nat)

  /** What `piexif.load` gives: the sections (`0th`, `Exif`, ...) and their tags. */
  type ExifData = map<string, map<Tag, string>>

  const Day: int := 86400

  /**
   * `_get_dt`. As written, a missing tag is `None.decode` (an error, not
   * `None`), the text is parsed before the hour-24 fix, and a present
   * offset is passed as a string to `timedelta`. As intended, a missing
   * tag is `None`, hour 24 is turned into 00 of the next day before
   * parsing, and an offset that reads as an integer is added.
   */
  function GetDt(ifd: map<Tag, string>, dtTag: Tag, offsetTag: Tag, strptime: string -> Option<int>,
                 intOf: string -> Option<int>, reading: FsOps.Reading): (r: Result<Option<int>, HandlerError>)
    ensures reading == FsOps.Intended ==> (dtTag !in ifd <==> r == Ok(None))
    ensures reading == FsOps.AsWritten ==> (dtTag !in ifd <==> r == Err(AttributeError))
  {
    if dtTag !in ifd then (if reading == FsOps.AsWritten then Err(AttributeError) else Ok(None))
    else
      var text := ifd[dtTag];
      var shift := Find(text, " 24:") > 0;
      var parsed := if reading == FsOps.AsWritten || !shift then text else Replace(text, " 24:", " 00:");
      match strptime(parsed)
      case None => Err(BadDatetime(parsed))
      case Some(t) =>
        var dt := t + (if shift then Day else 0);
        var hasOffset := offsetTag in ifd && ifd[offsetTag] != [];
        if !hasOffset then Ok(Some(dt))
        else if reading == FsOps.AsWritten then Err(TypeError)
        else Ok(Some(dt + (if intOf(ifd[offsetTag]).Some? then intOf(ifd[offsetTag]).value else 0)))
  }

  /**
   * The end of `get`: no date at all is an error; dates that differ (one
   * of them missing counts) are an error unless the mismatch is ignored;
   * the original is preferred.
   */
  function ResolveDates(original: Option<int>, digitized: Option<int>, ignoreMismatch: bool): (r: Result<int, HandlerError>)
    ensures original.None? && digitized.None? <==> r == Err(MetadataNotFound)
    ensures r.Err? && r.error.Mismatch? <==> !ignoreMismatch && original != digitized && (original.Some? || digitized.Some?)
    ensures r.Ok? ==> r.value == if original.Some? then original.value else digitized.value
  {
    if original.None? && digitized.None? then Err(MetadataNotFound)
    else if original != digitized && !ignoreMismatch then Err(Mismatch(original, digitized))
    else if original.Some? then Ok(original.value)
    else Ok(digitized.value)
  }

  /** `ExifJpegBackend.get`: load, read the original date, then the digitized one, then resolve. */
  function JpegGet(load: Option<ExifData>, ignoreMismatch: bool, strptime: string -> Option<int>,
                   intOf: string -> Option<int>, reading: FsOps.Reading): (r: Result<int, HandlerError>)
    ensures load.None? ==> r == Err(MetadataRead)
    ensures load.Some? && "Exif" !in load.value ==> r == Err(NotFoundSection)
    ensures load.Some? && "Exif" in load.value ==>
      var o := GetDt(load.value["Exif"], DateTimeOriginal, OffsetTimeOriginal, strptime, intOf, reading);
      var d := GetDt(load.value["Exif"], DateTimeDigitized, OffsetTimeDigitized, strptime, intOf, reading);
      (o.Err? ==> r == Err(o.error))
      && (o.Ok? && d.Err? ==> r == Err(d.error))
      && (o.Ok? && d.Ok? ==> r == ResolveDates(o.value, d.value, ignoreMismatch))
  {
    if load.None? then Err(MetadataRead)
    else if "Exif" !in load.value then Err(NotFoundSection)
    else
      var ifd := load.value["Exif"];
      var o := GetDt(ifd, DateTimeOriginal, OffsetTimeOriginal, strptime, intOf, reading);
      if o.Err? then Err(o.error)
      else
        var d := GetDt(ifd, DateTimeDigitized, OffsetTimeDigitized, strptime, intOf, reading);
        if d.Err? then Err(d.error)
        else ResolveDates(o.value, d.value, ignoreMismatch)
  }

  /** `exif["Exif"]` without an `Exif` section: piexif always returns one, so this stands for its KeyError. */
  const NotFoundSection: HandlerError := MetadataNotFound

  /** As written, a file with only a digitized date fails on the missing original tag. */
  lemma MissingTagFailsAsWritten(load: ExifData, ignoreMismatch: bool, strptime: string -> Option<int>, intOf: string -> Option<int>)
    requires "Exif" in load && DateTimeOriginal !in load["Exif"]
    ensures JpegGet(Some(load), ignoreMismatch, strptime, intOf, FsOps.AsWritten) == Err(AttributeError)
  {
  }

  /** As intended, a file with only a digitized date gives that date when the mismatch is ignored. */
  lemma MissingTagIntended(load: ExifData, strptime: string -> Option<int>, intOf: string -> Option<int>)
    requires "Exif" in load && DateTimeOriginal !in load["Exif"] && DateTimeDigitized in load["Exif"]
    requires OffsetTimeDigitized !in load["Exif"] && Find(load["Exif"][DateTimeDigitized], " 24:") <= 0
    requires strptime(load["Exif"][DateTimeDigitized]).Some?
    ensures JpegGet(Some(load), true, strptime, intOf, FsOps.Intended) == Ok(strptime(load["Exif"][DateTimeDigitized]).value)
    ensures JpegGet(Some(load), false, strptime, intOf, FsOps.Intended)
         == Err(Mismatch(None, Some(strptime(load["Exif"][DateTimeDigitized]).value)))
  {
  }

  /**
   * As written, a date with hour 24 is handed to `strptime` unchanged; a
   * parser that refuses hour 24 makes the fix after it unreachable.
   */
  lemma Hour24FailsAsWritten(ifd: map<Tag, string>, strptime: string -> Option<int>, intOf: string -> Option<int>)
    requires DateTimeOriginal in ifd && Find(ifd[DateTimeOriginal], " 24:") > 0
    requires strptime(ifd[DateTimeOriginal]).None?
    ensures GetDt(ifd, DateTimeOriginal, OffsetTimeOriginal, strptime, intOf, FsOps.AsWritten)
         == Err(BadDatetime(ifd[DateTimeOriginal]))
  {
  }

  /** As intended, hour 24 is read as 00 of the next day. */
  lemma Hour24Intended(ifd: map<Tag, string>, strptime: string -> Option<int>, intOf: string -> Option<int>)
    requires DateTimeOriginal in ifd && Find(ifd[DateTimeOriginal], " 24:") > 0 && OffsetTimeOriginal !in ifd
    requires strptime(Replace(ifd[DateTimeOriginal], " 24:", " 00:")).Some?
    ensures GetDt(ifd, DateTimeOriginal, OffsetTimeOriginal, strptime, intOf, FsOps.Intended)
         == Ok(Some(strptime(Replace(ifd[DateTimeOriginal], " 24:", " 00:")).value + Day))
  {
  }

  /** As written, any non-empty offset tag fails in `timedelta`. */
  lemma OffsetFailsAsWritten(ifd: map<Tag, string>, strptime: string -> Option<int>, intOf: string -> Option<int>)
    requires DateTimeOriginal in ifd && OffsetTimeOriginal in ifd && ifd[OffsetTimeOriginal] != []
    requires strptime(ifd[DateTimeOriginal]).Some?
    ensures GetDt(ifd, DateTimeOriginal, OffsetTimeOriginal, strptime, intOf, FsOps.AsWritten) == Err(TypeError)
  {
  }

  /** As intended, an offset that reads as a number of seconds is added to the date. */
  lemma OffsetIntended(ifd: map<Tag, string>, strptime: string -> Option<int>, intOf: string -> Option<int>)
    requires DateTimeOriginal in ifd && OffsetTimeOriginal in ifd && ifd[OffsetTimeOriginal] != []
    requires intOf(ifd[OffsetTimeOriginal]).Some?
    requires Find(ifd[DateTimeOriginal], " 24:") <= 0 && strptime(ifd[DateTimeOriginal]).Some?
    ensures GetDt(ifd, DateTimeOriginal, OffsetTimeOriginal, strptime, intOf, FsOps.Intended)
         == Ok(Some(strptime(ifd[DateTimeOriginal]).value + intOf(ifd[OffsetTimeOriginal]).value))
  {
  }

  // ---------------------------------------------------------------------
  // ExifJpegBackend.set
  // ---------------------------------------------------------------------

  /** The offset tags `set` removes. */
  const OffsetTags: seq<Tag> := [OffsetTime, OffsetTimeOriginal, OffsetTimeDigitized]

  /** The `Exif` section `set` writes, given the formatted date. */
  function Written(ifd: map<Tag, string>, text: string, overwriteOriginal: bool): (r: map<Tag, string>)
    ensures r.Keys == (ifd.Keys + {DateTimeDigitized} + (if overwriteOriginal then {DateTimeOriginal} else {}))
                      - {OffsetTime, OffsetTimeOriginal, OffsetTimeDigitized}
  {
    var stamped := ifd[DateTimeDigitized := text];
    var both := if overwriteOriginal then stamped[DateTimeOriginal := text] else stamped;
    both - {OffsetTime, OffsetTimeOriginal, OffsetTimeDigitized}
  }

  /** `set` stamps the digitized date, the original only when asked, drops the offsets and keeps every other tag. */
  lemma WrittenTags(ifd: map<Tag, string>, text: string, overwriteOriginal: bool)
    ensures Written(ifd, text, overwriteOriginal)[DateTimeDigitized] == text
    ensures overwriteOriginal ==> Written(ifd, text, overwriteOriginal)[DateTimeOriginal] == text
    ensures !overwriteOriginal ==>
      (DateTimeOriginal in Written(ifd, text, overwriteOriginal) <==> DateTimeOriginal in ifd)
    ensures !overwriteOriginal && DateTimeOriginal in ifd ==>
      Written(ifd, text, overwriteOriginal)[DateTimeOriginal] == ifd[DateTimeOriginal]
    ensures forall t :: t in ifd && t.OtherTag? ==> t in Written(ifd, text, overwriteOriginal) && Written(ifd, text, overwriteOriginal)[t] == ifd[t]
  {
  }

  /**
   * `ExifJpegBackend.set`: without EXIF metadata nothing is read; otherwise
   * the loaded data, with an `Exif` section created if missing, and that
   * section rewritten. The result is what `piexif.insert` writes back.
   */
  method JpegSet(metadata: Metadata, load: Option<ExifData>, overwriteOriginal: bool, strftime: int -> string)
    returns (r: Result<ExifData, HandlerError>)
    ensures metadata.exif.None? ==> r == Err(MetadataNotFound)
    ensures metadata.exif.Some? && load.None? ==> r == Err(MetadataRead)
    ensures metadata.exif.Some? && load.Some? ==>
      var ifd := if "Exif" in load.value then load.value["Exif"] else map[];
      r == Ok(load.value["Exif" := Written(ifd, strftime(metadata.exif.value.datetime), overwriteOriginal)])
  {
    if metadata.exif.None? {
      return Err(MetadataNotFound);
    }
    if load.None? {
      return Err(MetadataRead);
    }
    var data := load.value;
    if "Exif" !in data {
      data := data["Exif" := map[]];
    }
    var text := strftime(metadata.exif.value.datetime);
    var ifd := data["Exif"][DateTimeDigitized := text];
    if overwriteOriginal {
      ifd := ifd[DateTimeOriginal := text];
    }
    ghost var stamped := ifd;
    for i := 0 to |OffsetTags|
      invariant ifd.Keys <= stamped.Keys
      invariant forall t :: t in stamped ==> (t in ifd <==> t !in OffsetTags[..i])
      invariant forall t :: t in ifd ==> ifd[t] == stamped[t]
    {
      assert OffsetTags[..i + 1] == OffsetTags[..i] + [OffsetTags[i]];
      ifd := ifd - {OffsetTags[i]};
    }
    assert OffsetTags[..|OffsetTags|] == [OffsetTime, OffsetTimeOriginal, OffsetTimeDigitized];
    assert ifd == stamped - {OffsetTime, OffsetTimeOriginal, OffsetTimeDigitized};
    ghost var base := if "Exif" in load.value then load.value["Exif"] else map[];
    assert data["Exif"] == base;
    assert ifd == Written(base, text, overwriteOriginal);
    assert data["Exif" := ifd] == load.value["Exif" := ifd];
    return Ok(data["Exif" := ifd]);
  }

  /**
   * With the original overwritten, reading back what `set` wrote gives
   * the date that was set, on either reading of `get`.
   */
  lemma SetThenGet(load: ExifData, dt: int, ignoreMismatch: bool, strftime: int -> string,
                   strptime: string -> Option<int>, intOf: string -> Option<int>, reading: FsOps.Reading)
    requires strptime(strftime(dt)) == Some(dt) && Find(strftime(dt), " 24:") <= 0
    ensures var ifd := if "Exif" in load then load["Exif"] else map[];
      var written := load["Exif" := Written(ifd, strftime(dt), true)];
      JpegGet(Some(written), ignoreMismatch, strptime, intOf, reading) == Ok(dt)
  {
  }

  // ---------------------------------------------------------------------
  // StatHandler
  // ---------------------------------------------------------------------

  /** The stat times of each existing file. */
  type Times = map<Path, StatMetadata>

  /** `StatHandler.get`. */
  function StatGet(times: Times, p: Path): (r: Result<Metadata, HandlerError>)
    ensures r.Err? <==> p !in times
    ensures r.Ok? ==> r.value.exif.None? && r.value.stat == Some(times[p])
  {
    if p !in times then Err(FileNotFound(p)) else Ok(Metadata(None, Some(times[p])))
  }

  /**
   * `StatHandler.set`: `os.utime` with the access and modify times. The
   * creation time given is not written; `st_ctime`, which POSIX updates on
   * any change of a file's status, becomes `now`, the time of the call.
   */
  function StatSet(times: Times, p: Path, metadata: Metadata, now: int): (r: Result<Times, HandlerError>)
    ensures metadata.stat.None? ==> r == Err(AttributeError)
    ensures metadata.stat.Some? && p !in times ==> r == Err(FileNotFound(p))
    ensures r.Ok? ==> r.value.Keys == times.Keys && forall q :: q in times && q != p ==> r.value[q] == times[q]
  {
    if metadata.stat.None? then Err(AttributeError)
    else if p !in times then Err(FileNotFound(p))
    else
      var st := metadata.stat.value;
      Ok(times[p := StatMetadata(st.access, st.modification, now)])
  }

  /**
   * Reading back after `set` gives the access and modify times set, and as
   * `st_ctime` the time of the call, not the creation time passed in.
   */
  lemma StatSetThenGet(times: Times, p: Path, metadata: Metadata, now: int)
    requires metadata.stat.Some? && p in times
    ensures var after := StatSet(times, p, metadata, now);
      after.Ok? && StatGet(after.value, p) == Ok(Metadata(None, Some(StatMetadata(
        metadata.stat.value.access, metadata.stat.value.modification, now))))
  {
  }

  /** The creation time given to `set` changes nothing. */
  lemma StatSetIgnoresCreation(times: Times, p: Path, st: StatMetadata, creation: int, now: int)
    ensures StatSet(times, p, Metadata(None, Some(st)), now) ==
            StatSet(times, p, Metadata(None, Some(StatMetadata(st.access, st.modification, creation))), now)
  {
  }

  // ---------------------------------------------------------------------
  // Dispatch
  // ---------------------------------------------------------------------

  /** `handler.get()`: the video backend has no `get` of its own. */
  function HandlerGet(h: Handler, load: Option<ExifData>, times: Times, strptime: string -> Option<int>,
                      intOf: string -> Option<int>, reading: FsOps.Reading): (r: Result<Metadata, HandlerError>)
    ensures h.Video? ==> r == Err(NotImplemented)
    ensures h.Stat? ==> r == StatGet(times, h.path)
    ensures h.Jpeg? ==> (r.Ok? <==> JpegGet(load, h.ignoreMismatch, strptime, intOf, reading).Ok?)
    ensures h.Jpeg? && r.Ok? ==> r.value.exif == Some(ExifMetadata(JpegGet(load, h.ignoreMismatch, strptime, intOf, reading).value))
  {
    match h
    case Video(_) => Err(NotImplemented)
    case Stat(p) => StatGet(times, p)
    case Jpeg(_, ignoreMismatch, _) =>
      match JpegGet(load, ignoreMismatch, strptime, intOf, reading)
      case Err(e) => Err(e)
      case Ok(dt) => Ok(Metadata(Some(ExifMetadata(dt)), None))
  }
}
