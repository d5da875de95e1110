/**
 * Motion photos: a JPEG with an MP4 appended after a fixed marker. The
 * buffer is split at the first occurrence of the marker; rebuilding gives
 * image + marker + video, or just the image when there is no video.
 * The same container class appears in ocdutils/motionphotos.py:28-63 and
 * mediatools/motionphotos.py:41-76.
 */
module MotionPhotos {
  import opened Common
  import opened Strings
  import opened Paths
  import Disk

  /** The bytes of "MotionPhoto_Data". */
  const Marker: seq<byte> := [0x4D, 0x6F, 0x74, 0x69, 0x6F, 0x6E, 0x50, 0x68, 0x6F, 0x74, 0x6F, 0x5F, 0x44, 0x61, 0x74, 0x61]

  /** The image part and, when the marker is found, the video part. */
  datatype Split = Split(image: seq<byte>, video: Option<seq<byte>>)

  /** The constructor's split at the first occurrence of `marker`. */
  function Parse(buff: seq<byte>, marker: seq<byte>): (r: Split)
    ensures r.video.None? <==> !Contains(buff, marker)
    ensures r.video.None? ==> r.image == buff
    ensures r.video.Some? ==>
      OccursAt(buff, marker, |r.image|)
      && (forall j :: 0 <= j < |r.image| ==> !OccursAt(buff, marker, j))
      && buff == r.image + marker + r.video.value
  {
    var idx := Find(buff, marker);
    if idx >= 0 then
      assert buff == buff[..idx] + buff[idx..idx + |marker|] + buff[idx + |marker|..];
      Split(buff[..idx], Some(buff[idx + |marker|..]))
    else Split(buff, None)
  }

  /** `data`: image + marker + video when there is a video, otherwise the image. */
  function Data(s: Split, marker: seq<byte>): (r: seq<byte>)
    ensures s.video.None? ==> r == s.image
    ensures StartsWith(r, s.image)
  {
    match s.video
    case Some(v) => s.image + marker + v
    case None => s.image
  }

  /** Round trip: rebuilding a freshly parsed buffer gives the buffer back, with or without a marker. */
  lemma DataOfParse(buff: seq<byte>, marker: seq<byte>)
    ensures Data(Parse(buff, marker), marker) == buff
  {
  }

  /**
   * The other direction, with its exact condition: parsing
   * image + marker + video gives back the image and the video iff the
   * marker does not start inside the image.
   */
  lemma ParseOfData(image: seq<byte>, marker: seq<byte>, video: seq<byte>)
    requires forall j :: 0 <= j < |image| ==> !OccursAt(image + marker, marker, j)
    ensures Parse(image + marker + video, marker) == Split(image, Some(video))
  {
    var buff := image + marker + video;
    assert OccursAt(buff, marker, |image|) by {
      assert buff[|image|..|image| + |marker|] == marker;
    }
    forall j | 0 <= j < |image|
      ensures !OccursAt(buff, marker, j)
    {
      if OccursAt(buff, marker, j) {
        assert buff[j..j + |marker|] == (image + marker)[j..j + |marker|];
        assert OccursAt(image + marker, marker, j);
      }
    }
    var r := Parse(buff, marker);
    assert |r.image| == |image|;
    assert buff[..|image|] == image;
    assert buff[|image| + |marker|..] == video;
  }

  /** A marker none of whose proper suffixes is also a prefix of it. */
  predicate Unbordered(m: seq<byte>)
  {
    forall d :: 0 < d < |m| ==> m[d..] != m[..|m| - d]
  }

  lemma MarkerUnbordered()
    ensures Unbordered(Marker)
  {
    forall d | 0 < d < |Marker|
      ensures Marker[d..] != Marker[..|Marker| - d]
    {
      assert Marker[d..][0] != Marker[..|Marker| - d][0];
    }
  }

  /** An occurrence that starts inside the image either lies inside it or exposes a border of the marker. */
  lemma StraddleIsBorder(image: seq<byte>, marker: seq<byte>, j: nat)
    requires j < |image| < j + |marker|
    requires OccursAt(image + marker, marker, j)
    ensures marker[|image| - j..] == marker[..|marker| - (|image| - j)]
  {
    var d := |image| - j;
    var w := image + marker;
    forall k | 0 <= k < |marker| - d
      ensures marker[d..][k] == marker[..|marker| - d][k]
    {
      assert marker[d + k] == w[|image| + k] == w[j..j + |marker|][d + k];
    }
  }

  /**
   * With the real marker, an image that does not contain it comes back
   * unchanged together with the video.
   */
  lemma ParseOfDataMarker(image: seq<byte>, video: seq<byte>)
    requires !Contains(image, Marker)
    ensures Parse(image + Marker + video, Marker) == Split(image, Some(video))
  {
    MarkerUnbordered();
    forall j | 0 <= j < |image|
      ensures !OccursAt(image + Marker, Marker, j)
    {
      if OccursAt(image + Marker, Marker, j) {
        if j + |Marker| <= |image| {
          assert (image + Marker)[j..j + |Marker|] == image[j..j + |Marker|];
          assert OccursAt(image, Marker, j);
        } else {
          StraddleIsBorder(image, Marker, j);
        }
      }
    }
    ParseOfData(image, Marker, video);
  }

  /**
   * Without that condition the round trip fails: with the marker "aa", the
   * image "a" and the video "b", the rebuilt buffer "aaab" splits at 0.
   */
  lemma ParseOfDataStraddle()
    ensures Parse([0x61] + [0x61, 0x61] + [0x62], [0x61, 0x61]) == Split([], Some([0x61, 0x62]))
  {
    var buff: seq<byte> := [0x61] + [0x61, 0x61] + [0x62];
    assert OccursAt(buff, [0x61, 0x61], 0);
    assert buff[2..] == [0x61, 0x62];
  }

  /** `MotionPhotoBytes`: the parsed buffer, whose video can be replaced or dropped. */
  class MotionPhotoBytes {
    const marker: seq<byte>
    var image: seq<byte>
    var video: Option<seq<byte>>

    constructor(buff: seq<byte>, marker: seq<byte>)
      ensures this.marker == marker
      ensures Split(image, video) == Parse(buff, marker)
      ensures Bytes() == buff
    {
      this.marker := marker;
      var idx := Find(buff, marker);
      if idx >= 0 {
        image := buff[0..idx];
        video := Some(buff[idx + |marker|..]);
      } else {
        image := buff;
        video := None;
      }
    }

    predicate HasVideo()
      reads this
    {
      video.Some?
    }

    /** `data`. */
    function Bytes(): (r: seq<byte>)
      reads this
      ensures r == Data(Split(image, video), marker)
    {
      if HasVideo() then image + marker + video.value else image
    }

    method InsertVideo(buff: seq<byte>)
      modifies this
      ensures image == old(image) && video == Some(buff)
      ensures HasVideo() && Bytes() == image + marker + buff
    {
      video := Some(buff);
    }

    method DropVideo()
      modifies this
      ensures image == old(image) && video == None
      ensures !HasVideo() && Bytes() == image
    {
      video := None;
    }
  }

  // ---------------------------------------------------------------------
  // insert_cmd and extract_cmd over the file system

  datatype MotionPhotoError =
    | NoSuchFile(path: Path)
    | IsADirectory(path: Path)
    | SameFile(path: Path)
    | NoVideo
    | VideoExists(path: Path)
    | AlreadyHasVideo(path: Path)

  /** How a command ends: it completes, it returns a status, or it raises. */
  datatype CmdResult = Completed | ExitStatus(code: int, reason: MotionPhotoError) | Raised(error: MotionPhotoError)

  /**
   * `insert_cmd`: the image must be there (its stat is saved first); the
   * command returns 255 when image and video are the same path, when the
   * video does not exist, or when the image already has a video and
   * overwrite is off. Otherwise the image becomes image + marker + video
   * bytes, and `--rm` removes the video afterwards.
   */
  method InsertCmd(fs: Disk.FileSystem, image: Path, video: Path, overwrite: bool, deleteVideo: bool)
    returns (r: CmdResult)
    modifies fs
    ensures fs.dirs == old(fs.dirs)
    ensures !old(fs.Exists(image)) ==> r == Raised(NoSuchFile(image))
    ensures old(fs.Exists(image)) && image == video ==> r == ExitStatus(255, SameFile(video))
    ensures old(fs.Exists(image)) && image != video && !old(fs.Exists(video)) ==> r == ExitStatus(255, NoSuchFile(video))
    ensures r.ExitStatus? ==> r.code == 255
    ensures r.Completed? <==>
      old(fs.Exists(image)) && image != video && image in old(fs.files) && video in old(fs.files)
      && (overwrite || Parse(old(fs.files)[image], Marker).video.None?)
    ensures r.Completed? ==>
      var joined := Parse(old(fs.files)[image], Marker).image + Marker + old(fs.files)[video];
      fs.files == if deleteVideo then old(fs.files)[image := joined] - {video} else old(fs.files)[image := joined]
    ensures !r.Completed? ==> fs.files == old(fs.files)
  {
    if !fs.Exists(image) {
      return Raised(NoSuchFile(image));
    }
    if image == video {
      return ExitStatus(255, SameFile(video));
    }
    if !fs.Exists(video) {
      return ExitStatus(255, NoSuchFile(video));
    }
    if image !in fs.files {
      return Raised(IsADirectory(image));
    }
    var mp := new MotionPhotoBytes(fs.files[image], Marker);
    if mp.HasVideo() && !overwrite {
      return ExitStatus(255, AlreadyHasVideo(image));
    }
    if video !in fs.files {
      return Raised(IsADirectory(video));
    }
    mp.InsertVideo(fs.files[video]);
    fs.files := fs.files[image := mp.Bytes()];
    if deleteVideo {
      fs.files := fs.files - {video};
    }
    r := Completed;
  }

  /**
   * `extract_cmd`: raises when the paths are equal, when the image has no
   * video, or when the video target exists and overwrite is off. Otherwise
   * the video bytes are written to the target, and `--rm` rewrites the
   * image as its image bytes only.
   */
  method ExtractCmd(fs: Disk.FileSystem, image: Path, video: Path, overwrite: bool, deleteVideo: bool)
    returns (r: CmdResult)
    modifies fs
    ensures fs.dirs == old(fs.dirs)
    ensures !r.ExitStatus?
    ensures !old(fs.Exists(image)) ==> r == Raised(NoSuchFile(image))
    ensures old(fs.Exists(image)) && image == video ==> r == Raised(SameFile(video))
    ensures r.Completed? <==>
      image != video && image in old(fs.files) && Parse(old(fs.files)[image], Marker).video.Some?
      && (overwrite || !old(fs.Exists(video))) && ToString(video) !in old(fs.dirs)
    ensures r.Completed? ==>
      var parts := Parse(old(fs.files)[image], Marker);
      fs.files == if deleteVideo then old(fs.files)[video := parts.video.value][image := parts.image]
                  else old(fs.files)[video := parts.video.value]
    ensures !r.Completed? ==> fs.files == old(fs.files)
  {
    if !fs.Exists(image) {
      return Raised(NoSuchFile(image));
    }
    if image == video {
      return Raised(SameFile(video));
    }
    if image !in fs.files {
      return Raised(IsADirectory(image));
    }
    var mp := new MotionPhotoBytes(fs.files[image], Marker);
    if !mp.HasVideo() {
      return Raised(NoVideo);
    }
    if fs.Exists(video) && !overwrite {
      return Raised(VideoExists(video));
    }
    if ToString(video) in fs.dirs {
      return Raised(IsADirectory(video));
    }
    fs.files := fs.files[video := mp.video.value];
    if deleteVideo {
      mp.DropVideo();
      fs.files := fs.files[image := mp.Bytes()];
    }
    r := Completed;
  }

  /**
   * Extracting with `--rm` and inserting the extracted video back restores
   * the original motion photo, when the image part does not contain the
   * marker.
   */
  lemma ExtractThenInsert(buff: seq<byte>)
    requires Parse(buff, Marker).video.Some?
    ensures var parts := Parse(buff, Marker);
      Parse(parts.image, Marker).image + Marker + parts.video.value == buff
  {
    ImageHasNoMarker(buff, Marker);
  }

  /** The image part of a split ends before the first marker, so it holds none. */
  lemma ImageHasNoMarker(buff: seq<byte>, marker: seq<byte>)
    requires marker != [] && Parse(buff, marker).video.Some?
    ensures !Contains(Parse(buff, marker).image, marker)
  {
    var image := Parse(buff, marker).image;
    if Contains(image, marker) {
      var j :| OccursAt(image, marker, j);
      assert j < |image|;
      assert buff[j..j + |marker|] == image[j..j + |marker|];
      assert OccursAt(buff, marker, j);
      assert false;
    }
  }
}
