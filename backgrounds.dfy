/**
 * Background sources (backgrounds.py): a still image whose blurred copy is
 * cached, and a video that is read frame by frame and rewound at its end.
 * The file system and OpenCV's image operations are the fields of a `Cv`
 * value handed to the constructors; the video decoder is a finite
 * sequence of frames with a read position.
 */
module Backgrounds {
  import opened Wrappers
  import opened Frames

  /** What OpenCV's decoder reports for a video file. */
  datatype VideoFile = VideoFile(frames: seq<Image>, width: int, height: int, fps: int)

  /** The file-system test and the OpenCV calls the backgrounds make. */
  datatype Cv = Cv(
    fileExists: string -> bool,            // os.path.exists
    imread: string -> Image,               // cv2.imread
    resize: (Image, Size) -> Image,        // cv2.resize
    blur: (Image, int) -> Image,           // cv2.blur with a square kernel of the given side
    openVideo: string -> VideoFile)        // cv2.VideoCapture on a file

  /** `_apply_blur`: a nonzero level blurs the image, level 0 keeps it. */
  function ApplyBlur(blur: (Image, int) -> Image, image: Image, level: int): Image {
    if level != 0 then blur(image, level) else image
  }

  /** The position `VideoCapture.set(CAP_PROP_POS_FRAMES, p)` ends at on a video of `n` frames. */
  function Clamp(p: int, n: nat): (r: nat)
    ensures r <= n
    ensures 0 <= p <= n ==> r == p
    ensures p < 0 ==> r == 0
    ensures p > n ==> r == n
  {
    if p < 0 then 0 else if p > n then n else p
  }

  /** An opened video: its frames and properties, and the index of the next frame to decode. */
  class VideoCapture {
    const frames: seq<Image>
    const width: int
    const height: int
    const fps: int
    var pos: nat

    ghost predicate Valid()
      reads this
    {
      pos <= |frames|
    }

    constructor (file: VideoFile)
      ensures Valid()
      ensures frames == file.frames && width == file.width && height == file.height && fps == file.fps
      ensures pos == 0
    {
      frames := file.frames;
      width := file.width;
      height := file.height;
      fps := file.fps;
      pos := 0;
    }

    /** `read()`: the next frame, or nothing at the end of the stream. */
    method Read() returns (r: Option<Image>)
      requires Valid()
      modifies this
      ensures Valid()
      ensures old(pos) < |frames| ==> r == Some(frames[old(pos)]) && pos == old(pos) + 1
      ensures old(pos) == |frames| ==> r == None && pos == old(pos)
    {
      if pos < |frames| {
        r := Some(frames[pos]);
        pos := pos + 1;
      } else {
        r := None;
      }
    }

    /** `set(CAP_PROP_POS_FRAMES, p)`. */
    method SetPos(p: int)
      requires Valid()
      modifies this
      ensures Valid()
      ensures pos == Clamp(p, |frames|)
    {
      pos := Clamp(p, |frames|);
    }
  }

  /** A still image, resized to the webcam resolution once and blurred on demand. */
  class StaticBackground {
    const filepath: string
    const webcamRes: Size
    const webcamFps: int
    const cv: Cv
    var blurLevel: int
    /** `_image`: the resized picture. */
    var image: Image
    /** `_frame`: the cached picture at the current blur level. */
    var frame: Image

    ghost predicate Valid()
      reads this
    {
      frame == ApplyBlur(cv.blur, image, blurLevel)
    }

    constructor (path: string, fd: FrameData, cv: Cv)
      ensures Valid()
      ensures filepath == path && webcamRes == fd.size && webcamFps == fd.fps && this.cv == cv
      ensures blurLevel == 0 && image == cv.resize(cv.imread(path), fd.size) && frame == image
    {
      filepath := path;
      webcamRes := fd.size;
      webcamFps := fd.fps;
      this.cv := cv;
      blurLevel := 0;
      var img := cv.resize(cv.imread(path), fd.size);
      image := img;
      frame := img;
    }

    /** `StaticBackground(path, fd)`: fails, creating nothing, when the file does not exist. */
    static method Open(path: string, fd: FrameData, cv: Cv) returns (r: Result<StaticBackground>)
      ensures !cv.fileExists(path) <==> r.Fail?
      ensures r.Fail? ==> r.error == FileNotFound(path)
      ensures r.Ok? ==> fresh(r.value) && r.value.Valid() && r.value.blurLevel == 0
      ensures r.Ok? ==> r.value.webcamRes == fd.size && r.value.cv == cv
      ensures r.Ok? ==> r.value.frame == r.value.image == cv.resize(cv.imread(path), fd.size)
    {
      if !cv.fileExists(path) {
        return Fail(FileNotFound(path));
      }
      var b := new StaticBackground(path, fd, cv);
      r := Ok(b);
    }

    function GetBlurLevel(): int
      reads this
    {
      blurLevel
    }

    /** Stores the level and recomputes the cached frame once. */
    method SetBlurLevel(value: int)
      requires Valid()
      modifies this
      ensures Valid()
      ensures GetBlurLevel() == value
      ensures image == old(image)
      ensures value == 0 ==> frame == image
      ensures value != 0 ==> frame == cv.blur(image, value)
    {
      blurLevel := value;
      frame := ApplyBlur(cv.blur, image, blurLevel);
    }

    /** A copy of the cached frame; no state changes. */
    method GetFrame() returns (f: Image)
      requires Valid()
      ensures f == frame
      ensures f == ApplyBlur(cv.blur, image, GetBlurLevel())
    {
      f := frame;
    }
  }

  /**
   * `_need_resize` as written: the one-element slice `properties[0:1]` is
   * compared with the two-element webcam resolution, so the two never
   * compare equal and a resize is always requested.
   */
  function NeedResize(properties: (int, int, int), webcamRes: Size): (r: bool)
    ensures r
  {
    [properties.0] != [webcamRes.width, webcamRes.height]
  }

  /** The read position of the decoder and the two frame counters of an animated background. */
  datatype Cursor = Cursor(pos: nat, frameNum: int, frameMax: int)

  /** The cursor after one `get_frame` on a video of `n` frames. */
  function NextCursor(c: Cursor, n: nat): (r: Cursor)
    requires c.pos <= n
    ensures r.pos <= n
    ensures c.pos < n ==> r == Cursor(c.pos + 1, c.frameNum + 1, c.frameMax)
    ensures c.pos == n ==> r.frameNum == 1 && r.frameMax == c.frameNum - 1
    ensures c.pos == n ==> r.pos == if n > 0 then 1 else 0
  {
    if c.pos < n then Cursor(c.pos + 1, c.frameNum + 1, c.frameMax)
    else Cursor(if n > 0 then 1 else 0, 1, c.frameNum - 1)
  }

  /** The cursor after `k` consecutive `get_frame` calls. */
  function Cursors(c: Cursor, n: nat, k: nat): (r: Cursor)
    requires c.pos <= n
    ensures r.pos <= n
    decreases k
  {
    if k == 0 then c else NextCursor(Cursors(c, n, k - 1), n)
  }

  /** The cursor of a freshly opened video. */
  const Start: Cursor := Cursor(0, 0, 0)

  /** While frames remain, each call moves the position and the frame number on by one together. */
  lemma {:induction false} Playing(p: nat, m: int, n: nat, k: nat)
    requires p + k <= n
    ensures Cursors(Cursor(p, p, m), n, k) == Cursor(p + k, p + k, m)
    decreases k
  {
    if k > 0 {
      Playing(p, m, n, k - 1);
    }
  }

  /**
   * On a video of `n > 0` frames, the call after the `n` successful reads
   * hits the end: the position is rewound and one frame read, the frame
   * number restarts at 1 and the frame maximum is `n - 1`.
   */
  lemma EndOfStream(n: nat)
    requires n > 0
    ensures Cursors(Start, n, n) == Cursor(n, n, 0)
    ensures Cursors(Start, n, n + 1) == Cursor(1, 1, n - 1)
  {
    Playing(0, 0, n, n);
  }

  /** After the first rewind, the cursor comes back to the same state every `n` calls. */
  lemma Looping(n: nat)
    requires n > 0
    ensures Cursors(Cursor(1, 1, n - 1), n, n) == Cursor(1, 1, n - 1)
  {
    Playing(1, n - 1, n, n - 1);
  }

  /** A video file played in a loop, resized to the webcam resolution and blurred frame by frame. */
  class AnimatedBackground {
    const filepath: string
    const webcamRes: Size
    const webcamFps: int
    const cv: Cv
    const video: VideoCapture
    /** Frame width, frame height and frame rate of the video. */
    const properties: (int, int, int)
    const needResize: bool
    var blurLevel: int
    var image: Option<Image>
    var frame: Option<Image>
    var frameNum: int
    var frameMax: int

    ghost predicate Valid()
      reads this, video
    {
      video.Valid()
    }

    function Position(): (c: Cursor)
      reads this, video
    {
      Cursor(video.pos, frameNum, frameMax)
    }

    /** A decoded frame brought to the webcam resolution when a resize is needed. */
    function Fitted(f: Image): Image {
      if needResize then cv.resize(f, webcamRes) else f
    }

    constructor (path: string, fd: FrameData, cv: Cv)
      ensures Valid() && fresh(video)
      ensures filepath == path && webcamRes == fd.size && webcamFps == fd.fps && this.cv == cv
      ensures video.frames == cv.openVideo(path).frames && video.fps == cv.openVideo(path).fps
      ensures properties == (video.width, video.height, video.fps)
      ensures needResize == NeedResize(properties, webcamRes)
      ensures needResize
      ensures Position() == Start && blurLevel == 0 && frame == None && image == None
    {
      filepath := path;
      webcamRes := fd.size;
      webcamFps := fd.fps;
      this.cv := cv;
      blurLevel := 0;
      var v := new VideoCapture(cv.openVideo(path));
      video := v;
      properties := (v.width, v.height, v.fps);
      needResize := NeedResize((v.width, v.height, v.fps), fd.size);
      image := None;
      frame := None;
      frameNum := 0;
      frameMax := 0;
    }

    /** `AnimatedBackground(path, fd)`: fails, creating nothing, when the file does not exist. */
    static method Open(path: string, fd: FrameData, cv: Cv) returns (r: Result<AnimatedBackground>)
      ensures !cv.fileExists(path) <==> r.Fail?
      ensures r.Fail? ==> r.error == FileNotFound(path)
      ensures r.Ok? ==> fresh(r.value) && fresh(r.value.video) && r.value.Valid()
      ensures r.Ok? ==> r.value.Position() == Start && r.value.blurLevel == 0 && r.value.needResize
      ensures r.Ok? ==> r.value.video.frames == cv.openVideo(path).frames && r.value.cv == cv
      ensures r.Ok? ==> r.value.webcamRes == fd.size && r.value.frame == None
    {
      if !cv.fileExists(path) {
        return Fail(FileNotFound(path));
      }
      var b := new AnimatedBackground(path, fd, cv);
      r := Ok(b);
    }

    function GetBlurLevel(): int
      reads this
    {
      blurLevel
    }

    /** The inherited setter: only the level changes; the next frame picks it up. */
    method SetBlurLevel(value: int)
      requires Valid()
      modifies this
      ensures Valid()
      ensures GetBlurLevel() == value
      ensures frame == old(frame) && image == old(image) && Position() == old(Position())
    {
      blurLevel := value;
    }

    /**
     * Reads the next frame, rewinding to the first frame at the end of the
     * stream, then resizes and blurs it.  An empty video yields no frame,
     * and the resize (or blur) of the missing frame fails.
     */
    method GetFrame() returns (r: Result<Image>)
      requires Valid()
      modifies this, video
      ensures Valid()
      ensures Position() == NextCursor(old(Position()), |video.frames|)
      ensures blurLevel == old(blurLevel)
      ensures old(video.pos) < |video.frames| ==>
        image == Some(Fitted(video.frames[old(video.pos)]))
      ensures old(video.pos) == |video.frames| > 0 ==> image == Some(Fitted(video.frames[0]))
      ensures old(video.pos) == |video.frames| == 0 ==>
        r == Fail(NoFrame) && frame == None && image == (if needResize then old(image) else None)
      ensures |video.frames| > 0 ==>
        image.Some? && frame == Some(ApplyBlur(cv.blur, image.value, blurLevel)) && r == Ok(frame.value)
    {
      var got := video.Read();
      if got.Some? {
        frame := got;
        frameNum := frameNum + 1;
      } else {
        frameMax := frameNum - 1;
        video.SetPos(0);
        got := video.Read();
        frameNum := 1;
        frame := got;
      }
      if needResize {
        if frame.None? {
          return Fail(NoFrame);
        }
        frame := Some(cv.resize(frame.value, webcamRes));
      }
      image := frame;
      if frame.None? {
        return Fail(NoFrame);
      }
      frame := Some(ApplyBlur(cv.blur, frame.value, blurLevel));
      r := Ok(frame.value);
    }

    /** Moves the decoder `seconds` seconds (at the video's frame rate) from its current position. */
    method Seek(seconds: int)
      requires Valid()
      modifies this, video
      ensures Valid()
      ensures frameNum == old(video.pos) + properties.2 * seconds
      ensures video.pos == Clamp(frameNum, |video.frames|)
      ensures frameMax == old(frameMax) && blurLevel == old(blurLevel)
      ensures frame == old(frame) && image == old(image)
    {
      frameNum := video.pos;
      frameNum := frameNum + properties.2 * seconds;
      video.SetPos(frameNum);
    }
  }
}
