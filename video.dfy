/**
  `convert_video_to_ascii`, in both generations: the parameter assertions, the window of
  frame numbers taken from the start and end times, and the loop that reads frames in
  order and converts every `int(speed_multiplier)`-th one.

  The capture is described by what the loop can observe of it (`Capture`): whether it
  opened, its integer frame rate and frame count, and how many frames can be read after
  seeking to the start frame. `converts(f)` says whether converting frame `f` to ASCII
  art returns normally; when it does not, the exception leaves the loop.
 */
module Video {
  import opened Wrappers
  import opened PyArith
  import opened GlyphIndex

  // ---- parameter checks ----

  /** The arguments the assertions look at. */
  datatype Params = Params(
    inputPath: string, outputPath: string,
    startTime: real, endTime: Option<real>,
    columns: int, speed: real,
    inputExists: bool, glyphDirExists: bool)

  /** The assertion that fails, one per `assert` statement, in source order. */
  datatype ParamError =
    | SlowMotion        // speed_multiplier < 1.0
    | NoColumns         // num_sub_images_width <= 0
    | MissingInput      // the input file does not exist
    | MissingGlyphDir   // the glyph directory does not exist
    | UnsupportedInput  // input extension not .mp4/.avi/.mov/.mkv
    | UnsupportedOutput // output extension not .mp4/.avi
    | NegativeStart     // start_time < 0
    | EmptyWindow       // end_time given and not after start_time

  /** `str.lower()` on ASCII letters. */
  function Lower(s: string): (t: string)
    ensures |t| == |s|
    ensures forall i :: 0 <= i < |s| ==> t[i] == if 'A' <= s[i] <= 'Z' then (s[i] as int + 32) as char else s[i]
  {
    if s == [] then []
    else [if 'A' <= s[0] <= 'Z' then (s[0] as int + 32) as char else s[0]] + Lower(s[1..])
  }

  /** `.lower().endswith(('.mp4', '.avi', '.mov', '.mkv'))`. */
  predicate SupportedInput(path: string)
    ensures SupportedInput(path) ==> |path| >= 4 && Lower(path)[|path| - 4] == '.'
  {
    var p := Lower(path);
    EndsWith(p, ".mp4") || EndsWith(p, ".avi") || EndsWith(p, ".mov") || EndsWith(p, ".mkv")
  }

  /** `.lower().endswith(('.mp4', '.avi'))`: every output format is also an input format. */
  predicate SupportedOutput(path: string)
    ensures SupportedOutput(path) ==> SupportedInput(path)
  {
    var p := Lower(path);
    EndsWith(p, ".mp4") || EndsWith(p, ".avi")
  }

  /** The condition each assertion demands. */
  predicate Holds(p: Params, e: ParamError) {
    match e
    case SlowMotion => p.speed >= 1.0
    case NoColumns => p.columns > 0
    case MissingInput => p.inputExists
    case MissingGlyphDir => p.glyphDirExists
    case UnsupportedInput => SupportedInput(p.inputPath)
    case UnsupportedOutput => SupportedOutput(p.outputPath)
    case NegativeStart => p.startTime >= 0.0
    case EmptyWindow => p.endTime.None? || p.endTime.value > p.startTime
  }

  /** Parameters that pass every assertion. */
  predicate ValidParams(p: Params) {
    && Holds(p, SlowMotion) && Holds(p, NoColumns) && Holds(p, MissingInput) && Holds(p, MissingGlyphDir)
    && Holds(p, UnsupportedInput) && Holds(p, UnsupportedOutput) && Holds(p, NegativeStart) && Holds(p, EmptyWindow)
  }

  /** The assertions in source order, as a list. */
  const CheckOrder: seq<ParamError> :=
    [SlowMotion, NoColumns, MissingInput, MissingGlyphDir, UnsupportedInput, UnsupportedOutput, NegativeStart, EmptyWindow]

  /**
    Lines 69-76 (51-58 in the older copy): `None` when every assertion passes, otherwise
    the first one that fails. Nothing is opened or computed before all of them pass.
   */
  function CheckParameters(p: Params): (r: Option<ParamError>)
    ensures r.None? <==> ValidParams(p)
    ensures r.Some? ==> !Holds(p, r.value)
    ensures r.Some? ==> forall i :: 0 <= i < |CheckOrder| && CheckOrder[i] == r.value ==>
                          forall j :: 0 <= j < i ==> Holds(p, CheckOrder[j])
  {
    if p.speed < 1.0 then Some(SlowMotion)
    else if p.columns <= 0 then Some(NoColumns)
    else if !p.inputExists then Some(MissingInput)
    else if !p.glyphDirExists then Some(MissingGlyphDir)
    else if !SupportedInput(p.inputPath) then Some(UnsupportedInput)
    else if !SupportedOutput(p.outputPath) then Some(UnsupportedOutput)
    else if p.startTime < 0.0 then Some(NegativeStart)
    else if p.endTime.Some? && p.endTime.value <= p.startTime then Some(EmptyWindow)
    else None
  }

  /** The speed multiplier admitted by the checks gives a step of at least one frame. */
  lemma StepAtLeastOne(p: Params)
    requires ValidParams(p)
    ensures Trunc(p.speed) >= 1 && Trunc(p.speed) as real <= p.speed
  {
    assert Holds(p, SlowMotion);
  }

  // ---- the window of frame numbers ----

  /** What the loop can observe of `cv2.VideoCapture(input_video_path)`. */
  datatype Capture = Capture(isOpened: bool, fps: nat, totalFrames: int, available: nat)

  /** `total_frames / fps` with an integer `fps` of 0. */
  datatype VideoError = InvalidParameter(failed: ParamError) | ZeroFrameRate

  /**
    Lines 92-101 (73-83 in the older copy): the first and the last frame number of the
    window. Without an end time the window runs to the last frame of the video; computing
    that end time divides by the frame rate.
   */
  function FrameWindow(startTime: real, endTime: Option<real>, fps: nat, totalFrames: int)
    : (r: Result<(int, int), VideoError>)
    ensures r.Err? <==> endTime.None? && fps == 0
    ensures r.Ok? && startTime >= 0.0 ==>
              r.value.0 >= 0 && r.value.0 as real <= startTime * fps as real < r.value.0 as real + 1.0
    ensures r.Ok? ==> r.value.1 <= totalFrames - 1
    ensures r.Ok? && endTime.None? ==> r.value.1 == totalFrames - 1
    ensures r.Ok? && endTime.Some? && endTime.value >= 0.0 ==>
              r.value.1 == totalFrames - 1 || r.value.1 as real <= endTime.value * fps as real < r.value.1 as real + 1.0
    ensures r.Ok? && endTime.Some? && endTime.value >= 0.0 ==> r.value.1 as real <= endTime.value * fps as real
  {
    if endTime.None? && fps == 0 then Err(ZeroFrameRate)
    else
      var end := if endTime.Some? then endTime.value else totalFrames as real / fps as real;
      var startFrame := Trunc(startTime * fps as real);
      var endFrame := Trunc(end * fps as real);
      assert endTime.None? ==> end * fps as real == totalFrames as real;
      Ok((startFrame, if endFrame < totalFrames - 1 then endFrame else totalFrames - 1))
  }

  // ---- the sampling loop ----

  /** The frames `start..last` whose offset from `start` is a multiple of `k`, in order. */
  function Sampled(start: int, last: int, k: nat): (s: seq<int>)
    requires k >= 1
    ensures forall i :: 0 <= i < |s| ==> start <= s[i] <= last && (s[i] - start) % k == 0
    decreases last - start
  {
    if last < start then []
    else Sampled(start, last - 1, k) + (if (last - start) % k == 0 then [last] else [])
  }

  /** The longest prefix of `s` whose frames all convert. */
  function TakeWhile(s: seq<int>, converts: int -> bool): (t: seq<int>)
    ensures |t| <= |s| && t == s[..|t|]
  {
    if s == [] || !converts(s[0]) then [] else [s[0]] + TakeWhile(s[1..], converts)
  }

  predicate AllConvert(s: seq<int>, converts: int -> bool) {
    forall i :: 0 <= i < |s| ==> converts(s[i])
  }

  /** The last frame the loop can reach: the end of the window or of the readable frames. */
  function LastFrame(start: int, end: int, available: nat): (f: int)
    ensures f <= end && f <= start + available - 1
    ensures f == end || f == start + available - 1
  {
    if start + available - 1 < end then start + available - 1 else end
  }

  /** Exactly the frames of the window whose offset is a multiple of `k`. */
  lemma {:induction false} SampledMembers(start: int, last: int, k: nat, f: int)
    requires k >= 1
    ensures f in Sampled(start, last, k) <==> start <= f <= last && (f - start) % k == 0
    decreases last - start
  {
    if last >= start {
      SampledMembers(start, last - 1, k, f);
    }
  }

  /** The sampled frames are strictly increasing. */
  lemma {:induction false} SampledIncreasing(start: int, last: int, k: nat)
    requires k >= 1
    ensures forall i, j :: 0 <= i < j < |Sampled(start, last, k)| ==> Sampled(start, last, k)[i] < Sampled(start, last, k)[j]
    decreases last - start
  {
    if last >= start {
      SampledIncreasing(start, last - 1, k);
      var s := Sampled(start, last - 1, k);
      forall i | 0 <= i < |s|
        ensures s[i] < last
      {
        SampledMembers(start, last - 1, k, s[i]);
      }
    }
  }

  /** `frames_written` for a window read to its end: `(last - start) div k + 1`. */
  lemma {:induction false} SampledCount(start: int, last: int, k: nat)
    requires k >= 1
    ensures |Sampled(start, last, k)| == if last < start then 0 else (last - start) / k + 1
    decreases last - start
  {
    if last > start {
      SampledCount(start, last - 1, k);
      var d := last - start;
      DivMod(d, k);
      DivMod(d - 1, k);
      if d % k == 0 {
        DivUnique(d - 1, k, d / k - 1);
      } else {
        DivUnique(d - 1, k, d / k);
      }
    }
  }

  /** A shorter window samples a prefix of a longer one. */
  lemma {:induction false} SampledPrefix(start: int, a: int, b: int, k: nat)
    requires k >= 1 && a <= b
    ensures |Sampled(start, a, k)| <= |Sampled(start, b, k)|
    ensures Sampled(start, b, k)[..|Sampled(start, a, k)|] == Sampled(start, a, k)
    decreases b - a
  {
    if a < b {
      SampledPrefix(start, a, b - 1, k);
      if b >= start {
        assert Sampled(start, b, k)[..|Sampled(start, b - 1, k)|] == Sampled(start, b - 1, k);
      }
    }
  }

  lemma {:induction false} TakeWhileAll(s: seq<int>, converts: int -> bool)
    requires AllConvert(s, converts)
    ensures TakeWhile(s, converts) == s
  {
    if s != [] {
      TakeWhileAll(s[1..], converts);
    }
  }

  /** The conversion of frame `f` raises after every frame before it converted. */
  lemma {:induction false} TakeWhileStops(s: seq<int>, q: seq<int>, f: int, converts: int -> bool)
    requires |q| < |s| && s[..|q| + 1] == q + [f]
    requires AllConvert(q, converts) && !converts(f)
    ensures TakeWhile(s, converts) == q
  {
    if q == [] {
      assert s[0] == f;
    } else {
      assert s[1..][..|q[1..]| + 1] == q[1..] + [f];
      TakeWhileStops(s[1..], q[1..], f, converts);
    }
  }

  /** The first sampled frame whose conversion raises ends what is written. */
  lemma ConversionRaises(start: int, f: int, last: int, k: nat, written: seq<int>, converts: int -> bool)
    requires k >= 1 && start <= f <= last && (f - start) % k == 0
    requires written == Sampled(start, f - 1, k) && AllConvert(written, converts) && !converts(f)
    ensures TakeWhile(Sampled(start, last, k), converts) == written
    ensures !AllConvert(Sampled(start, last, k), converts)
  {
    var all := Sampled(start, last, k);
    SampledPrefix(start, f, last, k);
    assert all[..|written| + 1] == written + [f];
    assert all[|written|] == f;
    TakeWhileStops(all, written, f, converts);
  }

  /**
    Lines 111-153 (93-133 in the older copy), the loop shared by both generations:
    `frame_count` starts at `start_frame` and grows by one per frame read; a failed read
    ends the loop; a frame is converted and written when its offset is a multiple of `k`;
    a conversion that raises leaves the loop. `written` lists the frames written, in order.
   */
  method SampleFrames(startFrame: int, endFrame: int, k: nat, available: nat, converts: int -> bool)
    returns (written: seq<int>, framesWritten: nat, raised: bool)
    requires k >= 1
    ensures written == TakeWhile(Sampled(startFrame, LastFrame(startFrame, endFrame, available), k), converts)
    ensures raised <==> !AllConvert(Sampled(startFrame, LastFrame(startFrame, endFrame, available), k), converts)
    ensures framesWritten == |written|
  {
    var frameCount := startFrame;
    written := [];
    framesWritten := 0;
    raised := false;
    while frameCount <= endFrame
      invariant startFrame <= frameCount && frameCount - startFrame <= available
      invariant frameCount == startFrame || frameCount <= endFrame + 1
      invariant written == Sampled(startFrame, frameCount - 1, k)
      invariant AllConvert(written, converts)
      invariant framesWritten == |written|
      decreases endFrame - frameCount
    {
      if frameCount - startFrame == available {
        // `ret` is false: no frame left to read
        break;
      }
      if (frameCount - startFrame) % k != 0 {
        frameCount := frameCount + 1;
        continue;
      }
      if !converts(frameCount) {
        raised := true;
        ConversionRaises(startFrame, frameCount, LastFrame(startFrame, endFrame, available), k, written, converts);
        return;
      }
      written := written + [frameCount];
      framesWritten := framesWritten + 1;
      frameCount := frameCount + 1;
    }
    assert frameCount - 1 == LastFrame(startFrame, endFrame, available) || frameCount == startFrame;
    if frameCount == startFrame {
      assert Sampled(startFrame, LastFrame(startFrame, endFrame, available), k) == [];
    }
    TakeWhileAll(written, converts);
  }

  /**
    The scenario of a 30 fps, 300-frame video cut from 2.0 s to 5.0 s at normal speed:
    frames 60 to 150 inclusive are converted, 91 of them.
   */
  lemma WindowScenario()
    ensures FrameWindow(2.0, Some(5.0), 30, 300) == Ok((60, 150))
    ensures |Sampled(60, LastFrame(60, 150, 240), 1)| == 91
  {
    assert Trunc(2.0 * 30 as real) == 60;
    assert Trunc(5.0 * 30 as real) == 150;
    SampledCount(60, 150, 1);
  }

  // ---- the whole conversion ----

  /** Whether compression replaced the written video. */
  datatype CompressionOutcome = Produced | ReturnedNone | Raised

  /** What a run leaves behind. */
  datatype VideoRun = VideoRun(success: bool, written: seq<int>, compressed: bool)

  /**
    The newer `convert_video_to_ascii` (lines 69-197). `outputExists` is whether the
    output file is there after the writer is released; `compression` is how the call to
    `compress_video` ends. Compression runs only after a successful loop and, however it
    ends, leaves the returned success flag as it was.
   */
  method ConvertVideo(p: Params, cap: Capture, converts: int -> bool,
                      compressOutput: bool, outputExists: bool, compression: CompressionOutcome)
    returns (r: Result<VideoRun, VideoError>)
    ensures CheckParameters(p).Some? ==> r == Err(InvalidParameter(CheckParameters(p).value))
    ensures r.Err? && r.error.ZeroFrameRate? <==> ValidParams(p) && cap.isOpened && p.endTime.None? && cap.fps == 0
    ensures r.Ok? <==> ValidParams(p) && !(cap.isOpened && p.endTime.None? && cap.fps == 0)
    ensures r.Ok? && !cap.isOpened ==> r.value == VideoRun(false, [], false)
    ensures r.Ok? && cap.isOpened ==>
              var w := FrameWindow(p.startTime, p.endTime, cap.fps, cap.totalFrames).value;
              var frames := Sampled(w.0, LastFrame(w.0, w.1, cap.available), Trunc(p.speed));
              && r.value.written == TakeWhile(frames, converts)
              && (r.value.success <==> AllConvert(frames, converts))
    ensures r.Ok? ==> (r.value.compressed <==> r.value.success && compressOutput && outputExists && compression == Produced)
  {
    var failed := CheckParameters(p);
    if failed.Some? {
      return Err(InvalidParameter(failed.value));
    }
    if !cap.isOpened {
      return Ok(VideoRun(false, [], false));
    }
    var window := FrameWindow(p.startTime, p.endTime, cap.fps, cap.totalFrames);
    if window.Err? {
      return Err(window.error);
    }
    var (startFrame, endFrame) := window.value;
    StepAtLeastOne(p);
    var written, framesWritten, raised := SampleFrames(startFrame, endFrame, Trunc(p.speed), cap.available, converts);
    var success := !raised;
    var compressed := false;
    if success && compressOutput && outputExists {
      compressed := compression == Produced;
    }
    r := Ok(VideoRun(success, written, compressed));
  }

  /**
    The older `convert_video_to_ascii` (lines 51-133): the same checks and loop, no
    compression; `True` when the loop ends normally (an early break included), `False`
    when the capture does not open or a conversion raises.
   */
  method LegacyConvertVideo(p: Params, cap: Capture, converts: int -> bool)
    returns (r: Result<(bool, seq<int>), VideoError>)
    ensures CheckParameters(p).Some? ==> r == Err(InvalidParameter(CheckParameters(p).value))
    ensures r.Err? && r.error.ZeroFrameRate? <==> ValidParams(p) && cap.isOpened && p.endTime.None? && cap.fps == 0
    ensures r.Ok? <==> ValidParams(p) && !(cap.isOpened && p.endTime.None? && cap.fps == 0)
    ensures r.Ok? && !cap.isOpened ==> r.value == (false, [])
    ensures r.Ok? && cap.isOpened ==>
              var w := FrameWindow(p.startTime, p.endTime, cap.fps, cap.totalFrames).value;
              var frames := Sampled(w.0, LastFrame(w.0, w.1, cap.available), Trunc(p.speed));
              && r.value.1 == TakeWhile(frames, converts)
              && (r.value.0 <==> AllConvert(frames, converts))
  {
    var failed := CheckParameters(p);
    if failed.Some? {
      return Err(InvalidParameter(failed.value));
    }
    if !cap.isOpened {
      return Ok((false, []));
    }
    var window := FrameWindow(p.startTime, p.endTime, cap.fps, cap.totalFrames);
    if window.Err? {
      return Err(window.error);
    }
    var (startFrame, endFrame) := window.value;
    StepAtLeastOne(p);
    var written, framesWritten, raised := SampleFrames(startFrame, endFrame, Trunc(p.speed), cap.available, converts);
    r := Ok((!raised, written));
  }
}
