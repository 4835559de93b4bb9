/**
 * The probe step of the MKV profile: `videoInfo` in main.go reduces the
 * decoded stream list to a `convPar` record holding the last audio codec,
 * the last video codec and that video stream's frame rate as an integer.
 */
module Probe {
  import opened Wrappers
  import opened Streams

  /** The summary `mkv` decides on (Go's `convPar`). */
  datatype ConvPar = ConvPar(audioC: string, videoC: string, fps: int)

  /** Why no summary was produced. */
  datatype InfoError =
    | ProbeFailed(reason: string)   // ffprobe or JSON decoding returned an error
    | ZeroRate                      // a video stream's rate has denominator 0: Go's integer division panics

  function Abs(x: int): (r: int)
    ensures r >= 0 && (r == x || r == -x)
  {
    if x < 0 then -x else x
  }

  /**
   * Go's `/` on `int`: the quotient truncated toward zero. The remainder
   * `a - q * b` has the sign of the dividend and is smaller than the divisor
   * in magnitude. Dafny's own `/` is Euclidean and differs from it when `a`
   * is negative.
   */
  function GoQuo(a: int, b: int): (q: int)
    requires b != 0
    ensures a >= 0 ==> 0 <= a - q * b < Abs(b)
    ensures a < 0 ==> -Abs(b) < a - q * b <= 0
  {
    if b > 0 then
      if a >= 0 then a / b
      else
        var m := (-a) / b;
        assert (-m) * b == -(m * b);
        -m
    else
      if a >= 0 then
        var m := a / (-b);
        assert (-m) * b == m * (-b);
        -m
      else
        var m := (-a) / (-b);
        assert m * b == -(m * (-b));
        m
  }

  /**
   * For a non-negative rate `num/den` the truncated fps exceeds the 30 fps
   * cap exactly when the rate is at least 31 frames per second: 30000/1001
   * (29.97) gives 29 and 61/2 (30.5) gives 30, both within the cap.
   */
  lemma FpsOverCap(num: int, den: int)
    requires num >= 0 && den > 0
    ensures GoQuo(num, den) > 30 <==> num >= 31 * den
  {
  }

  /** Every video stream has a rate with a non-zero denominator. */
  predicate RatesDefined(streams: seq<Stream>)
  {
    forall i :: 0 <= i < |streams| && streams[i].codecType == Video ==> streams[i].rateDen != 0
  }

  /** The integer fps of the last video stream, or 0 (Go's zero value) when there is none. */
  function LastFps(streams: seq<Stream>): (fps: int)
    requires RatesDefined(streams)
    ensures NoneOfKind(streams, Video) ==> fps == 0
    ensures forall j :: IsLastOfKind(streams, Video, j) ==> fps == GoQuo(streams[j].rateNum, streams[j].rateDen)
  {
    match LastOfKind(streams, Video)
    case None => 0
    case Some(s) =>
      assert forall j :: IsLastOfKind(streams, Video, j) ==> s == streams[j] by {
        forall j | IsLastOfKind(streams, Video, j) ensures s == streams[j] {
          LastOfKindAt(streams, Video, j);
        }
      }
      GoQuo(s.rateNum, s.rateDen)
  }

  /** What `videoInfo` returns for a probe outcome: the summary, or the error that stops it. */
  function ConvParOf(probe: ProbeOutput): (r: Result<ConvPar, InfoError>)
    ensures probe.ProbeError? ==> r == Failure(ProbeFailed(probe.reason))
    ensures r.Success? <==> probe.Decoded? && RatesDefined(probe.streams)
    ensures probe.Decoded? && !RatesDefined(probe.streams) ==> r == Failure(ZeroRate)
    ensures r.Success? && NoneOfKind(probe.streams, Video) ==> r.value.videoC == "" && r.value.fps == 0
    ensures r.Success? && NoneOfKind(probe.streams, Audio) ==> r.value.audioC == ""
  {
    match probe
    case ProbeError(reason) => Failure(ProbeFailed(reason))
    case Decoded(streams) =>
      if RatesDefined(streams) then
        Success(ConvPar(LastCodec(streams, Audio), LastCodec(streams, Video), LastFps(streams)))
      else
        Failure(ZeroRate)
  }

  /** How the last audio and video streams and the rates change when the prefix grows by one stream. */
  lemma PrefixStep(streams: seq<Stream>, i: int)
    requires 0 <= i < |streams| && RatesDefined(streams[..i])
    ensures var str, next := streams[i], streams[..i + 1];
      && (RatesDefined(next) <==> str.codecType != Video || str.rateDen != 0)
      && LastCodec(next, Audio) == (if str.codecType == Audio then str.codecName else LastCodec(streams[..i], Audio))
      && LastCodec(next, Video) == (if str.codecType == Video then str.codecName else LastCodec(streams[..i], Video))
      && (RatesDefined(next) ==>
            LastFps(next) == (if str.codecType == Video then GoQuo(str.rateNum, str.rateDen) else LastFps(streams[..i])))
  {
    var next := streams[..i + 1];
    assert next[..i] == streams[..i];
    assert next[i] == streams[i];
  }

  /**
   * `videoInfo` of main.go: visits the streams in index order, overwriting
   * the video codec and fps at each video stream and the audio codec at each
   * audio stream. A zero denominator stops the traversal.
   */
  method VideoInfo(probe: ProbeOutput) returns (r: Result<ConvPar, InfoError>)
    ensures r == ConvParOf(probe)
  {
    match probe {
      case ProbeError(reason) =>
        r := Failure(ProbeFailed(reason));
      case Decoded(streams) =>
        var audioC, videoC, fps := "", "", 0;
        var i := 0;
        while i < |streams|
          invariant 0 <= i <= |streams|
          invariant RatesDefined(streams[..i])
          invariant audioC == LastCodec(streams[..i], Audio)
          invariant videoC == LastCodec(streams[..i], Video)
          invariant fps == LastFps(streams[..i])
        {
          var str := streams[i];
          PrefixStep(streams, i);
          if str.codecType == Video {
            videoC := str.codecName;
            if str.rateDen == 0 {
              assert !RatesDefined(streams);
              return Failure(ZeroRate);
            }
            fps := GoQuo(str.rateNum, str.rateDen);
          }
          if str.codecType == Audio {
            audioC := str.codecName;
          }
          i := i + 1;
        }
        assert streams[..i] == streams;
        r := Success(ConvPar(audioC, videoC, fps));
    }
  }
}
