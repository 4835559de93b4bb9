/**
 * The decoded ffprobe stream list, and the reduction of that list to
 * "the last stream of a given type" that both `videoInfo` variants perform.
 *
 * Running ffprobe and decoding its JSON output are outside the model: a probe
 * is given as its outcome, either an error or the decoded list of streams.
 */
module Streams {
  import opened Wrappers

  /**
   * One element of ffprobe's `streams` array, reduced to the fields convff
   * reads: `codec_name`, `codec_type` and `r_frame_rate`, the last one
   * already split into the two integers of its "num/den" text.
   */
  datatype Stream = Stream(codecName: string, codecType: string, rateNum: int, rateDen: int)

  /** What running ffprobe on one file and decoding its JSON output yields. */
  datatype ProbeOutput =
    | ProbeError(reason: string)      // the process failed or its output was not valid JSON
    | Decoded(streams: seq<Stream>)

  const Audio: string := "audio"
  const Video: string := "video"

  /** No stream of the list has the given `codec_type`. */
  predicate NoneOfKind(streams: seq<Stream>, kind: string)
  {
    forall i :: 0 <= i < |streams| ==> streams[i].codecType != kind
  }

  /** Index `j` holds a stream of the given type and every later stream has another type. */
  predicate IsLastOfKind(streams: seq<Stream>, kind: string, j: int)
  {
    0 <= j < |streams| && streams[j].codecType == kind &&
    forall k :: j < k < |streams| ==> streams[k].codecType != kind
  }

  /**
   * The stream that a front-to-back traversal which overwrites its result at
   * every stream of type `kind` ends with: the last one of that type.
   */
  function LastOfKind(streams: seq<Stream>, kind: string): (r: Option<Stream>)
    ensures r.None? <==> NoneOfKind(streams, kind)
    ensures r.Some? ==> r.value in streams && r.value.codecType == kind
    decreases |streams|
  {
    if |streams| == 0 then None
    else if streams[|streams| - 1].codecType == kind then Some(streams[|streams| - 1])
    else
      var r := LastOfKind(streams[..|streams| - 1], kind);
      assert r.Some? ==> r.value in streams[..|streams| - 1];
      r
  }

  /**
   * The codec name the traversal leaves behind for streams of type `kind`:
   * that of the last such stream, or the empty string when there is none.
   */
  function LastCodec(streams: seq<Stream>, kind: string): (c: string)
    ensures NoneOfKind(streams, kind) ==> c == ""
    ensures c != "" ==> exists i :: 0 <= i < |streams| && streams[i].codecType == kind && streams[i].codecName == c
  {
    match LastOfKind(streams, kind)
    case None => ""
    case Some(s) => s.codecName
  }

  /** The last stream of a type is the one at the last index holding that type. */
  lemma {:induction false} LastOfKindAt(streams: seq<Stream>, kind: string, j: int)
    requires IsLastOfKind(streams, kind, j)
    ensures LastOfKind(streams, kind) == Some(streams[j])
    decreases |streams|
  {
    var n := |streams|;
    if j < n - 1 {
      assert streams[n - 1].codecType != kind;
      var front := streams[..n - 1];
      assert IsLastOfKind(front, kind, j) by {
        forall k | j < k < |front| ensures front[k].codecType != kind {
          assert front[k] == streams[k];
        }
      }
      LastOfKindAt(front, kind, j);
    }
  }

  /** The streams whose type is "audio" or "video", in their original order. */
  function AudioVideo(streams: seq<Stream>): (r: seq<Stream>)
    ensures |r| <= |streams|
    ensures forall s :: s in r ==> s in streams && (s.codecType == Audio || s.codecType == Video)
    decreases |streams|
  {
    if |streams| == 0 then []
    else
      var front := AudioVideo(streams[..|streams| - 1]);
      var last := streams[|streams| - 1];
      if last.codecType == Audio || last.codecType == Video then front + [last] else front
  }

  /**
   * Streams of any other type (subtitles, data, attachments) have no effect
   * on the last audio or the last video stream.
   */
  lemma {:induction false} OtherKindsIgnored(streams: seq<Stream>, kind: string)
    requires kind == Audio || kind == Video
    ensures LastOfKind(AudioVideo(streams), kind) == LastOfKind(streams, kind)
    decreases |streams|
  {
    if |streams| > 0 {
      var n := |streams|;
      var front := streams[..n - 1];
      OtherKindsIgnored(front, kind);
      var last := streams[n - 1];
      if last.codecType == Audio || last.codecType == Video {
        assert (AudioVideo(front) + [last])[..|AudioVideo(front)|] == AudioVideo(front);
      }
    }
  }
}
