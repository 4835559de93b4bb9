/**
 * `videoInfo` of video_info.go: the variant that reduces the decoded stream
 * list to the audio and the video codec name only, without a frame rate.
 */
module CodecInfo {
  import opened Wrappers
  import opened Streams

  /**
   * Visits the streams in index order and overwrites `videoc` at each video
   * stream and `audioc` at each audio stream; a probe error leaves both empty
   * and is returned as the error.
   */
  method VideoInfo(probe: ProbeOutput) returns (audioc: string, videoc: string, e: Option<string>)
    ensures probe.ProbeError? ==> e == Some(probe.reason) && audioc == "" && videoc == ""
    ensures probe.Decoded? ==> e == None
    ensures probe.Decoded? ==> audioc == LastCodec(probe.streams, Audio) && videoc == LastCodec(probe.streams, Video)
  {
    audioc, videoc := "", "";
    match probe {
      case ProbeError(reason) =>
        e := Some(reason);
      case Decoded(streams) =>
        e := None;
        var i := 0;
        while i < |streams|
          invariant 0 <= i <= |streams|
          invariant audioc == LastCodec(streams[..i], Audio)
          invariant videoc == LastCodec(streams[..i], Video)
        {
          var str := streams[i];
          assert streams[..i + 1][..i] == streams[..i];
          if str.codecType == Video {
            videoc := str.codecName;
          }
          if str.codecType == Audio {
            audioc := str.codecName;
          }
          i := i + 1;
        }
        assert streams[..i] == streams;
    }
  }
}
