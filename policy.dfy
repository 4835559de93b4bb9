/**
 * The two conversion profiles of main.go. `mpg` (DVD player target) emits a
 * fixed ffmpeg argument list; `mkv` (digital TV device target) probes the
 * input and copies each stream the device already plays, re-encoding the
 * others to mp3 audio and h264 video capped at 30 fps.
 */
module Policy {
  import opened Wrappers
  import opened Streams
  import opened Probe
  import opened Paths

  /** An ffmpeg invocation, Go's `*exec.Cmd`: the program and its arguments. */
  datatype Cmd = Cmd(name: string, args: seq<string>)

  const Ffmpeg: string := "ffmpeg"

  /** The highest frame rate the MKV target plays. */
  const FpsCap: int := 30

  /** The `-acodec` value of the MKV profile. */
  function AudioDirective(audioC: string): string
  {
    if audioC == "mp3" then "copy" else "mp3"
  }

  /** The `-vcodec` value of the MKV profile. */
  function VideoDirective(videoC: string, fps: int): string
  {
    if videoC == "h264" && fps <= FpsCap then "copy" else "h264"
  }

  /** The ffmpeg arguments of the MKV profile for a probed input. */
  function MkvArgs(inp: string, par: ConvPar, out: string): (a: seq<string>)
    ensures |a| == if par.fps > FpsCap then 10 else 8
    ensures a[..4] == ["-hide_banner", "-i", inp, "-acodec"] && a[|a| - 3] == "-vcodec" && a[|a| - 1] == out
    ensures (a[4] == "copy" <==> par.audioC == "mp3") && (a[4] != "copy" ==> a[4] == "mp3")
    ensures (a[|a| - 2] == "copy" <==> par.videoC == "h264" && par.fps <= FpsCap) && (a[|a| - 2] != "copy" ==> a[|a| - 2] == "h264")
    ensures par.fps > FpsCap ==> a[5..7] == ["-r", "30"]
  {
    ["-hide_banner", "-i", inp, "-acodec", AudioDirective(par.audioC)]
    + (if par.fps > FpsCap then ["-r", "30"] else [])
    + ["-vcodec", VideoDirective(par.videoC, par.fps), out]
  }

  /** What `mkv` returns for an input: the command, or the probe's error. */
  function MkvJob(inp: string, oe: OutExt, prober: string -> ProbeOutput): (r: Result<Cmd, InfoError>)
    ensures r.Failure? <==> ConvParOf(prober(inp)).Failure?
    ensures r.Failure? ==> r.error == ConvParOf(prober(inp)).error
  {
    match ConvParOf(prober(inp))
    case Failure(err) => Failure(err)
    case Success(par) => Success(Cmd(Ffmpeg, MkvArgs(inp, par, oe(".mkv"))))
  }

  /**
   * `mkv`: starts from the fixed preamble, probes the input (the external
   * prober is the parameter `prober`), then appends the audio directive, the
   * rate limit when the source is over the cap, and the video directive with
   * the output path. A probe error yields no command.
   */
  method Mkv(inp: string, oe: OutExt, prober: string -> ProbeOutput) returns (c: Option<Cmd>, e: Option<InfoError>)
    ensures MkvJob(inp, oe, prober).Success? ==> e == None && c == Some(MkvJob(inp, oe, prober).value)
    ensures MkvJob(inp, oe, prober).Failure? ==> c == None && e == Some(MkvJob(inp, oe, prober).error)
  {
    var args := ["-hide_banner", "-i", inp];
    var n := VideoInfo(prober(inp));
    if n.Failure? {
      return None, Some(n.error);
    }
    var audioC, videoC := n.value.audioC, n.value.videoC;
    if audioC == "mp3" {
      audioC := "copy";
    } else {
      audioC := "mp3";
    }
    args := args + ["-acodec", audioC];
    if videoC == "h264" && n.value.fps <= 30 {
      videoC := "copy";
    } else {
      videoC := "h264";
    }
    if n.value.fps > 30 {
      args := args + ["-r", "30"];
    }
    var out := oe(".mkv");
    args := args + ["-vcodec", videoC, out];
    assert audioC == AudioDirective(n.value.audioC) && videoC == VideoDirective(n.value.videoC, n.value.fps);
    assert args == MkvArgs(inp, n.value, out);
    assert MkvJob(inp, oe, prober) == Success(Cmd(Ffmpeg, args));
    c, e := Some(Cmd(Ffmpeg, args)), None;
  }

  /**
   * `mpg`: never probes and never fails; re-encodes to NTSC DVD at 1000k
   * video and 128k audio bit rate.
   */
  function Mpg(inp: string, oe: OutExt): (c: Cmd)
    ensures c.name == Ffmpeg && |c.args| == 10
    ensures c.args[..3] == ["-hide_banner", "-i", inp] && c.args[7..] == ["-target", "ntsc-dvd", oe(".mpg")]
  {
    Cmd(Ffmpeg, ["-hide_banner", "-i", inp, "-b:v", "1000k", "-b:a", "128k", "-target", "ntsc-dvd", oe(".mpg")])
  }

  // ----- Reading an argument list back as ffmpeg does -----

  /** The options that take no value, among those the profiles emit. */
  const Flags: set<string> := {"-hide_banner"}

  /** The options that take the next argument as their value. */
  const ValuedOptions: set<string> := {"-i", "-acodec", "-vcodec", "-r", "-b:v", "-b:a", "-target"}

  predicate IsOption(arg: string)
  {
    |arg| > 0 && arg[0] == '-'
  }

  /** An ffmpeg command line read back: flags given, option values, and output files. */
  datatype CommandLine = CommandLine(flags: set<string>, options: map<string, string>, outputs: seq<string>)

  const NoArgs: CommandLine := CommandLine({}, map[], [])

  /**
   * Reads `args` from the left on top of `acc`: a flag is recorded, a valued
   * option takes the next argument (a later value replaces an earlier one),
   * anything not starting with '-' is an output file. An unknown option or a
   * valued option at the end is rejected.
   */
  function Parse(args: seq<string>, acc: CommandLine): Option<CommandLine>
    decreases |args|
  {
    if args == [] then Some(acc)
    else if args[0] in Flags then Parse(args[1..], acc.(flags := acc.flags + {args[0]}))
    else if args[0] in ValuedOptions then
      if |args| < 2 then None
      else Parse(args[2..], acc.(options := acc.options[args[0] := args[1]]))
    else if IsOption(args[0]) then None
    else Parse(args[1..], acc.(outputs := acc.outputs + [args[0]]))
  }

  /** The MKV command line as ffmpeg reads it. */
  function MkvCommandLine(inp: string, par: ConvPar, out: string): CommandLine
  {
    var opts := map["-i" := inp, "-acodec" := AudioDirective(par.audioC), "-vcodec" := VideoDirective(par.videoC, par.fps)];
    CommandLine({"-hide_banner"}, if par.fps > FpsCap then opts["-r" := "30"] else opts, [out])
  }

  /**
   * Round trip: reading back the MKV arguments recovers the input, the audio
   * and video directives, the rate limit exactly when one was emitted, and the
   * output path as the only output, provided that path does not itself read
   * as an option.
   */
  lemma MkvArgsRoundTrip(inp: string, par: ConvPar, out: string)
    requires !IsOption(out)
    ensures Parse(MkvArgs(inp, par, out), NoArgs) == Some(MkvCommandLine(inp, par, out))
  {
    var a, v := AudioDirective(par.audioC), VideoDirective(par.videoC, par.fps);
    var rate: seq<string> := if par.fps > FpsCap then ["-r", "30"] else [];
    var tail := ["-vcodec", v, out];
    var args := MkvArgs(inp, par, out);
    assert args == ["-hide_banner", "-i", inp, "-acodec", a] + (rate + tail);
    var c2 := CommandLine({"-hide_banner"}, map["-i" := inp, "-acodec" := a], []);
    ParseMkvHead(inp, a, rate + tail);
    var c3 := if par.fps > FpsCap then c2.(options := c2.options["-r" := "30"]) else c2;
    if par.fps > FpsCap {
      ParseValued(rate + tail, c2);
      assert (rate + tail)[2..] == tail;
    } else {
      assert rate + tail == tail;
    }
    ParseMkvTail(v, out, c3);
    assert c3.(options := c3.options["-vcodec" := v], outputs := [out]) == MkvCommandLine(inp, par, out);
  }

  /** Reading the MKV preamble records the banner flag, the input and the audio directive. */
  lemma ParseMkvHead(inp: string, a: string, rest: seq<string>)
    ensures Parse(["-hide_banner", "-i", inp, "-acodec", a] + rest, NoArgs)
         == Parse(rest, CommandLine({"-hide_banner"}, map["-i" := inp, "-acodec" := a], []))
  {
    var args := ["-hide_banner", "-i", inp, "-acodec", a] + rest;
    var c0 := CommandLine({"-hide_banner"}, map[], []);
    ParseFlag(args, NoArgs);
    assert NoArgs.(flags := NoArgs.flags + {"-hide_banner"}) == c0;
    var s1 := args[1..];
    assert s1 == ["-i", inp, "-acodec", a] + rest;
    ParseValued(s1, c0);
    var c1 := c0.(options := map["-i" := inp]);
    var s2 := s1[2..];
    assert s2 == ["-acodec", a] + rest;
    ParseValued(s2, c1);
    assert s2[2..] == rest;
    assert c1.(options := c1.options["-acodec" := a]) == CommandLine({"-hide_banner"}, map["-i" := inp, "-acodec" := a], []);
  }

  /** Reading `-vcodec v out` records the video directive and the single output. */
  lemma ParseMkvTail(v: string, out: string, acc: CommandLine)
    requires !IsOption(out) && acc.outputs == []
    ensures Parse(["-vcodec", v, out], acc) == Some(acc.(options := acc.options["-vcodec" := v], outputs := [out]))
  {
    var s := ["-vcodec", v, out];
    ParseValued(s, acc);
    var c := acc.(options := acc.options["-vcodec" := v]);
    assert s[2..] == [out];
    ParseOutput([out], c);
    assert [out][1..] == [] && c.outputs + [out] == [out];
  }

  lemma ParseFlag(args: seq<string>, acc: CommandLine)
    requires |args| > 0 && args[0] in Flags
    ensures Parse(args, acc) == Parse(args[1..], acc.(flags := acc.flags + {args[0]}))
  {
  }

  lemma ParseValued(args: seq<string>, acc: CommandLine)
    requires |args| >= 2 && args[0] in ValuedOptions
    ensures Parse(args, acc) == Parse(args[2..], acc.(options := acc.options[args[0] := args[1]]))
  {
  }

  lemma ParseOutput(args: seq<string>, acc: CommandLine)
    requires |args| > 0 && !IsOption(args[0])
    ensures Parse(args, acc) == Parse(args[1..], acc.(outputs := acc.outputs + [args[0]]))
  {
    assert forall f :: f in Flags + ValuedOptions ==> IsOption(f);
    assert args[0] !in Flags && args[0] !in ValuedOptions;
  }

  /** The DVD command line as ffmpeg reads it. */
  function MpgCommandLine(inp: string, out: string): CommandLine
  {
    CommandLine({"-hide_banner"}, map["-i" := inp, "-b:v" := "1000k", "-b:a" := "128k", "-target" := "ntsc-dvd"], [out])
  }

  /** Round trip for the DVD profile, whose options do not depend on the input's streams. */
  lemma MpgRoundTrip(inp: string, oe: OutExt)
    requires !IsOption(oe(".mpg"))
    ensures Parse(Mpg(inp, oe).args, NoArgs) == Some(MpgCommandLine(inp, oe(".mpg")))
  {
    var out := oe(".mpg");
    var args := Mpg(inp, oe).args;
    ParseFlag(args, NoArgs);
    var c0 := CommandLine({"-hide_banner"}, map[], []);
    assert NoArgs.(flags := NoArgs.flags + {"-hide_banner"}) == c0;
    var s1 := args[1..];
    ParseValued(s1, c0);
    var c1 := c0.(options := map["-i" := inp]);
    var s2 := s1[2..];
    ParseValued(s2, c1);
    var c2 := c1.(options := c1.options["-b:v" := "1000k"]);
    var s3 := s2[2..];
    ParseValued(s3, c2);
    var c3 := c2.(options := c2.options["-b:a" := "128k"]);
    var s4 := s3[2..];
    ParseValued(s4, c3);
    var c4 := c3.(options := c3.options["-target" := "ntsc-dvd"]);
    assert s4[2..] == [out];
    ParseOutput([out], c4);
    assert [out][1..] == [] && c4.outputs + [out] == [out];
    assert Parse([], c4.(outputs := [out])) == Some(c4.(outputs := [out]));
    assert c4.(outputs := [out]) == MpgCommandLine(inp, out);
  }
}

module PolicyProperties {
  import opened Wrappers
  import opened Streams
  import opened Probe
  import opened Paths
  import opened Policy

  /** The codec a stream ends up in: the source's when copied, the named one otherwise. */
  function Resulting(directive: string, source: string): string
  {
    if directive == "copy" then source else directive
  }

  /** The output frame rate: `-r 30` forces 30 fps, otherwise the source rate is kept. */
  function ResultingFps(cl: CommandLine, sourceFps: int): int
  {
    if "-r" in cl.options && cl.options["-r"] == "30" then 30 else sourceFps
  }

  /**
   * The MKV profile re-encodes only what the target cannot play: audio is
   * copied exactly when it is already mp3, video exactly when it is h264 at
   * no more than 30 fps, and the rate limit is given exactly when the source
   * is over 30 fps, in which case the video is never copied.
   */
  lemma MkvCopiesOnlyCompatible(inp: string, par: ConvPar, out: string)
    requires !IsOption(out)
    ensures Parse(MkvArgs(inp, par, out), NoArgs).Some?
    ensures var cl := Parse(MkvArgs(inp, par, out), NoArgs).value;
      && cl.options.Keys >= {"-i", "-acodec", "-vcodec"}
      && cl.options["-i"] == inp
      && (cl.options["-acodec"] == "copy" <==> par.audioC == "mp3")
      && (cl.options["-acodec"] != "copy" ==> cl.options["-acodec"] == "mp3")
      && (cl.options["-vcodec"] == "copy" <==> par.videoC == "h264" && par.fps <= FpsCap)
      && (cl.options["-vcodec"] != "copy" ==> cl.options["-vcodec"] == "h264")
      && ("-r" in cl.options <==> par.fps > FpsCap)
      && ("-r" in cl.options ==> cl.options["-r"] == "30" && cl.options["-vcodec"] != "copy")
      && cl.outputs == [out]
  {
    MkvArgsRoundTrip(inp, par, out);
  }

  /**
   * Whatever the source, what comes out of the MKV profile is mp3 audio and
   * h264 video at no more than 30 fps.
   */
  lemma MkvOutputPlaysOnTarget(inp: string, par: ConvPar, out: string)
    requires !IsOption(out)
    ensures Parse(MkvArgs(inp, par, out), NoArgs).Some?
    ensures var cl := Parse(MkvArgs(inp, par, out), NoArgs).value;
      && "-acodec" in cl.options && "-vcodec" in cl.options
      && Resulting(cl.options["-acodec"], par.audioC) == "mp3"
      && Resulting(cl.options["-vcodec"], par.videoC) == "h264"
      && ResultingFps(cl, par.fps) <= FpsCap
  {
    MkvCopiesOnlyCompatible(inp, par, out);
  }

  /**
   * In terms of the probed streams: the video of a file is copied exactly
   * when its last video stream is h264 with a rate `num/den` below 31 fps.
   */
  lemma MkvVideoCopiedByRate(streams: seq<Stream>, j: int)
    requires IsLastOfKind(streams, Video, j) && RatesDefined(streams)
    requires streams[j].rateNum >= 0 && streams[j].rateDen > 0
    ensures ConvParOf(Decoded(streams)).Success?
    ensures var par := ConvParOf(Decoded(streams)).value;
      VideoDirective(par.videoC, par.fps) == "copy" <==> streams[j].codecName == "h264" && streams[j].rateNum < 31 * streams[j].rateDen
  {
    LastOfKindAt(streams, Video, j);
    FpsOverCap(streams[j].rateNum, streams[j].rateDen);
  }

  /** The DVD profile never consults the prober and never fails. */
  lemma MpgIgnoresProbe(inp: string, oe: OutExt)
    requires !IsOption(oe(".mpg"))
    ensures Parse(Mpg(inp, oe).args, NoArgs).Some?
    ensures var cl := Parse(Mpg(inp, oe).args, NoArgs).value;
      && cl.options.Keys == {"-i", "-b:v", "-b:a", "-target"}
      && cl.options["-target"] == "ntsc-dvd"
      && cl.options["-i"] == inp
      && cl.outputs == [oe(".mpg")]
  {
    MpgRoundTrip(inp, oe);
  }

  /** "clip.avi" converted to MKV under "out" is written to "out/clip.mkv". */
  lemma ClipOutput()
    ensures OutputPath("clip.avi", "out", ".mkv") == "out/clip.mkv"
  {
    assert "clip.avi" == "clip" + ".avi";
    ExtOfAppended("clip", ".avi");
    assert TrimExt("clip.avi") == "clip";
  }

  /** AAC audio, h264 video at 25 fps: the audio is re-encoded and the video copied. */
  lemma MkvClipAt25Fps(prober: string -> ProbeOutput)
    requires prober("clip.avi") == Decoded([Stream("aac", Audio, 0, 0), Stream("h264", Video, 25, 1)])
    ensures MkvJob("clip.avi", Output("clip.avi", "out"), prober)
      == Success(Cmd(Ffmpeg, ["-hide_banner", "-i", "clip.avi", "-acodec", "mp3", "-vcodec", "copy", "out/clip.mkv"]))
  {
    var streams := [Stream("aac", Audio, 0, 0), Stream("h264", Video, 25, 1)];
    assert IsLastOfKind(streams, Video, 1) && IsLastOfKind(streams, Audio, 0);
    LastOfKindAt(streams, Video, 1);
    LastOfKindAt(streams, Audio, 0);
    assert ConvParOf(Decoded(streams)) == Success(ConvPar("aac", "h264", 25));
    ClipOutput();
    assert Output("clip.avi", "out")(".mkv") == "out/clip.mkv";
    assert MkvArgs("clip.avi", ConvPar("aac", "h264", 25), "out/clip.mkv") == ["-hide_banner", "-i", "clip.avi", "-acodec", "mp3", "-vcodec", "copy", "out/clip.mkv"];
  }

  /** The same clip at 60 fps: the video is re-encoded to h264 and limited to 30 fps. */
  lemma MkvClipAt60Fps(prober: string -> ProbeOutput)
    requires prober("clip.avi") == Decoded([Stream("aac", Audio, 0, 0), Stream("h264", Video, 60, 1)])
    ensures MkvJob("clip.avi", Output("clip.avi", "out"), prober)
      == Success(Cmd(Ffmpeg, ["-hide_banner", "-i", "clip.avi", "-acodec", "mp3", "-r", "30", "-vcodec", "h264", "out/clip.mkv"]))
  {
    var streams := [Stream("aac", Audio, 0, 0), Stream("h264", Video, 60, 1)];
    assert IsLastOfKind(streams, Video, 1) && IsLastOfKind(streams, Audio, 0);
    LastOfKindAt(streams, Video, 1);
    LastOfKindAt(streams, Audio, 0);
    assert ConvParOf(Decoded(streams)) == Success(ConvPar("aac", "h264", 60));
    ClipOutput();
    assert Output("clip.avi", "out")(".mkv") == "out/clip.mkv";
    assert MkvArgs("clip.avi", ConvPar("aac", "h264", 60), "out/clip.mkv") == ["-hide_banner", "-i", "clip.avi", "-acodec", "mp3", "-r", "30", "-vcodec", "h264", "out/clip.mkv"];
  }
}
