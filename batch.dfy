/**
 * The batch layer of main.go: `commands` builds one ffmpeg command per input
 * file with the selected profile, and `main` checks the destination, builds
 * the commands and runs all of them.
 */
module Batch {
  import opened Wrappers
  import opened Streams
  import opened Probe
  import opened Paths
  import opened Policy

  /** The profile selected on the command line: `-v` (DVD player) or `-t` (digital TV device). */
  datatype Profile = Dvd | Dtv

  /**
   * What the profile's build function (`mpg` or `mkv`) returns for one
   * input: only a probe failure under the MKV profile makes a build fail.
   */
  function Job(profile: Profile, inp: string, oe: OutExt, prober: string -> ProbeOutput): (r: Result<Cmd, InfoError>)
    ensures r.Failure? <==> profile == Dtv && ConvParOf(prober(inp)).Failure?
    ensures r.Failure? ==> r.error == ConvParOf(prober(inp)).error
  {
    match profile
    case Dvd => Success(Mpg(inp, oe))
    case Dtv => MkvJob(inp, oe, prober)
  }

  /**
   * `commands`: one entry per input file, entry `i` built from `fs[i]` with
   * the output function `output(fs[i], opath)`. A failed build leaves a nil
   * entry and its error, which the source logs, in `logged` at the same index.
   * A `ZeroRate` entry is not logged by the source: it stands for the division
   * panic at main.go:154, which ends the process inside `commands`.
   */
  method Commands(fs: seq<string>, opath: string, profile: Profile, prober: string -> ProbeOutput)
    returns (cs: seq<Option<Cmd>>, logged: seq<Option<InfoError>>)
    ensures |cs| == |fs| && |logged| == |fs|
    ensures forall i :: 0 <= i < |fs| ==> (cs[i].None? <==> logged[i].Some?)
    ensures forall i :: 0 <= i < |fs| ==>
      match Job(profile, fs[i], Output(fs[i], opath), prober)
      case Success(c) => cs[i] == Some(c)
      case Failure(e) => logged[i] == Some(e)
  {
    var built := new Option<Cmd>[|fs|](_ => None);
    var errors := new Option<InfoError>[|fs|](_ => None);
    for i := 0 to |fs|
      invariant forall k :: 0 <= k < i ==> (built[k].None? <==> errors[k].Some?)
      invariant forall k :: 0 <= k < i ==>
        match Job(profile, fs[k], Output(fs[k], opath), prober)
        case Success(c) => built[k] == Some(c)
        case Failure(e) => errors[k] == Some(e)
    {
      var oe := Output(fs[i], opath);
      var c: Option<Cmd>, e: Option<InfoError>;
      match profile {
        case Dvd =>
          c, e := Some(Mpg(fs[i], oe)), None;
        case Dtv =>
          c, e := Mkv(fs[i], oe, prober);
      }
      built[i], errors[i] := c, e;
    }
    cs, logged := built[..], errors[..];
  }

  /** The outcome of a whole run. */
  datatype Outcome =
    | DestinationRejected(message: string)   // fatal, before any input is read
    | RatePanic                              // `num / den` with den 0 in mkv's probe step: the process
                                             // panics while building, before any ffmpeg command starts
    | NilCommand                             // a nil command was dereferenced: the process panics
    | Launched(jobs: seq<Cmd>)               // every command was started

  /**
   * The run phase of `main`: every entry of `cs` is started. The source does
   * not skip failed builds, so a nil entry is dereferenced and crashes the
   * process; which commands had started by then is not modelled.
   */
  function Launch(cs: seq<Option<Cmd>>): (o: Outcome)
    ensures o.NilCommand? <==> exists i :: 0 <= i < |cs| && cs[i].None?
    ensures o.Launched? <==> forall i :: 0 <= i < |cs| ==> cs[i].Some?
    ensures o.Launched? ==> |o.jobs| == |cs| && forall i :: 0 <= i < |cs| ==> cs[i] == Some(o.jobs[i])
    ensures o.Launched? || o.NilCommand?
  {
    if forall i :: 0 <= i < |cs| ==> cs[i].Some? then
      Launched(seq(|cs|, i requires 0 <= i < |cs| => cs[i].value))
    else
      NilCommand
  }

  /** Some input's video stream has a rate with denominator 0, on which `mkv`'s probe step panics. */
  predicate HasZeroRate(lines: seq<string>, prober: string -> ProbeOutput)
  {
    exists i :: 0 <= i < |lines| && ConvParOf(prober(lines[i])) == Failure(ZeroRate)
  }

  /** The destination directory is usable: neither empty nor ".". */
  predicate ValidDestination(dest: string)
  {
    dest != "." && dest != ""
  }

  /**
   * `main` after flag parsing, with standard input already split into the
   * file list `lines`: rejects an empty or "." destination before anything
   * else; otherwise builds the commands for the selected profile (`-t` wins
   * when both flags are set; with neither there is nothing to run) and
   * starts them all. Under `-t`, a zero rate denominator panics during the
   * build and a failed probe panics when its nil command is started.
   */
  method Run(dest: string, dvd: bool, dtv: bool, lines: seq<string>, prober: string -> ProbeOutput)
    returns (o: Outcome)
    ensures o.DestinationRejected? <==> !ValidDestination(dest)
    ensures o.DestinationRejected? ==> o.message == "Output directory cannot be \"" + dest + "\""
    ensures o.RatePanic? <==> ValidDestination(dest) && dtv && HasZeroRate(lines, prober)
    ensures o.NilCommand? <==>
      && ValidDestination(dest) && dtv && !HasZeroRate(lines, prober)
      && exists i :: 0 <= i < |lines| && ConvParOf(prober(lines[i])).Failure?
    ensures o.Launched? ==> |o.jobs| == (if dvd || dtv then |lines| else 0)
    ensures o.Launched? ==> forall i :: 0 <= i < |o.jobs| ==>
      Job(if dtv then Dtv else Dvd, lines[i], Output(lines[i], dest), prober) == Success(o.jobs[i])
  {
    if !ValidDestination(dest) {
      return DestinationRejected("Output directory cannot be \"" + dest + "\"");
    }
    var cs: seq<Option<Cmd>> := [];
    var logged: seq<Option<InfoError>>;
    if dvd {
      cs, logged := Commands(lines, dest, Dvd, prober);
    }
    if dtv {
      cs, logged := Commands(lines, dest, Dtv, prober);
      // A ZeroRate entry stands for Go's division panic inside the build,
      // which ends the process: nothing is launched.
      if exists i :: 0 <= i < |logged| && logged[i] == Some(ZeroRate) {
        return RatePanic;
      }
    }
    o := Launch(cs);
  }
}
