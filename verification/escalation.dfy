/** The player-client escalation of the video download: the seven extractor
    variants are tried in order; an attempt either raises, whose message is
    classified to decide between moving on and giving up, or returns, after
    which the produced file is resolved, its extension fixed, and it is
    placed and reported. */
module Escalation {
  import opened Common
  import opened Paths
  import opened Fs
  import opened Backend
  import opened Resolver
  import opened Placement
  import opened Summary
  import opened Routing

  /** The `player_client` each attempt passes; `None` is the default client. */
  const Variants: seq<Option<string>> :=
    [None, Some("android"), Some("android_embed"), Some("web"), Some("safari"), Some("tv"), Some("default")]

  const PlayerResponsePatterns: seq<string> := ["failed to extract any player response", "sabr", "extraction failed"]
  const TransportPatterns: seq<string> := ["connectionreset", "connection reset by peer", "read timed out", "timed out"]

  predicate MentionsAny(msg: string, patterns: seq<string>) {
    exists k :: 0 <= k < |patterns| && Contains(msg, patterns[k])
  }

  datatype ErrorKind =
    | PlayerResponse   // the variant's player response failed: try the next
    | Transport        // connection trouble: re-raise to the caller
    | OtherError       // anything else: try the next

  /** The classification of a raised error by its lower-cased message. */
  function Classify(message: string): (k: ErrorKind)
    ensures k == PlayerResponse <==> MentionsAny(Lower(message), PlayerResponsePatterns)
    ensures k == Transport <==>
              !MentionsAny(Lower(message), PlayerResponsePatterns) && MentionsAny(Lower(message), TransportPatterns)
  {
    var msg := Lower(message);
    if MentionsAny(msg, PlayerResponsePatterns) then PlayerResponse
    else if MentionsAny(msg, TransportPatterns) then Transport
    else OtherError
  }

  /** The player-response test runs first: a message that also mentions a
      time-out still moves on to the next variant. */
  lemma PlayerResponseBeatsTransport(message: string)
    requires Contains(Lower(message), "sabr") && Contains(Lower(message), "timed out")
    ensures Classify(message) == PlayerResponse
  {
    assert PlayerResponsePatterns[1] == "sabr";
  }

  /** "read timed out" is subsumed by "timed out": any message holding it
      would be classified the same without it. */
  lemma ReadTimedOutSubsumed(msg: string)
    requires Contains(msg, "read timed out")
    ensures Contains(msg, "timed out")
  {
    var i :| 0 <= i <= |msg| - 14 && OccursAt(msg, "read timed out", i);
    assert msg[i + 5..i + 14] == "read timed out"[5..];
    ContainsAt(msg, "timed out", i + 5);
  }

  /** What the backend does on one attempt, should it be made: raise with a
      message, or return. A return carries what the rest of the attempt
      observes: the info the download returned, the file name the backend
      predicts (`None` when it cannot), the file system after the download,
      the clock, and for the rename and the move the timestamp `unique_path`
      would use and whether the operation succeeds. */
  datatype Attempt =
    | Raised(message: string)
    | Returned(info2: Option<Info>, predicted: Option<Path>, fs: FileSystem, now: int,
               renameTs: string, renameOk: bool, moveTs: string, moveOk: bool)

  datatype StepResult =
    | Produced(path: Path, fs: FileSystem, reporter: Reporter)
    | NoFile
    | Failed(kind: ErrorKind, message: string)

  /** The escalation moves on after this step. */
  predicate Advances(s: StepResult) {
    s.NoFile? || (s.Failed? && s.kind != Transport)
  }

  /** The attempt after the backend call: resolve the produced file; if
      there is one, fix its extension, place it and report it. */
  function Finish(url: string, outDir: string, info: Option<Info>, force: bool, rep: Reporter,
                  info2: Option<Info>, predicted: Option<Path>, fs: FileSystem, now: int,
                  renameTs: string, renameOk: bool, moveTs: string, moveOk: bool): (r: StepResult)
    ensures r.Produced? || r.NoFile?
    ensures r.NoFile? <==> ResolveOutput(fs, outDir, now, predicted, info2, info).None?
    ensures r.Produced? ==> Exists(r.fs, r.path) && r.path in r.reporter.reported
    ensures r.Produced? ==>
              var found := ResolveOutput(fs, outDir, now, predicted, info2, info).value;
              Lookup(r.fs, r.path) == Lookup(fs, found)
    ensures r.Produced? && moveOk ==> InVideosDir(r.path.dir)
    ensures r.Produced? ==> rep.log <= r.reporter.log && (Consistent(rep) ==> Consistent(r.reporter))
    ensures r.Produced? ==> r.reporter == Report(rep, r.fs, r.path, Some(url), info2)
    ensures r.Produced? ==>
              var found := ResolveOutput(fs, outDir, now, predicted, info2, info).value;
              renameOk && found.name != "" && IsTimestamp(renameTs) && IsTimestamp(moveTs)
              && MissingExtension(fs, found).Some? ==>
                Suffix(r.path.name) == MissingExtension(fs, found).value
    ensures r.Produced? ==>
              var found := ResolveOutput(fs, outDir, now, predicted, info2, info).value;
              (!renameOk || MissingExtension(fs, found).None?) && (!moveOk || InVideosDir(found.dir)) ==>
                r.path == found && r.fs == fs
  {
    match ResolveOutput(fs, outDir, now, predicted, info2, info)
    case None => NoFile
    case Some(found) =>
      var fixed := FixExtension(fs, found, force, renameTs, renameOk);
      var placed := PlaceInVideos(fixed.fs, fixed.path, force, moveTs, moveOk);
      assert renameOk && found.name != "" && IsTimestamp(renameTs) && IsTimestamp(moveTs)
             && MissingExtension(fs, found).Some? ==>
               Suffix(placed.path.name) == MissingExtension(fs, found).value by {
        if renameOk && found.name != "" && IsTimestamp(renameTs) && IsTimestamp(moveTs)
           && MissingExtension(fs, found).Some? {
          FixedFileHasSuffix(fs, found, force, renameTs);
          PlacedKeepsSuffix(fixed.fs, fixed.path, force, moveTs, moveOk, MissingExtension(fs, found).value);
        }
      }
      var rep2 := Report(rep, placed.fs, placed.path, Some(url), info2);
      Produced(placed.path, placed.fs, rep2)
  }

  function Step(url: string, outDir: string, info: Option<Info>, force: bool, rep: Reporter, a: Attempt): (r: StepResult)
    ensures a.Raised? ==> r == Failed(Classify(a.message), a.message)
    ensures a.Returned? ==> r.Produced? || r.NoFile?
  {
    match a
    case Raised(message) => Failed(Classify(message), message)
    case Returned(info2, predicted, fs, now, renameTs, renameOk, moveTs, moveOk) =>
      Finish(url, outDir, info, force, rep, info2, predicted, fs, now, renameTs, renameOk, moveTs, moveOk)
  }

  datatype Outcome =
    | Succeeded(path: Path, fs: FileSystem, reporter: Reporter)
    | Exhausted                        // every variant failed: `None`
    | Reraised(message: string)        // a transport error escapes

  /** What every attempt comes to. An attempt's result depends on its own
      oracle entry and on nothing an earlier attempt did (only a produced
      file ends the loop, so the reporter every attempt sees is the one the
      loop started with); the results can therefore be listed up front, and
      the loop reads them in order. */
  function Steps(url: string, outDir: string, info: Option<Info>, force: bool, rep: Reporter,
                 attempts: seq<Attempt>): (r: seq<StepResult>)
    ensures |r| == |attempts|
    ensures forall j :: 0 <= j < |attempts| ==> (attempts[j].Raised? <==> r[j].Failed?)
  {
    seq(|attempts|, j requires 0 <= j < |attempts| => Step(url, outDir, info, force, rep, attempts[j]))
  }

  /** Reference definition: the outcome of the steps from `i` on. */
  function Run(steps: seq<StepResult>, i: nat): Outcome
    decreases |steps| - i
  {
    if i >= |steps| then Exhausted
    else
      match steps[i]
      case Produced(p, fs, rep2) => Succeeded(p, fs, rep2)
      case Failed(Transport, message) => Reraised(message)
      case _ => Run(steps, i + 1)
  }

  /** The variant loop over the attempts' results: `steps[i]` is what the
      attempt under `Variants[i]` comes to; `used` lists the variants
      actually tried. */
  method TryVariants(steps: seq<StepResult>) returns (out: Outcome, used: seq<Option<string>>)
    requires |steps| == |Variants|
    ensures out == Run(steps, 0)
    ensures 1 <= |used| <= |Variants| && used == Variants[..|used|]
    ensures forall i :: 0 <= i < |used| - 1 ==> Advances(steps[i])
    ensures out.Exhausted? <==> |used| == |Variants| && Advances(steps[|used| - 1])
    ensures out.Succeeded? <==> steps[|used| - 1].Produced?
    ensures out.Succeeded? ==> out == Succeeded(steps[|used| - 1].path, steps[|used| - 1].fs, steps[|used| - 1].reporter)
    ensures out.Reraised? <==> steps[|used| - 1].Failed? && steps[|used| - 1].kind == Transport
    ensures out.Reraised? ==> out.message == steps[|used| - 1].message
  {
    var i := 0;
    used := [];
    out := Exhausted;
    while i < |steps|
      invariant 0 <= i <= |steps|
      invariant used == Variants[..i]
      invariant forall j :: 0 <= j < i ==> Advances(steps[j])
      invariant Run(steps, 0) == Run(steps, i)
    {
      assert Variants[..i + 1] == Variants[..i] + [Variants[i]];
      used := used + [Variants[i]];
      var s := steps[i];
      if s.Produced? {
        out := Succeeded(s.path, s.fs, s.reporter);
        return;
      }
      if s.Failed? && s.kind == Transport {
        out := Reraised(s.message);
        return;
      }
      i := i + 1;
    }
  }

  /** `download_video_with_yt_dlp` from the variant loop on. */
  method Escalate(url: string, outDir: string, info: Option<Info>, force: bool, rep: Reporter,
                  attempts: seq<Attempt>) returns (out: Outcome, used: seq<Option<string>>)
    requires |attempts| == |Variants|
    ensures out == Run(Steps(url, outDir, info, force, rep, attempts), 0)
    ensures 1 <= |used| <= |Variants| && used == Variants[..|used|]
    ensures out.Succeeded? ==> attempts[|used| - 1].Returned? && Exists(out.fs, out.path)
                               && out.path in out.reporter.reported
    ensures out.Reraised? ==> attempts[|used| - 1] == Raised(out.message) && Classify(out.message) == Transport
  {
    var steps := Steps(url, outDir, info, force, rep, attempts);
    out, used := TryVariants(steps);
  }

  /** `download_video_with_yt_dlp`. A URL that ends in a video extension
      and is not on YouTube is first streamed directly; `direct` is the file
      that download produced, if any, with the file system it left. Otherwise
      the URL is probed (unless the caller passed the probe's info) and the
      variants are tried. */
  method DownloadVideo(url: string, outDir: string, probeInfo: Option<Info>, probe: ProbeResult,
                       direct: Option<(Path, FileSystem)>, force: bool, rep: Reporter,
                       attempts: seq<Attempt>) returns (out: Outcome)
    requires |attempts| == |Variants|
    ensures IsDirectMediaUrl(url) && direct.Some? ==>
              out == Succeeded(direct.value.0, direct.value.1,
                               Report(rep, direct.value.1, direct.value.0, Some(url), None))
    ensures !(IsDirectMediaUrl(url) && direct.Some?) ==>
              out == Run(Steps(url, outDir, ProbedInfo(probeInfo, probe), force, rep, attempts), 0)
  {
    if IsDirectMediaUrl(url) && direct.Some? {
      var (dest, fs) := direct.value;
      return Succeeded(dest, fs, Report(rep, fs, dest, Some(url), None));
    }
    var info := ProbedInfo(probeInfo, probe);
    var used;
    out, used := Escalate(url, outDir, info, force, rep, attempts);
  }

  /** The info the download works with: the caller's, else a fresh probe's,
      else none. */
  function ProbedInfo(probeInfo: Option<Info>, probe: ProbeResult): (r: Option<Info>)
    ensures probeInfo.Some? ==> r == probeInfo
    ensures probeInfo.None? ==> (r.Some? <==> probe.ProbeInfo?)
  {
    if probeInfo.Some? then probeInfo
    else match probe
      case ProbeRaised => None
      case ProbeInfo(i) => Some(i)
  }

  /** A failed transport on the first attempt ends the escalation at once,
      whatever the later variants would have done. */
  lemma TransportStopsAtOnce(url: string, outDir: string, info: Option<Info>, force: bool, rep: Reporter,
                             attempts: seq<Attempt>)
    requires |attempts| == |Variants| && attempts[0] == Raised("Read timed out")
    ensures Run(Steps(url, outDir, info, force, rep, attempts), 0) == Reraised("Read timed out")
  {
    assert Lower("Read timed out") == "read timed out";
    ContainsAt("read timed out", "timed out", 5);
    assert !MentionsAny("read timed out", PlayerResponsePatterns) by {
      NoSabr();
      assert |"read timed out"| < |"extraction failed"|;
      assert |"read timed out"| < |"failed to extract any player response"|;
    }
    assert TransportPatterns[3] == "timed out";
    assert MentionsAny("read timed out", TransportPatterns);
  }

  lemma NoSabr()
    ensures !Contains("read timed out", "sabr")
  {
    var s := "read timed out";
    forall i | 0 <= i <= |s| - 4 ensures !OccursAt(s, "sabr", i) {
      assert s[i..i + 4][0] != 's';
    }
  }

  /** When no attempt produces a file and none hits a transport error, all
      the remaining variants are tried and the download gives up. */
  lemma {:induction false} AllAdvanceExhausts(steps: seq<StepResult>, i: nat)
    requires i <= |steps|
    requires forall j :: i <= j < |steps| ==> Advances(steps[j])
    ensures Run(steps, i) == Exhausted
    decreases |steps| - i
  {
    if i < |steps| {
      AllAdvanceExhausts(steps, i + 1);
    }
  }

  /** An attempt that finds no file moves on even though the backend
      returned normally. */
  lemma NoFileAdvances(url: string, outDir: string, info: Option<Info>, force: bool, rep: Reporter,
                       info2: Option<Info>, fs: FileSystem, now: int, ts: string)
    requires |Candidates(fs, outDir, now)| == 0
    ensures Advances(Step(url, outDir, info, force, rep, Returned(info2, None, fs, now, ts, true, ts, true)))
  {
  }
}
