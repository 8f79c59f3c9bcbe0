/** The once-per-path guard of `print_and_log_summary`: a session-wide set of
    reported paths and the append-only log of summary entries. Writing the
    JSONL and text files swallows its own errors, so only the guard's state
    is modelled. */
module Summary {
  import opened Common
  import opened Paths
  import opened Fs
  import opened Backend

  /** One summary record: the resolved path, its size and the source URL. */
  datatype SummaryEntry = SummaryEntry(path: Path, size: nat, sourceUrl: Option<string>)

  /** `_PRINTED_SUMMARIES` together with the entries written so far. */
  datatype Reporter = Reporter(reported: set<Path>, log: seq<SummaryEntry>)

  const Fresh: Reporter := Reporter({}, [])

  function LoggedPaths(log: seq<SummaryEntry>): set<Path> {
    set e | e in log :: e.path
  }

  /** The guard's invariant: the key set is exactly the set of logged paths
      and no path is logged twice. */
  predicate Consistent(rep: Reporter) {
    && rep.reported == LoggedPaths(rep.log)
    && forall i, j :: 0 <= i < j < |rep.log| ==> rep.log[i].path != rep.log[j].path
  }

  /** `source_url or (info.get("webpage_url") if info else None)`. */
  function SourceUrl(sourceUrl: Option<string>, info: Option<Info>): (r: Option<string>)
    ensures Truthy(sourceUrl) ==> r == sourceUrl
    ensures !Truthy(sourceUrl) && info.Some? ==> r == info.value.webpageUrl
    ensures !Truthy(sourceUrl) && info.None? ==> r.None?
  {
    if Truthy(sourceUrl) then sourceUrl
    else if info.Some? then info.value.webpageUrl
    else None
  }

  /** The summary would be emitted: the path is new and the file exists. */
  predicate Emits(rep: Reporter, fs: FileSystem, p: Path) {
    p !in rep.reported && Exists(fs, p)
  }

  /** `print_and_log_summary(p, info, source_url=...)` on the guard's state. */
  function Report(rep: Reporter, fs: FileSystem, p: Path, sourceUrl: Option<string>, info: Option<Info>): (r: Reporter)
    ensures !Emits(rep, fs, p) ==> r == rep
    ensures Emits(rep, fs, p) ==> r.reported == rep.reported + {p} && |r.log| == |rep.log| + 1
    ensures rep.log <= r.log
    ensures Emits(rep, fs, p) ==> r.log[|rep.log|].path == p && r.log[|rep.log|].size == Lookup(fs, p).size
                                  && r.log[|rep.log|].sourceUrl == SourceUrl(sourceUrl, info)
    ensures Consistent(rep) ==> Consistent(r)
  {
    if p in rep.reported || !Exists(fs, p) then rep
    else
      var e := SummaryEntry(p, Lookup(fs, p).size, SourceUrl(sourceUrl, info));
      var log := rep.log + [e];
      assert LoggedPaths(log) == LoggedPaths(rep.log) + {p} by {
        assert forall x :: x in log <==> x in rep.log || x == e;
      }
      assert Consistent(rep) ==> forall i :: 0 <= i < |rep.log| ==> rep.log[i].path != p by {
        if Consistent(rep) {
          forall i | 0 <= i < |rep.log| ensures rep.log[i].path != p {
            assert rep.log[i] in rep.log;
          }
        }
      }
      Reporter(rep.reported + {p}, log)
  }

  /** Repeating a report emits nothing, whatever source is named the second
      time; once the file has been seen, whatever the file system has become. */
  lemma ReportIdempotent(rep: Reporter, fs: FileSystem, p: Path, url: Option<string>, info: Option<Info>,
                         fs2: FileSystem, url2: Option<string>, info2: Option<Info>)
    ensures var r := Report(rep, fs, p, url, info);
            Report(r, fs, p, url2, info2) == r
    ensures var r := Report(rep, fs, p, url, info);
            Exists(fs, p) ==> Report(r, fs2, p, url2, info2) == r
  {
  }

  /** A missing file is not recorded, so a later report of the same path,
      once the file exists, still emits. */
  lemma MissingFileStaysReportable(rep: Reporter, fs: FileSystem, p: Path, url: Option<string>, info: Option<Info>,
                                   fs2: FileSystem, url2: Option<string>, info2: Option<Info>)
    requires !Exists(fs, p) && p !in rep.reported && Exists(fs2, p)
    ensures |Report(Report(rep, fs, p, url, info), fs2, p, url2, info2).log| == |rep.log| + 1
  {
  }

  /** One call of the summary routine: the file system it sees, the path and
      the arguments. */
  datatype Call = Call(fs: FileSystem, path: Path, sourceUrl: Option<string>, info: Option<Info>)

  /** A session's calls, in order. */
  function ReportAll(rep: Reporter, calls: seq<Call>): (r: Reporter)
    ensures Consistent(rep) ==> Consistent(r)
    ensures rep.log <= r.log
    ensures rep.reported <= r.reported
    decreases |calls|
  {
    if |calls| == 0 then rep
    else
      var c := calls[0];
      var next := Report(rep, c.fs, c.path, c.sourceUrl, c.info);
      var r := ReportAll(next, calls[1..]);
      r
  }

  /** Across a whole session each path gets at most one summary entry, and
      exactly the paths in the log are recorded. */
  lemma {:induction false} SessionLogsEachPathOnce(calls: seq<Call>)
    ensures var r := ReportAll(Fresh, calls);
            r.reported == LoggedPaths(r.log)
            && forall i, j :: 0 <= i < j < |r.log| ==> r.log[i].path != r.log[j].path
  {
    assert Consistent(Fresh);
  }

  /** A path whose file existed at some call of the session ends up recorded. */
  lemma {:induction false} ExistingFileGetsReported(rep: Reporter, calls: seq<Call>, k: nat)
    requires k < |calls| && Exists(calls[k].fs, calls[k].path)
    ensures calls[k].path in ReportAll(rep, calls).reported
    decreases k
  {
    var c := calls[0];
    var next := Report(rep, c.fs, c.path, c.sourceUrl, c.info);
    if k > 0 {
      ExistingFileGetsReported(next, calls[1..], k - 1);
    }
  }
}
