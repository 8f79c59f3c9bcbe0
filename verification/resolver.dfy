/** The output resolver that runs after the backend reports a finished
    download: trust the predicted file name if it exists (or its `.mp4`
    sibling), otherwise guess the produced file from the recent, non-tiny
    regular files of the output directory. */
module Resolver {
  import opened Common
  import opened Paths
  import opened Fs
  import opened Ordering
  import opened Backend

  /** Files smaller than this are skipped as partial or placeholder files. */
  const MinSize: nat := 512

  /** Only files modified in the last 15 minutes are candidates; times are in
      nanoseconds, so fractions of a second count. */
  const RecentWindow: int := 900 * 1_000_000_000

  predicate IsCandidate(e: Entry, outDir: string, now: int) {
    e.path.dir == outDir && e.info.isFile && e.info.size >= MinSize && e.info.mtime >= now - RecentWindow
  }

  /** The qualifying entries of the output directory, in listing order. */
  function Candidates(fs: FileSystem, outDir: string, now: int): (r: seq<Entry>)
    ensures forall e :: e in r <==> e in fs && IsCandidate(e, outDir, now)
  {
    if |fs| == 0 then []
    else
      assert fs == [fs[0]] + fs[1..];
      (if IsCandidate(fs[0], outDir, now) then [fs[0]] else []) + Candidates(fs[1..], outDir, now)
  }

  /** The candidate's name contains the (truthy) media id. */
  predicate IdMatch(e: Entry, vidId: Option<string>) {
    Truthy(vidId) && Contains(e.path.name, vidId.value)
  }

  /** A truthy title made only of whitespace: `title.split()[0]` raises. */
  predicate TitleRaises(title: Option<string>) {
    Truthy(title) && FirstToken(title.value).None?
  }

  /** The candidate's name contains the first word of the (truthy) title. */
  predicate TitleMatch(e: Entry, title: Option<string>) {
    Truthy(title) && FirstToken(title.value).Some? && Contains(e.path.name, FirstToken(title.value).value)
  }

  predicate Matches(e: Entry, vidId: Option<string>, title: Option<string>) {
    IdMatch(e, vidId) || TitleMatch(e, title)
  }

  /** The scan over the ranked candidates: the index of the first one that
      matches, no match at all, or the `IndexError` of an all-blank title. */
  datatype ScanOutcome = Chosen(index: nat) | NoMatch | TitleError

  function Scan(cs: seq<Entry>, vidId: Option<string>, title: Option<string>): (r: ScanOutcome)
    ensures r.Chosen? ==> r.index < |cs| && Matches(cs[r.index], vidId, title)
    ensures r.Chosen? ==> forall j :: 0 <= j < r.index ==> !Matches(cs[j], vidId, title)
    ensures r.NoMatch? ==> forall j :: 0 <= j < |cs| ==> !Matches(cs[j], vidId, title)
    ensures r.TitleError? <==> |cs| > 0 && TitleRaises(title) && !IdMatch(cs[0], vidId)
  {
    if |cs| == 0 then NoMatch
    else if IdMatch(cs[0], vidId) then Chosen(0)
    else if Truthy(title) then
      match FirstToken(title.value)
      case None => TitleError
      case Some(tok) =>
        if Contains(cs[0].path.name, tok) then Chosen(0)
        else
          match Scan(cs[1..], vidId, title)
          case Chosen(i) => Chosen(i + 1)
          case other => other
    else
      match Scan(cs[1..], vidId, title)
      case Chosen(i) => Chosen(i + 1)
      case other => other
  }

  /** `e` is in `pool` and nothing in `pool` sorts before it. */
  predicate IsNewest(e: Entry, pool: set<Entry>) {
    e in pool && forall d :: d in pool ==> NotOlder(e, d)
  }

  function CandidateSet(fs: FileSystem, outDir: string, now: int): set<Entry> {
    set e | e in fs && IsCandidate(e, outDir, now)
  }

  function MatchingSet(fs: FileSystem, outDir: string, now: int, vidId: Option<string>, title: Option<string>): set<Entry> {
    set e | e in fs && IsCandidate(e, outDir, now) && Matches(e, vidId, title)
  }

  /** `candidates.sort(reverse=True)`: the candidates, newest first. */
  function Ranked(fs: FileSystem, outDir: string, now: int): (r: seq<Entry>)
    ensures SortedDesc(r)
    ensures forall e :: e in r <==> e in CandidateSet(fs, outDir, now)
    ensures |r| == |Candidates(fs, outDir, now)|
  {
    var cs := Candidates(fs, outDir, now);
    var r := SortDesc(cs);
    assert forall e :: e in r <==> e in cs by {
      forall e ensures e in r <==> e in cs {
        assert e in r <==> e in multiset(r);
        assert e in cs <==> e in multiset(cs);
      }
    }
    assert |r| == |cs| by {
      assert |multiset(r)| == |multiset(cs)|;
    }
    r
  }

  /** The recency scan: take the first ranked candidate that matches, else
      the newest; no candidate, or a title that raises, gives no file. */
  function PickRecent(fs: FileSystem, outDir: string, now: int, vidId: Option<string>, title: Option<string>): (r: Option<Path>)
    ensures r.Some? ==> exists e :: e in fs && IsCandidate(e, outDir, now) && e.path == r.value
    ensures |Candidates(fs, outDir, now)| == 0 ==> r.None?
    ensures r.None? && |Candidates(fs, outDir, now)| > 0 ==> TitleRaises(title)
    ensures |Candidates(fs, outDir, now)| > 0 ==>
              (r.None? <==> TitleRaises(title) && !IdMatch(Ranked(fs, outDir, now)[0], vidId))
  {
    var ranked := Ranked(fs, outDir, now);
    if |ranked| == 0 then None
    else
      assert ranked[0] in ranked;
      match Scan(ranked, vidId, title)
      case Chosen(i) =>
        assert ranked[i] in ranked;
        Some(ranked[i].path)
      case NoMatch => Some(ranked[0].path)
      case TitleError => None
  }

  /** In a list sorted newest first, the first matching element is the
      newest matching one. */
  lemma FirstMatchIsNewest(ranked: seq<Entry>, i: nat, vidId: Option<string>, title: Option<string>)
    requires SortedDesc(ranked) && i < |ranked|
    requires forall j :: 0 <= j < i ==> !Matches(ranked[j], vidId, title)
    ensures forall j :: 0 <= j < |ranked| && Matches(ranked[j], vidId, title) ==> NotOlder(ranked[i], ranked[j])
  {
    NotOlderReflexive(ranked[i]);
  }

  /** `p` is what the recency scan should pick: the path of the newest
      matching candidate, or of the newest candidate when none matches. */
  ghost predicate PickSpec(p: Path, fs: FileSystem, outDir: string, now: int, vidId: Option<string>, title: Option<string>) {
    var ms := MatchingSet(fs, outDir, now, vidId, title);
    exists e: Entry :: e.path == p && (if ms != {} then IsNewest(e, ms) else IsNewest(e, CandidateSet(fs, outDir, now)))
  }

  /** The partner of `PickRecent`: the file it picks is the newest matching
      candidate, or the newest candidate when none matches. */
  lemma PickIsNewestMatch(fs: FileSystem, outDir: string, now: int, vidId: Option<string>, title: Option<string>)
    requires PickRecent(fs, outDir, now, vidId, title).Some?
    ensures PickSpec(PickRecent(fs, outDir, now, vidId, title).value, fs, outDir, now, vidId, title)
  {
    var ranked := Ranked(fs, outDir, now);
    var ms := MatchingSet(fs, outDir, now, vidId, title);
    var all := CandidateSet(fs, outDir, now);
    match Scan(ranked, vidId, title)
    case Chosen(i) =>
      var e := ranked[i];
      assert e in ranked;
      FirstMatchIsNewest(ranked, i, vidId, title);
      forall d | d in ms ensures NotOlder(e, d) {
        assert d in ranked;
        var j :| 0 <= j < |ranked| && ranked[j] == d;
      }
      assert IsNewest(e, ms);
    case NoMatch =>
      var e := ranked[0];
      forall d | d in all ensures !Matches(d, vidId, title) {
        assert d in ranked;
        var j :| 0 <= j < |ranked| && ranked[j] == d;
      }
      assert ms == {};
      NotOlderReflexive(e);
      forall d | d in all ensures NotOlder(e, d) {
        var j :| 0 <= j < |ranked| && ranked[j] == d;
      }
      assert IsNewest(e, all);
    case TitleError =>
  }

  /** Ties are impossible in a consistent directory listing, so "the newest"
      names one entry and the pick is fully determined. */
  lemma NewestIsUnique(fs: FileSystem, a: Entry, b: Entry)
    requires Valid(fs) && a in fs && b in fs
    requires NotOlder(a, b) && NotOlder(b, a)
    ensures a == b
  {
    PathLessFacts(a.path, b.path, a.path);
    var i :| 0 <= i < |fs| && fs[i] == a;
    var j :| 0 <= j < |fs| && fs[j] == b;
    assert i == j;
  }

  /** The file the backend says it wrote, or its `.mp4` sibling, whichever
      exists first. `predicted` is `None` when the name could not be
      predicted. */
  function FromPrediction(fs: FileSystem, predicted: Option<Path>): (r: Option<Path>)
    ensures r.Some? ==> Exists(fs, r.value)
    ensures predicted.Some? && Exists(fs, predicted.value) ==> r == predicted
    ensures predicted.None? ==> r.None?
    ensures predicted.Some? && !Exists(fs, predicted.value) ==>
              (r.Some? <==> WithSuffix(predicted.value, ".mp4").Some? && Exists(fs, WithSuffix(predicted.value, ".mp4").value))
    ensures r.Some? && r != predicted ==> r == WithSuffix(predicted.value, ".mp4")
  {
    match predicted
    case None => None
    case Some(p) =>
      if Exists(fs, p) then predicted
      else
        match WithSuffix(p, ".mp4")
        case None => None
        case Some(m) => if Exists(fs, m) then Some(m) else None
  }

  function IdOf(info: Option<Info>): Option<string> {
    if info.Some? then info.value.id else None
  }

  function TitleOf(info: Option<Info>): Option<string> {
    if info.Some? then info.value.title else None
  }

  /** The file an attempt produced. `info2` is what the download returned and
      `info` what the earlier probe returned; the id and title are taken from
      the first that has a truthy one. */
  function ResolveOutput(fs: FileSystem, outDir: string, now: int, predicted: Option<Path>,
                         info2: Option<Info>, info: Option<Info>): (r: Option<Path>)
    ensures r.Some? ==> Exists(fs, r.value)
    ensures FromPrediction(fs, predicted).Some? ==> r == FromPrediction(fs, predicted)
    ensures FromPrediction(fs, predicted).None? && r.Some? ==>
              exists e :: e in fs && IsCandidate(e, outDir, now) && e.path == r.value
    ensures FromPrediction(fs, predicted).None? && |Candidates(fs, outDir, now)| == 0 ==> r.None?
    ensures FromPrediction(fs, predicted).None? ==>
              r == PickRecent(fs, outDir, now, OrElse(IdOf(info2), IdOf(info)), OrElse(TitleOf(info2), TitleOf(info)))
  {
    var fromName := FromPrediction(fs, predicted);
    if fromName.Some? then fromName
    else
      var vidId := OrElse(IdOf(info2), IdOf(info));
      var title := OrElse(TitleOf(info2), TitleOf(info));
      var r := PickRecent(fs, outDir, now, vidId, title);
      assert r.Some? ==> Exists(fs, r.value) by {
        if r.Some? {
          var e :| e in fs && IsCandidate(e, outDir, now) && e.path == r.value;
          assert e.path in PathsOf(fs);
        }
      }
      r
  }

  /** Without a usable predicted name, the resolved file is the newest
      candidate matching the id or title of the download's info (falling back
      to the probe's), or the newest candidate when none matches. */
  lemma ResolveOutputFallback(fs: FileSystem, outDir: string, now: int, predicted: Option<Path>,
                              info2: Option<Info>, info: Option<Info>)
    requires FromPrediction(fs, predicted).None?
    requires ResolveOutput(fs, outDir, now, predicted, info2, info).Some?
    ensures PickSpec(ResolveOutput(fs, outDir, now, predicted, info2, info).value, fs, outDir, now,
                     OrElse(IdOf(info2), IdOf(info)), OrElse(TitleOf(info2), TitleOf(info)))
  {
    PickIsNewestMatch(fs, outDir, now, OrElse(IdOf(info2), IdOf(info)), OrElse(TitleOf(info2), TitleOf(info)));
  }

  /** Two fresh candidates are ranked newer first. */
  lemma RankPair(a: Entry, b: Entry, outDir: string, now: int)
    requires IsCandidate(a, outDir, now) && IsCandidate(b, outDir, now) && Newer(b, a)
    ensures Ranked([a, b], outDir, now) == [b, a]
  {
    var fs := [a, b];
    assert fs[1..] == [b] && fs[1..][1..] == [];
    assert Candidates([b], outDir, now) == [b];
    assert Candidates(fs, outDir, now) == [a, b];
    assert [a, b][1..] == [b];
    assert SortDesc([b]) == [b];
    assert Insert(a, [b]) == [b] + Insert(a, []);
  }

  /** The scan does not prefer the id over the title: a newer file whose name
      starts with the title's first word beats an older one named by the id. */
  lemma TitleTokenCanOutrankId(older: Entry, newer: Entry, outDir: string, now: int,
                               id: string, word: string, rest: string)
    requires IsCandidate(older, outDir, now) && IsCandidate(newer, outDir, now)
    requires Newer(newer, older)
    requires id != "" && Contains(older.path.name, id)
    requires word != "" && forall i :: 0 <= i < |word| ==> !IsSpace(word[i])
    requires |rest| == 0 || IsSpace(rest[0])
    requires StartsWith(newer.path.name, word)
    ensures PickRecent([older, newer], outDir, now, Some(id), Some(word + rest)) == Some(newer.path)
  {
    RankPair(older, newer, outDir, now);
    FirstTokenOf(word, rest);
    ContainsAt(newer.path.name, word, 0);
    assert TitleMatch(newer, Some(word + rest));
    assert Scan([newer, older], Some(id), Some(word + rest)) == Chosen(0);
  }
}
