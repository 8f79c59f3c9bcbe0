/** What happens to the file an attempt produced before it is reported: an
    extensionless file gets the extension its header reveals, and a file
    outside the videos directory is moved into it. Either step keeps the
    file where it was when the rename or move fails. */
module Placement {
  import opened Common
  import opened Paths
  import opened Fs
  import opened Sniff

  /** `VIDEOS_DIR`, the directory every downloaded video ends up in. */
  const VideosDir: string := "D:\\Huzaifa\\Videos\\video downloads"

  /** The file system after a step and the path the file now has. */
  datatype Placed = Placed(fs: FileSystem, path: Path)

  /** The target a rename or move settles on: `dest` itself, or
      `unique_path(dest)` when `dest` is taken and overwriting is off. */
  function Target(fs: FileSystem, dest: Path, force: bool, ts: string): (r: Path)
    ensures r.dir == dest.dir
    ensures force || !Exists(fs, dest) ==> r == dest
    ensures !force && Exists(fs, dest) ==> r == UniquePath(dest, PathsOf(fs), ts) && r != dest
  {
    if Exists(fs, dest) && !force then UniquePath(dest, PathsOf(fs), ts) else dest
  }

  /** A dot followed by at least one character, none of them a dot. */
  predicate IsExtension(ext: string) {
    |ext| >= 2 && ext[0] == '.' && forall j :: 1 <= j < |ext| ==> ext[j] != '.'
  }

  lemma SniffedExtensions()
    ensures forall e :: e in Priority ==> IsExtension(e)
  {
  }

  /** Appending an extension to a non-empty name makes it the name's suffix. */
  lemma AppendedSuffix(name: string, ext: string)
    requires name != "" && IsExtension(ext)
    ensures Suffix(name + ext) == ext
    ensures Stem(name + ext) == name
  {
    LastIndexOfAt(ext, '.', 0);
    LastIndexOfAppend(name, ext, '.');
    assert (name + ext)[|name|..] == ext;
  }

  /** The extension an extensionless file is missing, according to its
      header; `None` when it has a suffix or the header says nothing. */
  function MissingExtension(fs: FileSystem, p: Path): (r: Option<string>)
    requires Exists(fs, p)
    ensures r.Some? ==> Suffix(p.name) == "" && r == DetectContainerExt(ReadBytes(fs, p)) && IsExtension(r.value)
    ensures r.None? ==> Suffix(p.name) != "" || DetectContainerExt(ReadBytes(fs, p)).None?
  {
    SniffedExtensions();
    if Suffix(p.name) != "" then None else DetectContainerExt(ReadBytes(fs, p))
  }

  /** The extension fix. `renameOk` says whether the rename succeeds. */
  function FixExtension(fs: FileSystem, p: Path, force: bool, ts: string, renameOk: bool): (r: Placed)
    requires Exists(fs, p)
    ensures Exists(r.fs, r.path) && Lookup(r.fs, r.path) == Lookup(fs, p)
    ensures r.path.dir == p.dir
    ensures MissingExtension(fs, p).None? || !renameOk ==> r == Placed(fs, p)
    ensures MissingExtension(fs, p).Some? && renameOk ==> r.path != p && r.fs == Move(fs, p, r.path)
    ensures var ext := MissingExtension(fs, p);
            ext.Some? && renameOk && (force || !Exists(fs, WithName(p, p.name + ext.value))) ==>
              r.path.name == p.name + ext.value
    ensures var ext := MissingExtension(fs, p);
            ext.Some? && renameOk && p.name != "" && !force && Exists(fs, WithName(p, p.name + ext.value)) ==>
              Exists(fs, WithName(p, p.name + ext.value)) && r.path.name != p.name + ext.value
              && StartsWith(r.path.name, p.name) && EndsWith(r.path.name, ext.value)
    ensures var ext := MissingExtension(fs, p);
            ext.Some? && renameOk && !force && Exists(fs, WithName(p, p.name + ext.value)) ==>
              r.path == UniquePath(WithName(p, p.name + ext.value), PathsOf(fs), ts)
  {
    match MissingExtension(fs, p)
    case None => Placed(fs, p)
    case Some(ext) =>
      if !renameOk then Placed(fs, p)
      else
        var dest := Target(fs, WithName(p, p.name + ext), force, ts);
        assert |dest.name| > |p.name|;
        assert p.name != "" ==> Stem(p.name + ext) == p.name && Suffix(p.name + ext) == ext by {
          if p.name != "" {
            AppendedSuffix(p.name, ext);
          }
        }
        var moved := Move(fs, p, dest);
        Placed(moved, dest)
  }

  /** A successful fix gives the file the sniffed extension as its suffix,
      even when the name had to be stamped. */
  lemma FixedFileHasSuffix(fs: FileSystem, p: Path, force: bool, ts: string)
    requires Exists(fs, p) && p.name != "" && IsTimestamp(ts)
    requires MissingExtension(fs, p).Some?
    ensures Suffix(FixExtension(fs, p, force, ts, true).path.name) == MissingExtension(fs, p).value
  {
    var ext := MissingExtension(fs, p).value;
    var dest := WithName(p, p.name + ext);
    AppendedSuffix(p.name, ext);
    if !force && Exists(fs, dest) {
      UniquePathKeepsSuffix(dest, PathsOf(fs), ts);
    }
  }

  /** Fixing is done once: the renamed file has a suffix, so a second pass
      over it, whatever its oracle says, leaves everything as it is. */
  lemma FixExtensionOnce(fs: FileSystem, p: Path, force: bool, ts: string,
                         force2: bool, ts2: string, renameOk2: bool)
    requires Exists(fs, p) && p.name != "" && IsTimestamp(ts)
    ensures var r := FixExtension(fs, p, force, ts, true);
            r.path != p ==> FixExtension(r.fs, r.path, force2, ts2, renameOk2) == r
  {
    var r := FixExtension(fs, p, force, ts, true);
    if r.path != p {
      FixedFileHasSuffix(fs, p, force, ts);
    }
  }

  /** `str(VIDEOS_DIR) in str(final_path.parent)`: a substring test. */
  predicate InVideosDir(dir: string) {
    Contains(dir, VideosDir)
  }

  /** The move into the videos directory. `moveOk` says whether the move
      succeeds. */
  function PlaceInVideos(fs: FileSystem, p: Path, force: bool, ts: string, moveOk: bool): (r: Placed)
    requires Exists(fs, p)
    ensures Exists(r.fs, r.path) && Lookup(r.fs, r.path) == Lookup(fs, p)
    ensures r.path.name == p.name || (!force && r.path.dir == VideosDir && Exists(fs, Path(VideosDir, p.name)))
    ensures InVideosDir(p.dir) || !moveOk ==> r == Placed(fs, p)
    ensures !InVideosDir(p.dir) && moveOk ==>
              r.path.dir == VideosDir && !Exists(r.fs, p) && r.fs == Move(fs, p, r.path)
    ensures !InVideosDir(p.dir) && moveOk && (force || !Exists(fs, Path(VideosDir, p.name))) ==>
              r.path == Path(VideosDir, p.name)
    ensures !InVideosDir(p.dir) && moveOk && !force && Exists(fs, Path(VideosDir, p.name)) ==>
              r.path == UniquePath(Path(VideosDir, p.name), PathsOf(fs), ts)
    ensures moveOk ==> InVideosDir(r.path.dir)
  {
    ContainsAt(VideosDir, VideosDir, 0);
    if InVideosDir(p.dir) || !moveOk then Placed(fs, p)
    else
      var dest := Target(fs, Path(VideosDir, p.name), force, ts);
      assert dest != p;
      var moved := Move(fs, p, dest);
      Placed(moved, dest)
  }

  /** The move never changes a file's extension, even when it stamps the
      name. */
  lemma PlacedKeepsSuffix(fs: FileSystem, p: Path, force: bool, ts: string, moveOk: bool, ext: string)
    requires Exists(fs, p) && IsTimestamp(ts) && IsExtension(ext) && Suffix(p.name) == ext
    ensures Suffix(PlaceInVideos(fs, p, force, ts, moveOk).path.name) == ext
  {
    var dest := Path(VideosDir, p.name);
    if !InVideosDir(p.dir) && moveOk && !force && Exists(fs, dest) {
      assert p.name[|p.name| - 1] == ext[|ext| - 1];
      UniquePathKeepsSuffix(dest, PathsOf(fs), ts);
    }
  }

  /** A moved file is not moved again. */
  lemma PlaceInVideosOnce(fs: FileSystem, p: Path, force: bool, ts: string,
                          force2: bool, ts2: string, moveOk2: bool)
    requires Exists(fs, p)
    ensures var r := PlaceInVideos(fs, p, force, ts, true);
            PlaceInVideos(r.fs, r.path, force2, ts2, moveOk2) == r
  {
  }

  /** Without the force flag a move replaces no other file, provided the
      name it settles on was free. */
  lemma PlacementKeepsOtherFiles(fs: FileSystem, p: Path, ts: string, moveOk: bool)
    requires Exists(fs, p)
    requires !Exists(fs, Target(fs, Path(VideosDir, p.name), false, ts))
    ensures var r := PlaceInVideos(fs, p, false, ts, moveOk);
            forall q :: q != p && Exists(fs, q) ==> Exists(r.fs, q) && Lookup(r.fs, q) == Lookup(fs, q)
  {
  }

  /** The placement test is a substring test: a sibling directory whose
      name merely extends the videos directory's is taken for it, and the
      file stays where it is. */
  lemma SiblingDirectoryNotMoved(fs: FileSystem, name: string, force: bool, ts: string, moveOk: bool)
    requires Exists(fs, Path(VideosDir + " old", name))
    ensures PlaceInVideos(fs, Path(VideosDir + " old", name), force, ts, moveOk) == Placed(fs, Path(VideosDir + " old", name))
  {
    ContainsAt(VideosDir + " old", VideosDir, 0);
  }

  /** `unique_path` does not check the stamped name: when it is taken too,
      the move replaces the file already there. */
  lemma PlacementMayOverwrite(src: FileInfo, first: FileInfo, second: FileInfo)
    requires second != src
    ensures var p := Path("C:\\tmp", "a.mp4");
            var taken := Path(VideosDir, "a.mp4");
            var stamped := Path(VideosDir, "a_20240101_120000.mp4");
            var fs := [Entry(p, src), Entry(taken, first), Entry(stamped, second)];
            var r := PlaceInVideos(fs, p, false, "20240101_120000", true);
            r.path == stamped && Exists(fs, stamped) && Lookup(r.fs, stamped) == src
  {
    var p := Path("C:\\tmp", "a.mp4");
    var taken := Path(VideosDir, "a.mp4");
    var stamped := Path(VideosDir, "a_20240101_120000.mp4");
    var fs := [Entry(p, src), Entry(taken, first), Entry(stamped, second)];
    assert Entry(taken, first) in fs && Entry(stamped, second) in fs;
    assert Exists(fs, taken) && Exists(fs, stamped) && Exists(fs, p);
    assert Lookup(fs, p) == src;
    assert !InVideosDir(p.dir) by {
      assert |p.dir| < |VideosDir|;
    }
    UniquePathMayCollide(VideosDir, PathsOf(fs));
    assert Target(fs, taken, false, "20240101_120000") == stamped;
  }
}
