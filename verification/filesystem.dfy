/** An abstract file system: the directory entries the downloader can see,
    each with the attributes it reads (`is_file`, size, modification time
    and, for sniffing, the bytes of the file). Renames and moves replace an
    existing target, as `os.rename` and `shutil.move` do on POSIX. */
module Fs {
  import opened Common
  import opened Paths

  /** `content` is `None` when the file cannot be opened for reading; `mtime`
      is in nanoseconds since the epoch. */
  datatype FileInfo = FileInfo(isFile: bool, size: nat, mtime: int, content: Option<seq<byte>>)

  datatype Entry = Entry(path: Path, info: FileInfo)

  type FileSystem = seq<Entry>

  /** No path is listed twice. */
  predicate Valid(fs: FileSystem) {
    forall i, j :: 0 <= i < j < |fs| ==> fs[i].path != fs[j].path
  }

  function PathsOf(fs: FileSystem): set<Path> {
    set e | e in fs :: e.path
  }

  lemma PathsOfConcat(a: FileSystem, b: FileSystem)
    ensures PathsOf(a + b) == PathsOf(a) + PathsOf(b)
  {
    forall q | q in PathsOf(a + b) ensures q in PathsOf(a) + PathsOf(b) {
      var e :| e in a + b && e.path == q;
    }
    forall q | q in PathsOf(a) + PathsOf(b) ensures q in PathsOf(a + b) {
      if q in PathsOf(a) {
        var e :| e in a && e.path == q;
        assert e in a + b;
      } else {
        var e :| e in b && e.path == q;
        assert e in a + b;
      }
    }
  }

  /** `Path.exists()`. */
  predicate Exists(fs: FileSystem, p: Path) {
    p in PathsOf(fs)
  }

  function Lookup(fs: FileSystem, p: Path): (r: FileInfo)
    requires Exists(fs, p)
    ensures Entry(p, r) in fs
  {
    if fs[0].path == p then fs[0].info
    else
      assert Exists(fs[1..], p) by {
        var e :| e in fs && e.path == p;
        assert e in fs[1..];
      }
      Lookup(fs[1..], p)
  }

  /** In a valid file system an entry's attributes are what `Lookup` finds. */
  lemma LookupEntry(fs: FileSystem, e: Entry)
    requires Valid(fs) && e in fs
    ensures Lookup(fs, e.path) == e.info
  {
    var i :| 0 <= i < |fs| && fs[i] == e;
    var j :| 0 <= j < |fs| && fs[j] == Entry(e.path, Lookup(fs, e.path));
    assert i == j;
  }

  /** What the file system reads back from `p`: only a regular file can be
      opened. */
  function ReadBytes(fs: FileSystem, p: Path): Option<seq<byte>>
    requires Exists(fs, p)
  {
    var fi := Lookup(fs, p);
    if fi.isFile then fi.content else None
  }

  /** The entries without `p`. */
  function Remove(fs: FileSystem, p: Path): (r: FileSystem)
    ensures PathsOf(r) == PathsOf(fs) - {p}
    ensures forall e :: e in r ==> e in fs
    ensures Valid(fs) ==> Valid(r)
    ensures forall q :: q != p && Exists(fs, q) ==> Lookup(r, q) == Lookup(fs, q)
  {
    if |fs| == 0 then []
    else
      var rest := Remove(fs[1..], p);
      assert fs == [fs[0]] + fs[1..];
      PathsOfConcat([fs[0]], fs[1..]);
      PathsOfConcat([fs[0]], rest);
      assert PathsOf([fs[0]]) == {fs[0].path};
      if fs[0].path == p then rest else [fs[0]] + rest
  }

  /** `os.rename(src, dst)` / `shutil.move(src, dst)`: `dst` takes `src`'s
      attributes, replacing whatever was there, and `src` disappears. */
  function Move(fs: FileSystem, src: Path, dst: Path): (r: FileSystem)
    requires Exists(fs, src)
    ensures Valid(fs) ==> Valid(r)
    ensures PathsOf(r) == PathsOf(fs) - {src} + {dst}
    ensures Exists(r, dst) && Lookup(r, dst) == Lookup(fs, src)
    ensures forall q :: q != src && q != dst && Exists(fs, q) ==> Exists(r, q) && Lookup(r, q) == Lookup(fs, q)
  {
    var info := Lookup(fs, src);
    var kept := Remove(Remove(fs, src), dst);
    var r := kept + [Entry(dst, info)];
    assert Valid(fs) ==> Valid(r) by {
      if Valid(fs) {
        assert dst !in PathsOf(kept);
        forall i, j | 0 <= i < j < |r| ensures r[i].path != r[j].path {
          if j == |r| - 1 {
            assert r[i] in kept;
          }
        }
      }
    }
    PathsOfConcat(kept, [Entry(dst, info)]);
    assert PathsOf([Entry(dst, info)]) == {dst};
    LookupLast(kept, Entry(dst, info));
    forall q | q != src && q != dst && Exists(fs, q)
      ensures Exists(r, q) && Lookup(r, q) == Lookup(fs, q)
    {
      LookupAppend(kept, Entry(dst, info), q);
    }
    r
  }

  lemma {:induction false} LookupAppend(fs: FileSystem, e: Entry, q: Path)
    requires Exists(fs, q)
    ensures Exists(fs + [e], q) && Lookup(fs + [e], q) == Lookup(fs, q)
    decreases |fs|
  {
    var s := fs + [e];
    assert e in s;
    assert forall x :: x in fs ==> x in s;
    if fs[0].path != q {
      assert s[1..] == fs[1..] + [e];
      assert Exists(fs[1..], q) by {
        var x :| x in fs && x.path == q;
        assert x in fs[1..];
      }
      LookupAppend(fs[1..], e, q);
    }
  }

  lemma {:induction false} LookupLast(fs: FileSystem, e: Entry)
    requires !Exists(fs, e.path)
    ensures Exists(fs + [e], e.path) && Lookup(fs + [e], e.path) == e.info
    decreases |fs|
  {
    var s := fs + [e];
    assert e in s;
    if |fs| > 0 {
      assert fs[0] in fs;
      assert s[1..] == fs[1..] + [e];
      assert !Exists(fs[1..], e.path) by {
        forall x | x in fs[1..] ensures x.path != e.path {
          assert x in fs;
        }
      }
      LookupLast(fs[1..], e);
    }
  }
}
