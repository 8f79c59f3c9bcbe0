/** File-system paths as the downloader manipulates them through `pathlib`:
    a parent directory string and a final name, the name's suffix and stem,
    and the collision-avoiding `unique_path` helper. */
module Paths {
  import opened Common

  /** `Path(dir, name)` stands for the path whose `.parent` renders as `dir`
      and whose `.name` is `name`. */
  datatype Path = Path(dir: string, name: string)

  /** Python `s.rfind(c)`: the last index holding `c`, or -1. */
  function LastIndexOf(s: string, c: char): (r: int)
    ensures -1 <= r < |s|
    ensures r >= 0 ==> s[r] == c
    ensures forall j :: r < j < |s| ==> s[j] != c
  {
    if |s| == 0 then -1
    else if s[|s| - 1] == c then |s| - 1
    else LastIndexOf(s[..|s| - 1], c)
  }

  /** `PurePath.suffix`: from the last dot, provided that dot is neither the
      first nor the last character of the name. */
  function Suffix(name: string): (r: string)
    ensures r == "" || (2 <= |r| < |name| && r[0] == '.' && EndsWith(name, r))
    ensures r != "" ==> forall j :: 1 <= j < |r| ==> r[j] != '.'
  {
    var i := LastIndexOf(name, '.');
    if 0 < i < |name| - 1 then name[i..] else ""
  }

  /** `PurePath.stem`: the name without its suffix. */
  function Stem(name: string): (r: string)
    ensures r + Suffix(name) == name
  {
    name[..|name| - |Suffix(name)|]
  }

  /** `PurePath.with_name`. */
  function WithName(p: Path, name: string): (r: Path)
    ensures r.dir == p.dir && r.name == name
  {
    Path(p.dir, name)
  }

  /** `PurePath.with_suffix(suffix)`; `None` where pathlib raises because the
      name is empty. */
  function WithSuffix(p: Path, suffix: string): (r: Option<Path>)
    ensures r.None? <==> p.name == ""
    ensures r.Some? ==> r.value.dir == p.dir && r.value.name == Stem(p.name) + suffix
  {
    if p.name == "" then None else Some(Path(p.dir, Stem(p.name) + suffix))
  }

  /** The shape of `time.strftime("%Y%m%d_%H%M%S")`: eight digits, an
      underscore, six digits. */
  predicate IsTimestamp(ts: string) {
    && |ts| == 15
    && ts[8] == '_'
    && forall i :: 0 <= i < |ts| && i != 8 ==> '0' <= ts[i] <= '9'
  }

  /** `unique_path`: a free path is returned as it is; an occupied one gets
      `_<ts>` between its stem and its suffix. `occupied` is the set of paths
      that exist and `ts` the current timestamp. */
  function UniquePath(p: Path, occupied: set<Path>, ts: string): (r: Path)
    ensures r.dir == p.dir
    ensures p !in occupied ==> r == p
    ensures p in occupied ==> r != p && |r.name| == |p.name| + 1 + |ts|
    ensures p in occupied ==> StartsWith(r.name, Stem(p.name)) && EndsWith(r.name, Suffix(p.name))
  {
    if p !in occupied then p
    else WithName(p, Stem(p.name) + "_" + ts + Suffix(p.name))
  }

  /** The last `c` is at `i` when `s[i]` is `c` and nothing after it is. */
  lemma {:induction false} LastIndexOfAt(s: string, c: char, i: int)
    requires 0 <= i < |s| && s[i] == c
    requires forall j :: i < j < |s| ==> s[j] != c
    ensures LastIndexOf(s, c) == i
    decreases |s|
  {
    if i < |s| - 1 {
      LastIndexOfAt(s[..|s| - 1], c, i);
    }
  }

  lemma {:induction false} LastIndexOfAppend(a: string, b: string, c: char)
    requires c in b
    ensures LastIndexOf(a + b, c) == |a| + LastIndexOf(b, c)
    decreases |b|
  {
    var s := a + b;
    if b[|b| - 1] == c {
    } else {
      assert s[..|s| - 1] == a + b[..|b| - 1];
      assert c in b[..|b| - 1] by {
        var k :| 0 <= k < |b| && b[k] == c;
        assert b[..|b| - 1][k] == c;
      }
      LastIndexOfAppend(a, b[..|b| - 1], c);
    }
  }

  /** A stamped name still splits into the original suffix and the original
      stem followed by `_<ts>`: the stamp never swallows the extension, and
      an extensionless name stays extensionless. Only a name ending in a dot
      behaves otherwise (`UniquePathTrailingDot`). */
  lemma UniquePathKeepsSuffix(p: Path, occupied: set<Path>, ts: string)
    requires p in occupied && IsTimestamp(ts)
    requires |p.name| == 0 || p.name[|p.name| - 1] != '.'
    ensures Suffix(UniquePath(p, occupied, ts).name) == Suffix(p.name)
    ensures Stem(UniquePath(p, occupied, ts).name) == Stem(p.name) + "_" + ts
  {
    var name := p.name;
    assert UniquePath(p, occupied, ts).name == Stem(name) + "_" + ts + Suffix(name);
    if Suffix(name) == "" {
      StampWithoutSuffix(name, ts);
    } else {
      StampWithSuffix(name, ts);
    }
  }

  /** Stamping a name without a suffix, that does not end in a dot, leaves it
      without a suffix. */
  lemma StampWithoutSuffix(name: string, ts: string)
    requires Suffix(name) == "" && IsTimestamp(ts)
    requires |name| == 0 || name[|name| - 1] != '.'
    ensures Suffix(Stem(name) + "_" + ts + Suffix(name)) == ""
    ensures Stem(Stem(name) + "_" + ts + Suffix(name)) == Stem(name) + "_" + ts
  {
    var n := name + "_" + ts;
    assert Stem(name) == name;
    assert Stem(name) + "_" + ts + Suffix(name) == n;
    StampPlain(name, ts);
    assert Stem(n) == n;
  }

  /** `name_ts` has no suffix when `name` has none and does not end in a dot. */
  lemma StampPlain(name: string, ts: string)
    requires Suffix(name) == "" && IsTimestamp(ts)
    requires |name| == 0 || name[|name| - 1] != '.'
    ensures Suffix(name + "_" + ts) == ""
  {
    var tail := "_" + ts;
    var n := name + tail;
    assert forall j :: 0 <= j < |tail| ==> tail[j] != '.' by {
      forall j | 0 <= j < |tail| ensures tail[j] != '.' {
        if j > 0 {
          assert tail[j] == ts[j - 1];
        }
      }
    }
    var i := LastIndexOf(name, '.');
    if i >= 0 {
      assert i == 0 || i == |name| - 1;
      assert i == 0;
      forall j | 0 < j < |n| ensures n[j] != '.' {
        if j >= |name| {
          assert n[j] == tail[j - |name|];
        }
      }
      LastIndexOfAt(n, '.', 0);
    } else {
      assert '.' !in n by {
        forall j | 0 <= j < |n| ensures n[j] != '.' {
          if j >= |name| {
            assert n[j] == tail[j - |name|];
          }
        }
      }
      LastIndexOfNone(n, '.');
    }
  }

  /** `rfind` gives -1 when the character does not occur. */
  lemma LastIndexOfNone(s: string, c: char)
    requires c !in s
    ensures LastIndexOf(s, c) == -1
  {
  }

  lemma StampWithSuffix(name: string, ts: string)
    requires Suffix(name) != "" && IsTimestamp(ts)
    ensures Suffix(Stem(name) + "_" + ts + Suffix(name)) == Suffix(name)
    ensures Stem(Stem(name) + "_" + ts + Suffix(name)) == Stem(name) + "_" + ts
  {
    var suf := Suffix(name);
    var head := Stem(name) + "_" + ts;
    var n := head + suf;
    assert LastIndexOf(n, '.') == |head| by {
      assert LastIndexOf(suf, '.') == 0 by {
        assert suf[0] == '.';
        assert forall j :: 0 < j < |suf| ==> suf[j] != '.';
      }
      LastIndexOfAppend(head, suf, '.');
    }
    assert n[|head|..] == suf;
  }

  /** A name with a dot at its end has no suffix, so stamping it creates one:
      `a.` becomes `a._<ts>`, whose suffix is `._<ts>`. */
  lemma UniquePathTrailingDot(ts: string)
    requires IsTimestamp(ts)
    ensures var p := Path("d", "a.");
            Suffix(UniquePath(p, {p}, ts).name) == "._" + ts
  {
    var p := Path("d", "a.");
    assert Suffix("a.") == "" by {
      LastIndexOfAt("a.", '.', 1);
    }
    var n := UniquePath(p, {p}, ts).name;
    assert n == "a." + ("_" + ts);
    assert '.' !in "_" + ts by {
      assert forall j :: 0 <= j < |ts| ==> ts[j] != '.';
    }
    assert forall j :: 1 < j < |n| ==> n[j] != '.';
    LastIndexOfAt(n, '.', 1);
  }

  /** `unique_path` checks only the path it is given: when the stamped name is
      also taken, it returns an occupied path. */
  lemma UniquePathMayCollide(dir: string, occupied: set<Path>)
    requires Path(dir, "a.mp4") in occupied && Path(dir, "a_20240101_120000.mp4") in occupied
    ensures UniquePath(Path(dir, "a.mp4"), occupied, "20240101_120000") == Path(dir, "a_20240101_120000.mp4")
  {
    var p := Path(dir, "a.mp4");
    NameParts();
    assert UniquePath(p, occupied, "20240101_120000").name == "a" + "_" + "20240101_120000" + ".mp4";
    assert "a" + "_" + "20240101_120000" + ".mp4" == "a_20240101_120000.mp4";
  }

  lemma NameParts()
    ensures Suffix("a.mp4") == ".mp4" && Stem("a.mp4") == "a"
  {
    LastIndexOfAt("a.mp4", '.', 1);
  }
}
