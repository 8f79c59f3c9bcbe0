/** The order `candidates.sort(reverse=True)` puts directory entries in:
    by modification time, then by path, newest first. The path order is
    Python's string order, lexicographic by code point. */
module Ordering {
  import opened Paths
  import opened Fs

  /** Python `a < b` on strings. */
  predicate StrLess(a: string, b: string)
    decreases |a|
  {
    if |b| == 0 then false
    else if |a| == 0 then true
    else if a[0] != b[0] then a[0] < b[0]
    else StrLess(a[1..], b[1..])
  }

  lemma {:induction false} StrLessIrreflexive(a: string)
    ensures !StrLess(a, a)
    decreases |a|
  {
    if |a| > 0 {
      StrLessIrreflexive(a[1..]);
    }
  }

  lemma {:induction false} StrLessTransitive(a: string, b: string, c: string)
    requires StrLess(a, b) && StrLess(b, c)
    ensures StrLess(a, c)
    decreases |a|
  {
    if |a| > 0 && a[0] == b[0] && b[0] == c[0] {
      StrLessTransitive(a[1..], b[1..], c[1..]);
    }
  }

  lemma {:induction false} StrLessTrichotomy(a: string, b: string)
    ensures a == b || StrLess(a, b) || StrLess(b, a)
    decreases |a|
  {
    if |a| > 0 && |b| > 0 && a[0] == b[0] {
      StrLessTrichotomy(a[1..], b[1..]);
      if a[1..] == b[1..] {
        assert a == [a[0]] + a[1..] && b == [b[0]] + b[1..];
      }
    }
  }

  /** Path order: by directory, then by name. */
  predicate PathLess(p: Path, q: Path) {
    StrLess(p.dir, q.dir) || (p.dir == q.dir && StrLess(p.name, q.name))
  }

  /** `a` sorts strictly before `b` in the descending order. */
  predicate Newer(a: Entry, b: Entry) {
    a.info.mtime > b.info.mtime || (a.info.mtime == b.info.mtime && PathLess(b.path, a.path))
  }

  /** `a` may sort before `b`. */
  predicate NotOlder(a: Entry, b: Entry) {
    !Newer(b, a)
  }

  lemma PathLessFacts(p: Path, q: Path, s: Path)
    ensures !PathLess(p, p)
    ensures PathLess(p, q) && PathLess(q, s) ==> PathLess(p, s)
    ensures p == q || PathLess(p, q) || PathLess(q, p)
  {
    StrLessIrreflexive(p.dir);
    StrLessIrreflexive(p.name);
    if PathLess(p, q) && PathLess(q, s) {
      if StrLess(p.dir, q.dir) && StrLess(q.dir, s.dir) {
        StrLessTransitive(p.dir, q.dir, s.dir);
      } else if p.dir == q.dir && q.dir == s.dir {
        StrLessTransitive(p.name, q.name, s.name);
      }
    }
    StrLessTrichotomy(p.dir, q.dir);
    StrLessTrichotomy(p.name, q.name);
  }

  lemma NotOlderTotal(a: Entry, b: Entry)
    ensures NotOlder(a, b) || NotOlder(b, a)
  {
    PathLessFacts(a.path, b.path, a.path);
  }

  lemma NotOlderReflexive(a: Entry)
    ensures NotOlder(a, a)
  {
    PathLessFacts(a.path, a.path, a.path);
  }

  lemma NotOlderTransitive(a: Entry, b: Entry, c: Entry)
    requires NotOlder(a, b) && NotOlder(b, c)
    ensures NotOlder(a, c)
  {
    if a.info.mtime == b.info.mtime == c.info.mtime {
      PathLessFacts(a.path, b.path, c.path);
      PathLessFacts(b.path, a.path, c.path);
      PathLessFacts(a.path, c.path, b.path);
    }
  }

  predicate SortedDesc(s: seq<Entry>) {
    forall i, j :: 0 <= i < j < |s| ==> NotOlder(s[i], s[j])
  }

  function Insert(x: Entry, s: seq<Entry>): (r: seq<Entry>)
    requires SortedDesc(s)
    ensures SortedDesc(r)
    ensures multiset(r) == multiset(s) + multiset{x}
  {
    if |s| == 0 || NotOlder(x, s[0]) then
      assert forall j :: 0 <= j < |s| ==> NotOlder(x, s[j]) by {
        forall j | 0 <= j < |s| ensures NotOlder(x, s[j]) {
          if j > 0 {
            NotOlderTransitive(x, s[0], s[j]);
          }
        }
      }
      [x] + s
    else
      NotOlderTotal(x, s[0]);
      var rest := Insert(x, s[1..]);
      assert s == [s[0]] + s[1..];
      assert forall e :: e in rest ==> NotOlder(s[0], e) by {
        forall e | e in rest ensures NotOlder(s[0], e) {
          assert e in multiset(rest);
          if e != x {
            assert e in multiset(s[1..]);
            var k :| 0 <= k < |s[1..]| && s[1..][k] == e;
            assert s[k + 1] == e;
          }
        }
      }
      [s[0]] + rest
  }

  /** The candidates in `sort(reverse=True)` order. */
  function SortDesc(s: seq<Entry>): (r: seq<Entry>)
    ensures SortedDesc(r)
    ensures multiset(r) == multiset(s)
  {
    if |s| == 0 then []
    else
      assert s == [s[0]] + s[1..];
      Insert(s[0], SortDesc(s[1..]))
  }
}
