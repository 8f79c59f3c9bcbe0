/** The order-preserving de-duplication (`uniq`) applied to the video and
    image links a page scan discovers. */
module Dedup {

  /** Index of the first occurrence of `x` in `xs`. */
  function FirstIndex<T(==)>(xs: seq<T>, x: T): (r: nat)
    requires x in xs
    ensures r < |xs| && xs[r] == x && x !in xs[..r]
  {
    if xs[0] == x then 0 else 1 + FirstIndex(xs[1..], x)
  }

  lemma FirstIndexAt<T>(xs: seq<T>, i: nat)
    requires i < |xs| && xs[i] !in xs[..i]
    ensures FirstIndex(xs, xs[i]) == i
  {
  }

  lemma FirstIndexBefore<T>(xs: seq<T>, i: nat, x: T)
    requires i <= |xs| && x in xs[..i]
    ensures FirstIndex(xs, x) < i
  {
  }

  /** Reference definition: the first occurrences of the non-empty elements,
      built from the back. */
  function KeepFirst(xs: seq<string>): (r: seq<string>)
    ensures forall x :: x in r <==> x in xs && x != ""
    ensures forall a, b :: 0 <= a < b < |r| ==> r[a] != r[b]
  {
    if |xs| == 0 then []
    else
      var init := xs[..|xs| - 1];
      var x := xs[|xs| - 1];
      assert xs == init + [x];
      KeepFirst(init) + (if x != "" && x !in init then [x] else [])
  }

  /** A list that is already free of blanks and repeats is left as it is. */
  lemma {:induction false} KeepFirstOfDistinct(ys: seq<string>)
    requires forall k :: 0 <= k < |ys| ==> ys[k] != ""
    requires forall a, b :: 0 <= a < b < |ys| ==> ys[a] != ys[b]
    ensures KeepFirst(ys) == ys
    decreases |ys|
  {
    if |ys| > 0 {
      var init := ys[..|ys| - 1];
      KeepFirstOfDistinct(init);
      assert ys[|ys| - 1] !in init;
      assert init + [ys[|ys| - 1]] == ys;
    }
  }

  /** De-duplicating twice is de-duplicating once. */
  lemma KeepFirstIdempotent(xs: seq<string>)
    ensures KeepFirst(KeepFirst(xs)) == KeepFirst(xs)
  {
    var r := KeepFirst(xs);
    assert forall k :: 0 <= k < |r| ==> r[k] != "" by {
      forall k | 0 <= k < |r| ensures r[k] != "" {
        assert r[k] in r;
      }
    }
    KeepFirstOfDistinct(r);
  }

  /** The first occurrence of an element of a prefix lies in the prefix. */
  lemma {:induction false} FirstIndexPrefix<T>(xs: seq<T>, n: nat, y: T)
    requires n <= |xs| && y in xs[..n]
    ensures FirstIndex(xs, y) == FirstIndex(xs[..n], y)
    decreases n
  {
    if xs[0] != y {
      assert xs[..n][1..] == xs[1..][..n - 1];
      assert y in xs[1..][..n - 1];
      FirstIndexPrefix(xs[1..], n - 1, y);
    }
  }

  /** The reference keeps first occurrences in the order they occur. */
  lemma {:induction false} KeepFirstOrder(xs: seq<string>)
    ensures forall a, b :: 0 <= a < b < |KeepFirst(xs)| ==>
              FirstIndex(xs, KeepFirst(xs)[a]) < FirstIndex(xs, KeepFirst(xs)[b])
    decreases |xs|
  {
    if |xs| > 0 {
      var init := xs[..|xs| - 1];
      var x := xs[|xs| - 1];
      var left := KeepFirst(init);
      var r := KeepFirst(xs);
      KeepFirstOrder(init);
      assert xs[..|init|] == init;
      forall k | 0 <= k < |left|
        ensures FirstIndex(xs, left[k]) == FirstIndex(init, left[k]) < |init|
      {
        assert left[k] in left;
        FirstIndexPrefix(xs, |init|, left[k]);
      }
      if x != "" && x !in init {
        FirstIndexAt(xs, |init|);
        assert r == left + [x];
      } else {
        assert r == left;
      }
    }
  }

  /** `uniq`: keep each non-empty element the first time it appears. */
  method Uniq(xs: seq<string>) returns (out: seq<string>)
    ensures out == KeepFirst(xs)
    ensures forall k :: 0 <= k < |out| ==> out[k] != "" && out[k] in xs
    ensures forall x :: x in xs && x != "" ==> x in out
    ensures forall a, b :: 0 <= a < b < |out| ==> out[a] != out[b]
    ensures forall a, b :: 0 <= a < b < |out| ==> FirstIndex(xs, out[a]) < FirstIndex(xs, out[b])
  {
    var seen: set<string> := {};
    out := [];
    var i := 0;
    while i < |xs|
      invariant 0 <= i <= |xs|
      invariant out == KeepFirst(xs[..i])
      invariant forall x :: x in seen <==> x in out
    {
      var x := xs[i];
      assert xs[..i + 1] == xs[..i] + [x];
      assert xs[..i + 1][..i] == xs[..i];
      if x != "" && x !in seen {
        seen := seen + {x};
        out := out + [x];
      }
      i := i + 1;
    }
    assert xs[..i] == xs;
    KeepFirstOrder(xs);
    forall k | 0 <= k < |out| ensures out[k] != "" && out[k] in xs {
      assert out[k] in out;
    }
  }
}
