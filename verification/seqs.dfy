/** Small sequence operations the importer performs on lists of node paths. */
module Seqs {

  /** The position of the first occurrence of `x`, or -1 (JavaScript `indexOf`). */
  function IndexOf<T(==)>(xs: seq<T>, x: T): (i: int)
    ensures -1 <= i < |xs|
    ensures i == -1 <==> x !in xs
    ensures 0 <= i ==> xs[i] == x && x !in xs[..i]
  {
    if |xs| == 0 then -1
    else if xs[0] == x then 0
    else
      var j := IndexOf(xs[1..], x);
      assert xs[1..][..if j < 0 then 0 else j] == xs[1..if j < 0 then 1 else j + 1];
      if j < 0 then -1 else j + 1
  }

  /** `xs.splice(xs.indexOf(x), 1)` when `x` occurs, `xs` otherwise. */
  function RemoveFirst<T(==)>(xs: seq<T>, x: T): (r: seq<T>)
    ensures x in xs ==> |r| == |xs| - 1
    ensures x !in xs ==> r == xs
    ensures multiset(r) == multiset(xs) - multiset{x}
    ensures forall k :: 0 <= k < |r| ==> r[k] in xs
  {
    var i := IndexOf(xs, x);
    if i < 0 then xs
    else
      Splice(xs, i, xs[..i] + xs[i + 1..]);
      xs[..i] + xs[i + 1..]
  }

  /** Cutting out position `i` takes one `xs[i]` out of the multiset and keeps only elements of `xs`. */
  lemma Splice<T>(xs: seq<T>, i: nat, r: seq<T>)
    requires i < |xs| && r == xs[..i] + xs[i + 1..]
    ensures multiset(r) == multiset(xs) - multiset{xs[i]}
    ensures forall k :: 0 <= k < |r| ==> r[k] in xs
  {
    var a, b := xs[..i], xs[i + 1..];
    assert xs == a + [xs[i]] + b;
    assert multiset(xs) == multiset(a) + multiset{xs[i]} + multiset(b);
    forall k | 0 <= k < |r|
      ensures r[k] in xs
    {
      if k < |a| {
        assert r[k] == xs[k];
      } else {
        assert r[k] == xs[k + 1];
      }
    }
  }

  /** `RemoveFirst` of each element of `ys` in turn: one occurrence of each goes, when there is one. */
  function RemoveEach<T(==)>(xs: seq<T>, ys: seq<T>): (r: seq<T>)
    decreases |ys|
    ensures multiset(r) == multiset(xs) - multiset(ys)
    ensures forall k :: 0 <= k < |r| ==> r[k] in xs
  {
    if |ys| == 0 then xs
    else
      var r := RemoveEach(RemoveFirst(xs, ys[0]), ys[1..]);
      assert ys == [ys[0]] + ys[1..];
      MinusTwice(multiset(xs), multiset{ys[0]}, multiset(ys[1..]));
      r
  }

  /** Taking away `a`, then `b`, is taking away both. */
  lemma MinusTwice<T>(m: multiset<T>, a: multiset<T>, b: multiset<T>)
    ensures m - a - b == m - (a + b)
  {
    assert forall x :: (m - a - b)[x] == (m - (a + b))[x];
  }

  /** Every occurrence of `x` removed, the rest in order. */
  function RemoveAll<T(==)>(xs: seq<T>, x: T): (r: seq<T>)
    ensures x !in r
    ensures forall i :: 0 <= i < |r| ==> r[i] in xs
    ensures forall i :: 0 <= i < |xs| && xs[i] != x ==> xs[i] in r
    ensures |r| <= |xs|
  {
    if |xs| == 0 then []
    else if xs[0] == x then RemoveAll(xs[1..], x)
    else [xs[0]] + RemoveAll(xs[1..], x)
  }

  /** The elements of `xs` that lie in `dom`, in order. */
  function KeepIn<T(==)>(xs: seq<T>, dom: set<T>): (r: seq<T>)
    ensures |r| <= |xs|
    ensures forall i :: 0 <= i < |r| ==> r[i] in dom && r[i] in xs
    ensures forall i :: 0 <= i < |xs| && xs[i] in dom ==> xs[i] in r
  {
    if |xs| == 0 then []
    else if xs[0] in dom then [xs[0]] + KeepIn(xs[1..], dom)
    else KeepIn(xs[1..], dom)
  }
}
