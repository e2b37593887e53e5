/**
  Insertion-ordered, string-keyed tables. Both JavaScript objects and the
  node store's name-indexed tables keep their keys in insertion order, and the
  importer iterates them in that order, so they are modelled as sequences of
  pairs rather than as maps. `Put` keeps a key's position when it is already
  present and appends it otherwise; `Remove` drops it.
*/
module Assoc {
  import opened Wrappers

  type Assoc<V> = seq<(string, V)>

  /** The first position at or after `i` holding key `k`, if any. */
  function Find<V>(a: Assoc<V>, k: string, i: nat): (r: Option<nat>)
    decreases |a| - i
    ensures r.Some? ==> i <= r.value < |a| && a[r.value].0 == k
    ensures r.Some? ==> forall l :: i <= l < r.value ==> a[l].0 != k
    ensures r.None? ==> forall l :: i <= l < |a| ==> a[l].0 != k
  {
    if i >= |a| then None
    else if a[i].0 == k then Some(i)
    else Find(a, k, i + 1)
  }

  /** The value stored under `k`, if any (the first one when keys repeat). */
  function Get<V>(a: Assoc<V>, k: string): (r: Option<V>)
  {
    var i := Find(a, k, 0);
    if i.Some? then Some(a[i.value].1) else None
  }

  /** A key is found exactly when it is among the keys. */
  lemma GetKeys<V>(a: Assoc<V>, k: string)
    ensures Get(a, k).Some? <==> k in Keys(a)
  {
    if Find(a, k, 0).None? {
      assert forall l :: 0 <= l < |a| ==> Keys(a)[l] != k;
    }
  }

  /** The position of the entry `Get` finds. */
  function IndexOfKey<V>(a: Assoc<V>, k: string): (i: nat)
    requires Get(a, k).Some?
    ensures i < |a| && a[i] == (k, Get(a, k).value)
  {
    Find(a, k, 0).value
  }

  /** The keys in table order. */
  function Keys<V>(a: Assoc<V>): (ks: seq<string>)
    ensures |ks| == |a|
    ensures forall i :: 0 <= i < |a| ==> ks[i] == a[i].0
  {
    seq(|a|, i requires 0 <= i < |a| => a[i].0)
  }

  /** The entry at position `i` is the one `Get` finds when its key does not occur earlier. */
  lemma GetAt<V>(a: Assoc<V>, i: nat)
    requires i < |a|
    requires forall j :: 0 <= j < i ==> a[j].0 != a[i].0
    ensures Get(a, a[i].0) == Some(a[i].1)
  {
    var f := Find(a, a[i].0, 0);
    assert f.Some?;
    assert !(f.value < i) && !(i < f.value);
  }

  /** A key absent from every position is not found. */
  lemma GetNone<V>(a: Assoc<V>, k: string)
    requires forall j :: 0 <= j < |a| ==> a[j].0 != k
    ensures Get(a, k) == None
  {
    assert Find(a, k, 0).None?;
  }

  /** Tables with the same keys in the same order that differ only under keys other than `k` agree on `k`. */
  lemma GetSameAt<V>(a: Assoc<V>, b: Assoc<V>, k: string)
    requires |a| == |b|
    requires forall j :: 0 <= j < |a| ==> a[j].0 == b[j].0 && (a[j].0 == k ==> a[j].1 == b[j].1)
    ensures Get(a, k) == Get(b, k)
  {
    var f := Find(a, k, 0);
    if f.Some? {
      GetAt(b, f.value);
      GetAt(a, f.value);
    } else {
      GetNone(b, k);
    }
  }

  /** `a[k] = v`: overwrite in place, or append a new key at the end. */
  function Put<V>(a: Assoc<V>, k: string, v: V): (r: Assoc<V>)
    ensures Get(r, k) == Some(v)
    ensures forall j :: j != k ==> Get(r, j) == Get(a, j)
  {
    var f := Find(a, k, 0);
    if f.Some? then
      var r := a[f.value := (k, v)];
      GetAt(r, f.value);
      assert forall j :: j != k ==> Get(r, j) == Get(a, j) by {
        forall j | j != k ensures Get(r, j) == Get(a, j) { GetSameAt(r, a, j); }
      }
      r
    else
      var r := a + [(k, v)];
      GetAt(r, |a|);
      assert forall j :: j != k ==> Get(r, j) == Get(a, j) by {
        forall j | j != k ensures Get(r, j) == Get(a, j) { GetAppend(a, [(k, v)], j); }
      }
      r
  }

  /** `Put` keeps the key order, appending a new key at the end. */
  lemma PutKeys<V>(a: Assoc<V>, k: string, v: V)
    ensures k in Keys(a) ==> Keys(Put(a, k, v)) == Keys(a)
    ensures k !in Keys(a) ==> Keys(Put(a, k, v)) == Keys(a) + [k]
  {
    var f := Find(a, k, 0);
    if f.Some? {
      assert Keys(Put(a, k, v)) == Keys(a);
    } else {
      assert Keys(Put(a, k, v)) == Keys(a) + [k];
    }
  }

  /** A lookup in a table with one more entry in front. */
  lemma GetCons<V>(e: (string, V), a: Assoc<V>, k: string)
    ensures Get([e] + a, k) == if e.0 == k then Some(e.1) else Get(a, k)
  {
    var b := [e] + a;
    if e.0 == k {
      GetAt(b, 0);
    } else {
      var f := Find(a, k, 0);
      if f.Some? {
        assert b[f.value + 1] == a[f.value];
        GetAt(b, f.value + 1);
        GetAt(a, f.value);
      } else {
        GetNone(b, k);
      }
    }
  }

  /** `Get` looks at the first entry, then at the rest. */
  lemma GetTail<V>(a: Assoc<V>, k: string)
    requires |a| > 0
    ensures Get(a, k) == if a[0].0 == k then Some(a[0].1) else Get(a[1..], k)
  {
    assert a == [a[0]] + a[1..];
    GetCons(a[0], a[1..], k);
  }

  /** A lookup in a concatenation finds the first table's entry, else the second's. */
  lemma GetAppend<V>(a: Assoc<V>, b: Assoc<V>, k: string)
    ensures Get(a + b, k) == if Get(a, k).Some? then Get(a, k) else Get(b, k)
  {
    var c := a + b;
    var f := Find(a, k, 0);
    if f.Some? {
      assert c[f.value] == a[f.value];
      GetAt(c, f.value);
      GetAt(a, f.value);
    } else {
      var g := Find(b, k, 0);
      if g.Some? {
        assert c[|a| + g.value] == b[g.value];
        GetAt(c, |a| + g.value);
        GetAt(b, g.value);
      } else {
        GetNone(c, k);
      }
    }
  }

  /** `delete a[k]`: every entry under `k` goes, the others keep their order. */
  function Remove<V>(a: Assoc<V>, k: string): (r: Assoc<V>)
    ensures Get(r, k) == None
    ensures forall j :: j != k ==> Get(r, j) == Get(a, j)
    ensures forall i :: 0 <= i < |r| ==> r[i] in a && r[i].0 != k
    ensures forall i :: 0 <= i < |a| && a[i].0 != k ==> a[i] in r
  {
    Without(a, [k])
  }

  /**
    `r` is `a` with the entries under the keys `ks` filtered out: those keys
    are gone, every other lookup is as in `a`, and exactly the entries of `a`
    under other keys are kept.
  */
  ghost predicate Filtered<V>(a: Assoc<V>, ks: seq<string>, r: Assoc<V>)
  {
    && (forall k :: k in ks ==> Get(r, k) == None)
    && (forall k :: k !in ks ==> Get(r, k) == Get(a, k))
    && (forall i :: 0 <= i < |r| ==> r[i] in a && r[i].0 !in ks)
    && (forall i :: 0 <= i < |a| && a[i].0 !in ks ==> a[i] in r)
  }

  /** Keep the entries whose key is not listed in `ks`, in order. */
  function Without<V>(a: Assoc<V>, ks: seq<string>): (r: Assoc<V>)
    ensures Filtered(a, ks, r)
  {
    if |a| == 0 then []
    else
      var rest := Without(a[1..], ks);
      FilterCons(a, ks, rest);
      if a[0].0 in ks then rest else [a[0]] + rest
  }

  /** One step of filtering: the first entry is dropped, or kept in front of the filtered rest. */
  lemma FilterCons<V>(a: Assoc<V>, ks: seq<string>, rest: Assoc<V>)
    requires |a| > 0 && Filtered(a[1..], ks, rest)
    ensures Filtered(a, ks, if a[0].0 in ks then rest else [a[0]] + rest)
  {
    FilterConsGet(a, ks, rest);
    FilterConsIn(a, ks, rest);
  }

  /** One step of filtering out the keys `ks`, for lookups. */
  lemma FilterConsGet<V>(a: Assoc<V>, ks: seq<string>, rest: Assoc<V>)
    requires |a| > 0
    requires forall k :: k in ks ==> Get(rest, k) == None
    requires forall k :: k !in ks ==> Get(rest, k) == Get(a[1..], k)
    ensures var r := if a[0].0 in ks then rest else [a[0]] + rest;
            forall k :: Get(r, k) == if k in ks then None else Get(a, k)
  {
    var r := if a[0].0 in ks then rest else [a[0]] + rest;
    forall k
      ensures Get(r, k) == if k in ks then None else Get(a, k)
    {
      GetTail(a, k);
      if a[0].0 !in ks { GetCons(a[0], rest, k); }
    }
  }

  /** One step of filtering out the keys `ks`, for the entries kept. */
  lemma FilterConsIn<V>(a: Assoc<V>, ks: seq<string>, rest: Assoc<V>)
    requires |a| > 0
    requires forall i :: 0 <= i < |rest| ==> rest[i] in a[1..] && rest[i].0 !in ks
    requires forall i :: 1 <= i < |a| && a[i].0 !in ks ==> a[i] in rest
    ensures var r := if a[0].0 in ks then rest else [a[0]] + rest;
            && (forall i :: 0 <= i < |r| ==> r[i] in a && r[i].0 !in ks)
            && (forall i :: 0 <= i < |a| && a[i].0 !in ks ==> a[i] in r)
  {
    var r := if a[0].0 in ks then rest else [a[0]] + rest;
    forall i | 0 <= i < |r|
      ensures r[i] in a
    {
      if a[0].0 !in ks && i == 0 {
      } else {
        var x := if a[0].0 in ks then rest[i] else rest[i - 1];
        assert r[i] == x && x in a[1..];
      }
    }
    forall i | 0 <= i < |a| && a[i].0 !in ks
      ensures a[i] in r
    {
      if i > 0 { assert a[i] in a[1..]; }
    }
  }

  /** Appending an entry under a listed key leaves the filtered table as it was. */
  lemma {:induction false} WithoutAppendListed<V>(a: Assoc<V>, ks: seq<string>, e: (string, V))
    requires e.0 in ks
    ensures Without(a + [e], ks) == Without(a, ks)
  {
    if |a| == 0 {
      assert a + [e] == [e];
    } else {
      assert (a + [e])[0] == a[0];
      assert (a + [e])[1..] == a[1..] + [e];
      WithoutAppendListed(a[1..], ks, e);
    }
  }

  /** Writing a key that is then filtered out leaves the filtered table as it was. */
  lemma WithoutPutListed<V>(a: Assoc<V>, ks: seq<string>, k: string, v: V)
    requires k in ks
    ensures Without(Put(a, k, v), ks) == Without(a, ks)
  {
    var f := Find(a, k, 0);
    if f.Some? {
      WithoutAgrees(Put(a, k, v), a, ks);
    } else {
      WithoutAppendListed(a, ks, (k, v));
    }
  }

  /** No key occurs twice; tables built with `Put` keep this. */
  predicate DistinctKeys<V>(a: Assoc<V>)
  {
    forall i, j :: 0 <= i < j < |a| ==> a[i].0 != a[j].0
  }

  /** Tables with the same keys in the same order that differ only under listed keys agree once those are dropped. */
  lemma {:induction false} WithoutAgrees<V>(a: Assoc<V>, b: Assoc<V>, ks: seq<string>)
    requires |a| == |b|
    requires forall i :: 0 <= i < |a| ==> a[i].0 == b[i].0 && (a[i].0 !in ks ==> a[i].1 == b[i].1)
    ensures Without(a, ks) == Without(b, ks)
  {
    if |a| > 0 {
      WithoutAgrees(a[1..], b[1..], ks);
    }
  }

  /** Dropping the first entry keeps the keys distinct, and the first key does not occur again. */
  lemma DistinctTail<V>(a: Assoc<V>)
    requires |a| > 0 && DistinctKeys(a)
    ensures DistinctKeys(a[1..])
    ensures a[0].0 !in Keys(a[1..])
  {
    var tail := a[1..];
    forall i | 0 <= i < |tail|
      ensures Keys(tail)[i] != a[0].0
    {
      assert tail[i] == a[i + 1];
    }
  }
}
