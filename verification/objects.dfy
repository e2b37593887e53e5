/**
  The importer's two object helpers: `setNested` (JSONImporter.js:438-445),
  which walks all but the last key and assigns the value at the last one, and
  `omit` (JSONImporter.js:419-423), which copies an object without some keys.
*/
module JsObjects {
  import opened Wrappers
  import opened Errors
  import opened Json
  import Assoc

  /**
    `setNested(obj, keys, value)`. The walk reads `current[key]` for every key
    but the last; reading a property of `undefined` or `null` throws. Because
    JavaScript objects are shared, the assignment at the end is visible from
    `obj`; functionally, every container on the way is rebuilt around its
    updated child. A primitive on the way is a copy, so writes below it are
    lost. An empty key list assigns the property named "undefined".
  */
  function SetNested(obj: Json, keys: seq<Seg>, value: Json): (r: Result<Json, Error>)
    decreases |keys|
    ensures obj.JNull? ==> r == Failure(TypeError)
    ensures |keys| >= 2 && obj.JObj? && Assoc.Get(obj.fields, SegKey(keys[0])).None? ==> r == Failure(TypeError)
    ensures r.Success? ==> (obj.JObj? <==> r.value.JObj?)
  {
    if |keys| <= 1 then
      Assign(obj, if |keys| == 0 then Field("undefined") else keys[0], value)
    else
      var child :- Prop(obj, keys[0]);
      if child.None? then Failure(TypeError)
      else
        var updated :- SetNested(child.value, keys[1..], value);
        if obj.JObj? || obj.JArr? then Assign(obj, keys[0], updated) else Success(obj)
  }

  /** Every container met while walking `ks`, the last one included, is an object. */
  predicate ObjectPath(j: Json, ks: seq<Seg>)
    decreases |ks|
  {
    |ks| == 0 ||
    (j.JObj? &&
      (|ks| == 1 ||
        (Assoc.Get(j.fields, SegKey(ks[0])).Some? &&
         ObjectPath(Assoc.Get(j.fields, SegKey(ks[0])).value, ks[1..]))))
  }

  /** Paths `q` and `ks` name different properties at some common depth. */
  predicate Diverges(q: seq<Seg>, ks: seq<Seg>)
    decreases |q|
  {
    |q| > 0 && |ks| > 0 &&
    (SegKey(q[0]) != SegKey(ks[0]) || Diverges(q[1..], ks[1..]))
  }

  /**
    On a path through objects, `setNested` succeeds, the value can be read back
    at `keys`, and every path that leaves `keys` somewhere reads what it read
    before.
  */
  lemma {:induction false} SetNestedOnObjects(obj: Json, keys: seq<Seg>, value: Json)
    requires |keys| >= 1
    requires ObjectPath(obj, keys)
    decreases |keys|
    ensures SetNested(obj, keys, value).Success?
    ensures GetPath(SetNested(obj, keys, value).value, keys) == Some(value)
    ensures forall q :: Diverges(q, keys) ==>
              GetPath(SetNested(obj, keys, value).value, q) == GetPath(obj, q)
  {
    var f := obj.fields;
    var k := SegKey(keys[0]);
    if |keys| == 1 {
      SetNestedLeaf(obj, keys[0], value);
    } else {
      var c := Assoc.Get(f, k).value;
      SetNestedOnObjects(c, keys[1..], value);
      var c' := SetNested(c, keys[1..], value).value;
      assert SetNested(obj, keys, value).value == JObj(Assoc.Put(f, k, c'));
      PutBelow(obj, keys, c', value);
    }
  }

  /**
    The inner step of `SetNestedOnObjects`: storing back under `keys[0]` a
    child rewritten below `keys[1..]` rewrites the object below `keys`.
  */
  lemma PutBelow(obj: Json, keys: seq<Seg>, c': Json, value: Json)
    requires obj.JObj? && |keys| >= 2 && Assoc.Get(obj.fields, SegKey(keys[0])).Some?
    requires GetPath(c', keys[1..]) == Some(value)
    requires forall q :: Diverges(q, keys[1..]) ==>
               GetPath(c', q) == GetPath(Assoc.Get(obj.fields, SegKey(keys[0])).value, q)
    ensures var r := JObj(Assoc.Put(obj.fields, SegKey(keys[0]), c'));
            && GetPath(r, keys) == Some(value)
            && forall q :: Diverges(q, keys) ==> GetPath(r, q) == GetPath(obj, q)
  {
    var k := SegKey(keys[0]);
    var r := JObj(Assoc.Put(obj.fields, k, c'));
    assert Prop(r, keys[0]) == Success(Some(c'));
    forall q | Diverges(q, keys)
      ensures GetPath(r, q) == GetPath(obj, q)
    {
      assert Prop(r, q[0]) == Success(Assoc.Get(r.fields, SegKey(q[0])));
      assert Prop(obj, q[0]) == Success(Assoc.Get(obj.fields, SegKey(q[0])));
      if SegKey(q[0]) == k {
        assert Diverges(q[1..], keys[1..]);
      }
    }
  }

  /** The last step of `SetNestedOnObjects`: one property set on an object. */
  lemma SetNestedLeaf(obj: Json, key: Seg, value: Json)
    requires obj.JObj?
    ensures SetNested(obj, [key], value).Success?
    ensures GetPath(SetNested(obj, [key], value).value, [key]) == Some(value)
    ensures forall q :: Diverges(q, [key]) ==>
              GetPath(SetNested(obj, [key], value).value, q) == GetPath(obj, q)
  {
    var r := SetNested(obj, [key], value).value;
    assert r == JObj(Assoc.Put(obj.fields, SegKey(key), value));
    assert [key][1..] == [];
    forall q | Diverges(q, [key])
      ensures GetPath(r, q) == GetPath(obj, q)
    {
      assert !Diverges(q[1..], [key][1..]);
    }
  }

  /** `omit(obj, keys)`: a fresh object with `obj`'s own entries except the listed ones. */
  function Omit(obj: Json, keys: seq<string>): (r: Json)
    ensures r.JObj?
    ensures forall k :: k in keys ==> Assoc.Get(r.fields, k).None?
    ensures forall k :: k !in keys ==> Assoc.Get(r.fields, k) == Assoc.Get(OwnEntries(obj), k)
    ensures forall i :: 0 <= i < |r.fields| ==> r.fields[i] in OwnEntries(obj)
  {
    JObj(Assoc.Without(OwnEntries(obj), keys))
  }
}
