/**
  `_put` and `_delete` (JSONImporter.js:173-188) with the member-data puts
  (JSONImporter.js:327-383). A put whose member key is still incomplete (no
  member or no name yet) is expanded into one put per entry of its value,
  taken from the last entry to the first, each sent back through `_put`.
*/
module Dispatch {
  import opened Wrappers
  import opened Errors
  import opened Json
  import opened JsObjects
  import opened Changes
  import opened Store
  import opened References
  import opened Patch
  import opened SetPatch
  import Assoc

  /** How many segments expansion can still append before a member key is complete. */
  function Depth(key: seq<Seg>): nat
  {
    if |key| < 4 then 4 - |key| else 0
  }

  /** The category a change record is dispatched on. */
  function CategoryOf(ch: Change): Option<Category>
  {
    ParseCategory(At(ch.key, 0))
  }

  /**
    `_put(node, change)`: the handler named by the first key segment, or an
    error when there is none. Whatever the handler does, it edits `node`
    alone and only in that category.
  */
  function PutChange(cfg: Config, s: Store, node: Path, ch: Change): (r: Result<Store, Error>)
    requires node in s.nodes
    decreases Depth(ch.key), 2, 0
    ensures CategoryOf(ch).None? ==> r == Failure(UnsupportedCategory)
    ensures r.Success? ==>
              && CategoryOf(ch).Some?
              && Keeps(s, r.value, node)
              && Touches(s.nodes[node], r.value.nodes[node], CategoryOf(ch).value, false)
  {
    var c := CategoryOf(ch);
    if c.None? then Failure(UnsupportedCategory)
    else
      match c.value
      case Attributes => PutAttributes(s, node, ch)
      case AttributeMeta => PutTable(s, node, MetaTable, ch)
      case Registry => PutTable(s, node, RegTable, ch)
      case Pointers => PutPointers(cfg, s, node, ch)
      case PointerMeta => PutPointerMeta(cfg, s, node, ch)
      case Sets => PutSets(cfg, s, node, ch)
      case MemberAttributes => PutMember(cfg, s, node, MemberAttrTable, ch)
      case MemberRegistry => PutMember(cfg, s, node, MemberRegTable, ch)
  }

  /**
    `_put.member_attributes` and `_put.member_registry`: an incomplete key is
    expanded over the entries of the value; a complete one sets one entry.
  */
  function PutMember(cfg: Config, s: Store, node: Path, t: MemberTable, ch: Change): (r: Result<Store, Error>)
    requires node in s.nodes && CategoryOf(ch) == Some(MemberCategory(t))
    decreases Depth(ch.key), 1, 0
    ensures |ch.key| < 4 && ch.value.JNull? ==> r == Failure(TypeError)
    ensures r.Success? ==>
              && Keeps(s, r.value, node)
              && Touches(s.nodes[node], r.value.nodes[node], MemberCategory(t), false)
  {
    if |ch.key| < 4 then
      var entries :- Entries(ch.value);
      ExpandFromEnd(cfg, s, node, t, ch, entries, |entries|)
    else
      MemberLeaf(cfg, s, node, t, ch)
  }

  /**
    The expansion loop `for (let i = changesets.length; i--;)`: the entries
    `entries[n-1]` down to `entries[0]`, each put under the key extended by
    its name.
  */
  function ExpandFromEnd(cfg: Config, s: Store, node: Path, t: MemberTable, ch: Change,
                         entries: Assoc.Assoc<Json>, n: nat): (r: Result<Store, Error>)
    requires node in s.nodes && |ch.key| < 4 && n <= |entries|
    requires CategoryOf(ch) == Some(MemberCategory(t))
    decreases Depth(ch.key), 0, n
    ensures n == 0 ==> r == Success(s)
    ensures r.Success? ==>
              && Keeps(s, r.value, node)
              && Touches(s.nodes[node], r.value.nodes[node], MemberCategory(t), false)
  {
    if n == 0 then Success(s)
    else
      var e := entries[n - 1];
      var sub := Change(Kind.Put, ch.key + [Field(e.0)], e.1);
      assert At(sub.key, 0) == At(ch.key, 0);
      var s1 :- PutChange(cfg, s, node, sub);
      var s2 :- ExpandFromEnd(cfg, s1, node, t, ch, entries, n - 1);
      KeepsTrans(s, s1, s2, node);
      TouchesTrans(s.nodes[node], s1.nodes[node], s2.nodes[node], MemberCategory(t), false);
      Success(s2)
  }

  /**
    A complete member key `[category, set, member, name, ...]`: the member
    reference is resolved to a path, then the entry is set. For the registry a
    longer key writes into the current value with `setNested`.
  */
  function MemberLeaf(cfg: Config, s: Store, node: Path, t: MemberTable, ch: Change): (r: Result<Store, Error>)
    requires node in s.nodes && |ch.key| >= 4
    ensures GetNodeId(cfg, s, node, Some(SegJson(ch.key[2]))).Failure? ==>
              r == Failure(GetNodeId(cfg, s, node, Some(SegJson(ch.key[2]))).error)
    ensures GetNodeId(cfg, s, node, Some(SegJson(ch.key[2]))).Success? && (t == MemberAttrTable || |ch.key| == 4) ==>
              (r.Success? <==> && ch.key[1].Field? && ch.key[3].Field?
                               && IsMember(s.nodes[node], ch.key[1].name, GetNodeId(cfg, s, node, Some(SegJson(ch.key[2]))).value))
    ensures r.Success? ==>
              && ch.key[1].Field? && ch.key[3].Field?
              && Keeps(s, r.value, node)
              && var m, m' := s.nodes[node], r.value.nodes[node];
              && var key := (ch.key[1].name, GetNodeId(cfg, s, node, Some(SegJson(ch.key[2]))).value);
              && Touches(m, m', MemberCategory(t), false)
              && OtherPairsKept(MemberTableOf(m, t), MemberTableOf(m', t), key)
              && Assoc.Get(MemberData(m', t, key.0, key.1), ch.key[3].name).Some?
              && (t == MemberAttrTable || |ch.key| == 4 ==>
                    Assoc.Get(MemberData(m', t, key.0, key.1), ch.key[3].name) == Some(ch.value))
              && forall a :: a != ch.key[3].name ==>
                   Assoc.Get(MemberData(m', t, key.0, key.1), a) == Assoc.Get(MemberData(m, t, key.0, key.1), a)
  {
    var setName, name := At(ch.key, 1), At(ch.key, 3);
    var member :- GetNodeId(cfg, s, node, Some(SegJson(ch.key[2])));
    var value :-
      if t == MemberRegTable && |ch.key| > 4 then
        var cur :- GetMemberEntry(s, node, t, setName, member, name);
        if cur.None? then Failure(TypeError) else SetNested(cur.value, ch.key[4..], ch.value)
      else Success(ch.value);
    var s' :- SetMemberEntry(s, node, t, setName, member, name, value);
    OwnedSets(s.nodes[node], s'.nodes[node], t);
    Success(s')
  }

  /** An edit of a node's member data keeps what every reference resolves to. */
  lemma MemberEditKeepsResolution(cfg: Config, s: Store, s': Store, node: Path, t: MemberTable)
    requires node in s.nodes && Keeps(s, s', node)
    requires Touches(s.nodes[node], s'.nodes[node], MemberCategory(t), false)
    ensures SameResolution(cfg, s, s')
    ensures s'.nodes[node].sets == s.nodes[node].sets
    ensures forall k, m :: IsMember(s'.nodes[node], k, m) <==> IsMember(s.nodes[node], k, m)
  {
    assert s'.nodes[node].sets == s.nodes[node].sets;
    EditKeepsResolution(cfg, s, s', node);
  }

  /** A put in a member category goes to the member handler of its table. */
  lemma MemberDispatch(cfg: Config, s: Store, node: Path, t: MemberTable, ch: Change)
    requires node in s.nodes && CategoryOf(ch) == Some(MemberCategory(t))
    ensures PutChange(cfg, s, node, ch) == PutMember(cfg, s, node, t, ch)
  {
    match t
    case MemberAttrTable => DispatchTo(cfg, s, node, ch, MemberAttributes, MemberAttrTable);
    case MemberRegTable => DispatchTo(cfg, s, node, ch, MemberRegistry, MemberRegTable);
  }

  /** One member category's case of `MemberDispatch`, with the category given as a constant. */
  lemma DispatchTo(cfg: Config, s: Store, node: Path, ch: Change, c: Category, t: MemberTable)
    requires node in s.nodes && CategoryOf(ch) == Some(c) && c == MemberCategory(t)
    requires c == MemberAttributes ==> t == MemberAttrTable
    requires c == MemberRegistry ==> t == MemberRegTable
    ensures PutChange(cfg, s, node, ch) == PutMember(cfg, s, node, t, ch)
  {
  }

  /** An incomplete member key is expanded over the own entries of the value, which must not be `null`. */
  lemma IncompleteMemberKey(cfg: Config, s: Store, node: Path, t: MemberTable, ch: Change)
    requires node in s.nodes && CategoryOf(ch) == Some(MemberCategory(t)) && |ch.key| < 4
    ensures PutMember(cfg, s, node, t, ch)
            == if ch.value.JNull? then Failure(TypeError)
               else ExpandFromEnd(cfg, s, node, t, ch, OwnEntries(ch.value), |OwnEntries(ch.value)|)
  {
  }

  /**
    One entry of a three-segment member key: a put of the complete key
    `[category, set, member, name]`, which fails with the resolution error,
    succeeds exactly when the member belongs to the set, and then sets that
    one name of the member's data.
  */
  lemma EntryPut(cfg: Config, s: Store, node: Path, t: MemberTable, ch: Change, a: string, v: Json)
    requires node in s.nodes && |ch.key| == 3 && CategoryOf(ch) == Some(MemberCategory(t))
    ensures var id := GetNodeId(cfg, s, node, Some(SegJson(ch.key[2])));
            var r := PutChange(cfg, s, node, Change(Kind.Put, ch.key + [Field(a)], v));
            && (id.Failure? ==> r == Failure(id.error))
            && (id.Success? ==> (r.Success? <==> ch.key[1].Field? && IsMember(s.nodes[node], ch.key[1].name, id.value)))
            && (r.Success? ==>
                  && ch.key[1].Field? && id.Success?
                  && Keeps(s, r.value, node)
                  && Touches(s.nodes[node], r.value.nodes[node], MemberCategory(t), false)
                  && var d, d' := MemberData(s.nodes[node], t, ch.key[1].name, id.value),
                                  MemberData(r.value.nodes[node], t, ch.key[1].name, id.value);
                  && Assoc.Get(d', a) == Some(v)
                  && (forall b :: b != a ==> Assoc.Get(d', b) == Assoc.Get(d, b))
                  && OthersKept(r.value.nodes[node], s.nodes[node], t, ch.key[1].name, id))
  {
    var sub := Change(Kind.Put, ch.key + [Field(a)], v);
    assert At(sub.key, 0) == At(ch.key, 0);
    MemberDispatch(cfg, s, node, t, sub);
    assert PutMember(cfg, s, node, t, sub) == MemberLeaf(cfg, s, node, t, sub);
    EntryLeaf(cfg, s, node, t, ch, a, v);
  }

  /** `EntryPut` for the member handler itself. */
  lemma EntryLeaf(cfg: Config, s: Store, node: Path, t: MemberTable, ch: Change, a: string, v: Json)
    requires node in s.nodes && |ch.key| == 3
    ensures var id := GetNodeId(cfg, s, node, Some(SegJson(ch.key[2])));
            var r := MemberLeaf(cfg, s, node, t, Change(Kind.Put, ch.key + [Field(a)], v));
            && (id.Failure? ==> r == Failure(id.error))
            && (id.Success? ==> (r.Success? <==> ch.key[1].Field? && IsMember(s.nodes[node], ch.key[1].name, id.value)))
            && (r.Success? ==>
                  && ch.key[1].Field? && id.Success?
                  && Keeps(s, r.value, node)
                  && Touches(s.nodes[node], r.value.nodes[node], MemberCategory(t), false)
                  && var d, d' := MemberData(s.nodes[node], t, ch.key[1].name, id.value),
                                  MemberData(r.value.nodes[node], t, ch.key[1].name, id.value);
                  && Assoc.Get(d', a) == Some(v)
                  && (forall b :: b != a ==> Assoc.Get(d', b) == Assoc.Get(d, b))
                  && OthersKept(r.value.nodes[node], s.nodes[node], t, ch.key[1].name, id))
  {
    var sub := Change(Kind.Put, ch.key + [Field(a)], v);
    assert sub.key[1] == ch.key[1] && sub.key[2] == ch.key[2] && sub.key[3] == Field(a);
  }


  /**
    `d'` is `d` with the entries `es` written over it: a name that `es` has
    reads its first value there, and every other name keeps its value.
  */
  ghost predicate Overlaid(d': Assoc.Assoc<Json>, d: Assoc.Assoc<Json>, es: Assoc.Assoc<Json>)
  {
    forall a :: Assoc.Get(d', a) == if Assoc.Get(es, a).Some? then Assoc.Get(es, a) else Assoc.Get(d, a)
  }

  /** In set `k`, every member other than the one `id` resolves to has the same data in `n'` as in `n`. */
  ghost predicate OthersKept(n': NodeData, n: NodeData, t: MemberTable, k: string, id: Result<Path, Error>)
  {
    forall p :: (id.Success? ==> p != id.value) ==> MemberData(n', t, k, p) == MemberData(n, t, k, p)
  }

  /** Keeping the other members' data through two edits keeps it through both. */
  lemma OthersKeptTrans(n2: NodeData, n1: NodeData, n0: NodeData, t: MemberTable, k: string, id: Result<Path, Error>)
    requires OthersKept(n2, n1, t, k, id) && OthersKept(n1, n0, t, k, id)
    ensures OthersKept(n2, n0, t, k, id)
  {
  }

  /** Writing one more entry, then the earlier ones over it, leaves the earlier ones winning. */
  lemma MergeEntries(d0: Assoc.Assoc<Json>, d1: Assoc.Assoc<Json>, d2: Assoc.Assoc<Json>, entries: Assoc.Assoc<Json>, n: nat)
    requires 0 < n <= |entries|
    requires Assoc.Get(d1, entries[n - 1].0) == Some(entries[n - 1].1)
    requires forall b :: b != entries[n - 1].0 ==> Assoc.Get(d1, b) == Assoc.Get(d0, b)
    requires Overlaid(d2, d1, entries[..n - 1])
    ensures Overlaid(d2, d0, entries[..n])
  {
    var e := entries[n - 1];
    assert entries[..n] == entries[..n - 1] + [e];
    forall a
      ensures Assoc.Get(d2, a) == if Assoc.Get(entries[..n], a).Some? then Assoc.Get(entries[..n], a) else Assoc.Get(d0, a)
    {
      Assoc.GetAppend(entries[..n - 1], [e], a);
      Assoc.GetCons(e, [], a);
    }
  }

  /**
    A member key `[category, set, member]` expands into one put per entry of
    the value, each key extended by the entry's name. When the member reference
    resolves, the expansion succeeds exactly when there is nothing to put or
    the member belongs to the set; the member's data then holds each entry's
    value (the first entry of a repeated name wins, being written last) and
    keeps every other name. When the reference does not resolve, the first put
    fails with the resolution error.
  */
  lemma {:induction false} ExpandMemberEntries(cfg: Config, s: Store, node: Path, t: MemberTable, ch: Change,
                                               entries: Assoc.Assoc<Json>, n: nat)
    requires node in s.nodes && |ch.key| == 3 && n <= |entries|
    requires CategoryOf(ch) == Some(MemberCategory(t))
    decreases n
    ensures var id := GetNodeId(cfg, s, node, Some(SegJson(ch.key[2])));
            var r := ExpandFromEnd(cfg, s, node, t, ch, entries, n);
            && (n > 0 && id.Failure? ==> r == Failure(id.error))
            && (id.Success? ==>
                  (r.Success? <==> n == 0 || (ch.key[1].Field? && IsMember(s.nodes[node], ch.key[1].name, id.value))))
            && (id.Success? && r.Success? && ch.key[1].Field? ==>
                  && Overlaid(MemberData(r.value.nodes[node], t, ch.key[1].name, id.value),
                              MemberData(s.nodes[node], t, ch.key[1].name, id.value), entries[..n])
                  && OthersKept(r.value.nodes[node], s.nodes[node], t, ch.key[1].name, id))
  {
    if n > 0 {
      var ref := Some(SegJson(ch.key[2]));
      var e := entries[n - 1];
      var sub := Change(Kind.Put, ch.key + [Field(e.0)], e.1);
      EntryPut(cfg, s, node, t, ch, e.0, e.1);
      ExpandUnfold(cfg, s, node, t, ch, entries, n);
      var s1 := PutChange(cfg, s, node, sub);
      if s1.Success? {
        MemberEditKeepsResolution(cfg, s, s1.value, node, t);
        ResolutionFrame(cfg, s, s1.value, node, ref);
        ExpandMemberEntries(cfg, s1.value, node, t, ch, entries, n - 1);
        var r := ExpandFromEnd(cfg, s1.value, node, t, ch, entries, n - 1);
        var id1 := GetNodeId(cfg, s1.value, node, ref);
        var k := ch.key[1].name;
        assert id1 == GetNodeId(cfg, s, node, ref);
        assert IsMember(s1.value.nodes[node], k, id1.value);
        assert r.Success?;
        var d0, d1, d2 := MemberData(s.nodes[node], t, k, id1.value), MemberData(s1.value.nodes[node], t, k, id1.value),
                          MemberData(r.value.nodes[node], t, k, id1.value);
        assert Overlaid(d2, d1, entries[..n - 1]);
        assert OthersKept(r.value.nodes[node], s1.value.nodes[node], t, k, id1);
        MergeEntries(d0, d1, d2, entries, n);
        OthersKeptTrans(r.value.nodes[node], s1.value.nodes[node], s.nodes[node], t, k, id1);
      }
    }
  }

  /** A group of a set key `[category, set]`: the entry of one member reference and its data. */
  predicate GroupAccepted(cfg: Config, s: Store, node: Path, key: seq<Seg>, g: (string, Json))
    requires node in s.nodes && |key| >= 2
  {
    && !g.1.JNull?
    && (|OwnEntries(g.1)| > 0 ==>
          var id := GetNodeId(cfg, s, node, Some(JStr(g.0)));
          id.Success? && key[1].Field? && IsMember(s.nodes[node], key[1].name, id.value))
  }

  /** What the member reference of each group resolves to: a member path, or the error. */
  function GroupTargets(cfg: Config, s: Store, node: Path, groups: Assoc.Assoc<Json>): (r: seq<Result<Path, Error>>)
    ensures |r| == |groups|
  {
    seq(|groups|, i requires 0 <= i < |groups| => GetNodeId(cfg, s, node, Some(JStr(groups[i].0))))
  }

  /** The target of group `i` is what its reference resolves to. */
  lemma GroupTargetsAt(cfg: Config, s: Store, node: Path, groups: Assoc.Assoc<Json>, i: nat)
    requires i < |groups|
    ensures GroupTargets(cfg, s, node, groups)[i] == GetNodeId(cfg, s, node, Some(JStr(groups[i].0)))
  {
  }

  /** Stores that resolve alike resolve the groups alike. */
  lemma GroupTargetsFrame(cfg: Config, s: Store, s': Store, node: Path, groups: Assoc.Assoc<Json>)
    requires SameResolution(cfg, s, s')
    ensures GroupTargets(cfg, s', node, groups) == GroupTargets(cfg, s, node, groups)
  {
    forall i | 0 <= i < |groups|
      ensures GroupTargets(cfg, s', node, groups)[i] == GroupTargets(cfg, s, node, groups)[i]
    {
      ResolutionFrame(cfg, s, s', node, Some(JStr(groups[i].0)));
      GroupTargetsAt(cfg, s, node, groups, i);
      GroupTargetsAt(cfg, s', node, groups, i);
    }
  }

  /**
    The value name `a` of member `m` takes from `groups[..n]`, whose
    references resolve to `targets`: the entry `a` of the lowest-indexed group
    that resolves to `m` and has one.
  */
  function GroupValue(targets: seq<Result<Path, Error>>, groups: Assoc.Assoc<Json>, n: nat, m: Path, a: string)
    : Option<Json>
    requires n <= |groups| == |targets|
  {
    if n == 0 then None
    else
      var earlier := GroupValue(targets, groups, n - 1, m, a);
      if earlier.Some? then earlier
      else if targets[n - 1] == Success(m) then Assoc.Get(OwnEntries(groups[n - 1].1), a)
      else None
  }

  /**
    In set `k`, each member's data in `n'` is its data in `n` with the values
    `GroupValue` assigns from `groups[..count]` written over it.
  */
  ghost predicate GroupsOverlaid(targets: seq<Result<Path, Error>>, groups: Assoc.Assoc<Json>, count: nat,
                                 n': NodeData, n: NodeData, t: MemberTable, k: string)
    requires count <= |groups| == |targets|
  {
    forall m, a :: Assoc.Get(MemberData(n', t, k, m), a)
                   == if GroupValue(targets, groups, count, m, a).Some? then GroupValue(targets, groups, count, m, a)
                      else Assoc.Get(MemberData(n, t, k, m), a)
  }

  /** One group of a set key is a put of the member key `[category, set, member]`, expanded over the group's entries. */
  lemma GroupPut(cfg: Config, s: Store, node: Path, t: MemberTable, ch: Change, g: (string, Json))
    requires node in s.nodes && |ch.key| == 2 && CategoryOf(ch) == Some(MemberCategory(t))
    ensures var sub := Change(Kind.Put, ch.key + [Field(g.0)], g.1);
            && |sub.key| == 3 && CategoryOf(sub) == CategoryOf(ch) && sub.key[1] == ch.key[1]
            && SegJson(sub.key[2]) == JStr(g.0)
            && PutChange(cfg, s, node, sub)
               == if g.1.JNull? then Failure(TypeError)
                  else ExpandFromEnd(cfg, s, node, t, sub, OwnEntries(g.1), |OwnEntries(g.1)|)
  {
    var sub := Change(Kind.Put, ch.key + [Field(g.0)], g.1);
    assert At(sub.key, 0) == At(ch.key, 0);
    MemberDispatch(cfg, s, node, t, sub);
    IncompleteMemberKey(cfg, s, node, t, sub);
  }

  /**
    The put of one group: it succeeds exactly when the group is accepted, and
    then the resolved member's data takes the group's entries while every
    other member's data stays.
  */
  lemma GroupStep(cfg: Config, s: Store, node: Path, t: MemberTable, ch: Change, g: (string, Json))
    requires node in s.nodes && |ch.key| == 2 && CategoryOf(ch) == Some(MemberCategory(t))
    ensures var r := PutChange(cfg, s, node, Change(Kind.Put, ch.key + [Field(g.0)], g.1));
            && (r.Success? <==> GroupAccepted(cfg, s, node, ch.key, g))
            && (r.Success? ==>
                  && Keeps(s, r.value, node)
                  && Touches(s.nodes[node], r.value.nodes[node], MemberCategory(t), false)
                  && (ch.key[1].Field? ==>
                        var id := GetNodeId(cfg, s, node, Some(JStr(g.0)));
                        var n0, n1 := s.nodes[node], r.value.nodes[node];
                        && (id.Success? ==>
                              Overlaid(MemberData(n1, t, ch.key[1].name, id.value),
                                       MemberData(n0, t, ch.key[1].name, id.value), OwnEntries(g.1)))
                        && OthersKept(n1, n0, t, ch.key[1].name, id)))
  {
    var sub := Change(Kind.Put, ch.key + [Field(g.0)], g.1);
    GroupPut(cfg, s, node, t, ch, g);
    if !g.1.JNull? {
      var es := OwnEntries(g.1);
      ExpandMemberEntries(cfg, s, node, t, sub, es, |es|);
      assert es[..|es|] == es;
    }
  }

  /**
    The put of the last of `n` groups, and the puts of the earlier groups over
    it, combine into the values `GroupValue` describes.
  */
  lemma MergeGroups(targets: seq<Result<Path, Error>>, groups: Assoc.Assoc<Json>, n: nat, t: MemberTable, k: string,
                    n0: NodeData, n1: NodeData, n2: NodeData, id: Result<Path, Error>, prior: seq<Result<Path, Error>>)
    requires 0 < n <= |groups| == |targets| && targets[n - 1] == id
    requires id.Success? ==> Overlaid(MemberData(n1, t, k, id.value), MemberData(n0, t, k, id.value), OwnEntries(groups[n - 1].1))
    requires OthersKept(n1, n0, t, k, id)
    requires prior == targets
    requires GroupsOverlaid(prior, groups, n - 1, n2, n1, t, k)
    ensures GroupsOverlaid(targets, groups, n, n2, n0, t, k)
  {
    forall m, a
      ensures Assoc.Get(MemberData(n2, t, k, m), a)
           == if GroupValue(targets, groups, n, m, a).Some? then GroupValue(targets, groups, n, m, a)
              else Assoc.Get(MemberData(n0, t, k, m), a)
    {
      if id == Success(m) {
        assert Overlaid(MemberData(n1, t, k, m), MemberData(n0, t, k, m), OwnEntries(groups[n - 1].1));
      } else {
        assert MemberData(n1, t, k, m) == MemberData(n0, t, k, m);
      }
    }
  }

  /** The expansion loop at `n > 0`: the put of entry `n - 1`, then the loop over the entries before it. */
  lemma ExpandUnfold(cfg: Config, s: Store, node: Path, t: MemberTable, ch: Change, entries: Assoc.Assoc<Json>, n: nat)
    requires node in s.nodes && |ch.key| < 4 && 0 < n <= |entries|
    requires CategoryOf(ch) == Some(MemberCategory(t))
    ensures var s1 := PutChange(cfg, s, node, Change(Kind.Put, ch.key + [Field(entries[n - 1].0)], entries[n - 1].1));
            ExpandFromEnd(cfg, s, node, t, ch, entries, n)
            == if s1.Failure? then Failure(s1.error) else ExpandFromEnd(cfg, s1.value, node, t, ch, entries, n - 1)
  {
  }

  /**
    The expansion over groups at `n > 0`: the put of the last group succeeds
    exactly when it is accepted; on failure the expansion fails, and on
    success it goes on over the earlier groups in a store that resolves and
    groups as before, the last group's entries written into its member.
  */
  lemma GroupsUnfold(cfg: Config, s: Store, node: Path, t: MemberTable, ch: Change, groups: Assoc.Assoc<Json>, n: nat)
    requires node in s.nodes && |ch.key| == 2 && 0 < n <= |groups|
    requires CategoryOf(ch) == Some(MemberCategory(t))
    ensures var g := groups[n - 1];
            var s1 := PutChange(cfg, s, node, Change(Kind.Put, ch.key + [Field(g.0)], g.1));
            && (s1.Success? <==> GroupAccepted(cfg, s, node, ch.key, g))
            && (s1.Failure? ==> ExpandFromEnd(cfg, s, node, t, ch, groups, n).Failure?)
            && (s1.Success? ==>
                  && node in s1.value.nodes
                  && SameResolution(cfg, s, s1.value)
                  && s1.value.nodes[node].sets == s.nodes[node].sets
                  && ExpandFromEnd(cfg, s, node, t, ch, groups, n) == ExpandFromEnd(cfg, s1.value, node, t, ch, groups, n - 1))
  {
    var g := groups[n - 1];
    GroupStep(cfg, s, node, t, ch, g);
    ExpandUnfold(cfg, s, node, t, ch, groups, n);
    var s1 := PutChange(cfg, s, node, Change(Kind.Put, ch.key + [Field(g.0)], g.1));
    if s1.Success? {
      MemberEditKeepsResolution(cfg, s, s1.value, node, t);
    }
  }

  /**
    The data step of the expansion over groups: when the last group's put
    takes `s` to `s1` (the group's entries overlaid on the data of the member
    `id` it resolves to, every other member's data kept) and the earlier groups'
    puts over `s1` leave `n2` with the values they assign, `n2` holds the
    values all `n` groups assign.
  */
  lemma GroupsMergeStep(cfg: Config, s: Store, s1: Store, node: Path, t: MemberTable, k: string,
                        groups: Assoc.Assoc<Json>, n: nat, n2: NodeData, id: Result<Path, Error>)
    requires node in s.nodes && node in s1.nodes && 0 < n <= |groups|
    requires GroupTargets(cfg, s1, node, groups) == GroupTargets(cfg, s, node, groups)
    requires id == GetNodeId(cfg, s, node, Some(JStr(groups[n - 1].0)))
    requires id.Success? ==>
               Overlaid(MemberData(s1.nodes[node], t, k, id.value), MemberData(s.nodes[node], t, k, id.value),
                        OwnEntries(groups[n - 1].1))
    requires OthersKept(s1.nodes[node], s.nodes[node], t, k, id)
    requires GroupsOverlaid(GroupTargets(cfg, s1, node, groups), groups, n - 1, n2, s1.nodes[node], t, k)
    ensures GroupsOverlaid(GroupTargets(cfg, s, node, groups), groups, n, n2, s.nodes[node], t, k)
  {
    GroupTargetsAt(cfg, s, node, groups, n - 1);
    MergeGroups(GroupTargets(cfg, s, node, groups), groups, n, t, k, s.nodes[node], s1.nodes[node], n2,
                id, GroupTargets(cfg, s1, node, groups));
  }

  /** Whether each group is accepted, in order. */
  function Acceptance(cfg: Config, s: Store, node: Path, key: seq<Seg>, groups: Assoc.Assoc<Json>): (r: seq<bool>)
    requires node in s.nodes && |key| >= 2
    ensures |r| == |groups|
  {
    seq(|groups|, i requires 0 <= i < |groups| => GroupAccepted(cfg, s, node, key, groups[i]))
  }

  /** Entry `i` of `Acceptance` says whether group `i` is accepted. */
  lemma AcceptanceAt(cfg: Config, s: Store, node: Path, key: seq<Seg>, groups: Assoc.Assoc<Json>, i: nat)
    requires node in s.nodes && |key| >= 2 && i < |groups|
    ensures Acceptance(cfg, s, node, key, groups)[i] == GroupAccepted(cfg, s, node, key, groups[i])
  {
  }

  /** Which groups are accepted depends only on resolution and the node's sets. */
  lemma AcceptanceFrame(cfg: Config, s: Store, s': Store, node: Path, key: seq<Seg>, groups: Assoc.Assoc<Json>)
    requires node in s.nodes && node in s'.nodes && |key| >= 2
    requires SameResolution(cfg, s, s') && s'.nodes[node].sets == s.nodes[node].sets
    ensures Acceptance(cfg, s', node, key, groups) == Acceptance(cfg, s, node, key, groups)
  {
    forall i | 0 <= i < |groups|
      ensures Acceptance(cfg, s', node, key, groups)[i] == Acceptance(cfg, s, node, key, groups)[i]
    {
      ResolutionFrame(cfg, s, s', node, Some(JStr(groups[i].0)));
      AcceptanceAt(cfg, s, node, key, groups, i);
      AcceptanceAt(cfg, s', node, key, groups, i);
    }
  }

  /** The first `n` entries of `bs` are all true. */
  predicate AllBefore(bs: seq<bool>, n: nat)
    requires n <= |bs|
  {
    forall i :: 0 <= i < n ==> bs[i]
  }

  lemma AllBeforeStep(bs: seq<bool>, n: nat)
    requires 0 < n <= |bs|
    ensures AllBefore(bs, n) == (AllBefore(bs, n - 1) && bs[n - 1])
  {
  }

  /**
    The expansion of a set key `[category, set]` over its first `n` groups,
    followed group by group from the last one. It is the expansion loop
    itself; it succeeds exactly when each of those groups is accepted; and
    on success every member's data holds the value `GroupValue` assigns to
    each name, keeping its own value for the names no group supplies.
  */
  ghost function ExpandGroups(cfg: Config, s: Store, node: Path, t: MemberTable, ch: Change,
                              groups: Assoc.Assoc<Json>, n: nat): (r: Result<Store, Error>)
    requires node in s.nodes && |ch.key| == 2 && n <= |groups|
    requires CategoryOf(ch) == Some(MemberCategory(t))
    decreases n
    ensures r == ExpandFromEnd(cfg, s, node, t, ch, groups, n)
    ensures r.Success? == AllBefore(Acceptance(cfg, s, node, ch.key, groups), n)
    ensures r.Success? && ch.key[1].Field? ==>
              GroupsOverlaid(GroupTargets(cfg, s, node, groups), groups, n, r.value.nodes[node], s.nodes[node], t, ch.key[1].name)
  {
    if n == 0 then Success(s)
    else
      var g := groups[n - 1];
      var s1 := PutChange(cfg, s, node, Change(Kind.Put, ch.key + [Field(g.0)], g.1));
      GroupsUnfold(cfg, s, node, t, ch, groups, n);
      AcceptanceAt(cfg, s, node, ch.key, groups, n - 1);
      AllBeforeStep(Acceptance(cfg, s, node, ch.key, groups), n);
      if s1.Failure? then Failure(s1.error)
      else
        AcceptanceFrame(cfg, s, s1.value, node, ch.key, groups);
        var r := ExpandGroups(cfg, s1.value, node, t, ch, groups, n - 1);
        if r.Success? && ch.key[1].Field? then
          GroupStep(cfg, s, node, t, ch, g);
          MemberEditKeepsResolution(cfg, s, s1.value, node, t);
          GroupTargetsFrame(cfg, s, s1.value, node, groups);
          GroupsMergeStep(cfg, s, s1.value, node, t, ch.key[1].name, groups, n, r.value.nodes[node],
                          GetNodeId(cfg, s, node, Some(JStr(g.0))));
          r
        else r
  }

  /**
    A set key `[category, set]` expands into one member key per group of the
    value, each expanded in turn over the group's entries. The expansion
    succeeds exactly when every group is accepted: its data is not `null`,
    and unless it is empty its reference resolves to a member of the set.
  */
  lemma ExpandGroupsAccepted(cfg: Config, s: Store, node: Path, t: MemberTable, ch: Change, groups: Assoc.Assoc<Json>, n: nat)
    requires node in s.nodes && |ch.key| == 2 && n <= |groups|
    requires CategoryOf(ch) == Some(MemberCategory(t))
    ensures ExpandFromEnd(cfg, s, node, t, ch, groups, n).Success?
            <==> forall i :: 0 <= i < n ==> GroupAccepted(cfg, s, node, ch.key, groups[i])
  {
    var r := ExpandGroups(cfg, s, node, t, ch, groups, n);
    forall i | 0 <= i < n {
      AcceptanceAt(cfg, s, node, ch.key, groups, i);
    }
  }

  /**
    When the expansion over a set key succeeds, each member's data holds, for
    every name, the value `GroupValue` assigns it, and keeps its own value for
    names no group supplies.
  */
  lemma ExpandMemberGroups(cfg: Config, s: Store, node: Path, t: MemberTable, ch: Change,
                           groups: Assoc.Assoc<Json>, n: nat)
    requires node in s.nodes && |ch.key| == 2 && n <= |groups| && ch.key[1].Field?
    requires CategoryOf(ch) == Some(MemberCategory(t))
    ensures var r := ExpandFromEnd(cfg, s, node, t, ch, groups, n);
            r.Success? ==>
              GroupsOverlaid(GroupTargets(cfg, s, node, groups), groups, n, r.value.nodes[node], s.nodes[node], t, ch.key[1].name)
  {
    var r := ExpandGroups(cfg, s, node, t, ch, groups, n);
  }

  /**
    A registry key longer than four segments writes into the member's current
    entry with `setNested`: the put succeeds exactly when the member resolves
    and belongs to the set, the entry exists, and `setNested` succeeds on it;
    the entry then becomes what `setNested` returns, and along a path of
    objects the value reads back at the rest of the key.
  */
  lemma MemberLeafNested(cfg: Config, s: Store, node: Path, ch: Change)
    requires node in s.nodes && |ch.key| > 4
    requires GetNodeId(cfg, s, node, Some(SegJson(ch.key[2]))).Success?
    ensures var member := GetNodeId(cfg, s, node, Some(SegJson(ch.key[2]))).value;
            var r := MemberLeaf(cfg, s, node, MemberRegTable, ch);
            && (r.Success? <==>
                  && ch.key[1].Field? && ch.key[3].Field?
                  && IsMember(s.nodes[node], ch.key[1].name, member)
                  && var cur := Assoc.Get(MemberData(s.nodes[node], MemberRegTable, ch.key[1].name, member), ch.key[3].name);
                  && cur.Some? && SetNested(cur.value, ch.key[4..], ch.value).Success?)
            && (r.Success? ==>
                  var cur := Assoc.Get(MemberData(s.nodes[node], MemberRegTable, ch.key[1].name, member), ch.key[3].name).value;
                  var entry := Assoc.Get(MemberData(r.value.nodes[node], MemberRegTable, ch.key[1].name, member), ch.key[3].name);
                  && entry == Some(SetNested(cur, ch.key[4..], ch.value).value)
                  && (ObjectPath(cur, ch.key[4..]) ==> GetPath(entry.value, ch.key[4..]) == Some(ch.value)))
  {
    var member := GetNodeId(cfg, s, node, Some(SegJson(ch.key[2]))).value;
    var r := MemberLeaf(cfg, s, node, MemberRegTable, ch);
    if r.Success? {
      var cur := Assoc.Get(MemberData(s.nodes[node], MemberRegTable, ch.key[1].name, member), ch.key[3].name).value;
      if ObjectPath(cur, ch.key[4..]) {
        SetNestedOnObjects(cur, ch.key[4..], ch.value);
      }
    }
  }

  /**
    `_delete(node, change)`: the handler named by the first key segment, or an
    error when there is none; a key of that one segment is accepted and
    changes nothing.
  */
  function DeleteChange(s: Store, node: Path, ch: Change): (r: Result<Store, Error>)
    requires node in s.nodes
    ensures CategoryOf(ch).None? ==> r == Failure(UnsupportedCategory)
    ensures CategoryOf(ch).Some? && |ch.key| == 1 ==> r == Success(s)
    ensures r.Success? ==>
              && CategoryOf(ch).Some?
              && Keeps(s, r.value, node)
              && Touches(s.nodes[node], r.value.nodes[node], CategoryOf(ch).value, true)
  {
    var c := CategoryOf(ch);
    if c.None? then Failure(UnsupportedCategory)
    else if |ch.key| <= 1 then Success(s)
    else
      match c.value
      case Attributes => DelTable(s, node, AttrTable, ch)
      case AttributeMeta => DelTable(s, node, MetaTable, ch)
      case Registry => DelTable(s, node, RegTable, ch)
      case Pointers => DelPointers(s, node, ch)
      case PointerMeta => DelPointerMetaKey(s, node, ch)
      case Sets => DelSets(s, node, ch)
      case MemberAttributes => DelMemberData(s, node, MemberAttrTable, ch)
      case MemberRegistry => DelMemberData(s, node, MemberRegTable, ch)
  }
}
