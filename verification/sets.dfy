/**
  The set handlers and the member-data deletes (`_put.sets`, `_delete.sets`,
  `_delete.member_attributes`, `_delete.member_registry`,
  JSONImporter.js:299-358 and 385-394). Adding members resolves each member
  reference in the store as it is at that moment; deleting member data works
  on the raw key segments.
*/
module SetPatch {
  import opened Wrappers
  import opened Errors
  import opened Json
  import opened Changes
  import opened Store
  import opened References
  import opened Patch
  import Assoc

  // -------------------------------------------------------------- put sets

  /**
    What the member loop does to the store: only the sets of `node` change,
    set `name` keeps its members in order and gains only nodes of the store,
    and every other set is as it was.
  */
  ghost predicate Grows(s: Store, s': Store, node: Path, name: string)
  {
    && Keeps(s, s', node)
    && var m, m' := s.nodes[node], s'.nodes[node];
    && Touches(m, m', Sets, false)
    && (forall k :: k != name ==> Assoc.Get(m'.sets, k) == Assoc.Get(m.sets, k))
    && (Assoc.Get(m.sets, name).Some? ==> Assoc.Get(m'.sets, name).Some?)
    && Members(m, name) <= Members(m', name)
    && forall j :: |Members(m, name)| <= j < |Members(m', name)| ==> Members(m', name)[j] in s.nodes
  }

  lemma GrowsTrans(s1: Store, s2: Store, s3: Store, node: Path, name: string)
    requires Grows(s1, s2, node, name) && Grows(s2, s3, node, name)
    ensures Grows(s1, s3, node, name)
  {
    KeepsTrans(s1, s2, s3, node);
    var m1, m2, m3 := Members(s1.nodes[node], name), Members(s2.nodes[node], name), Members(s3.nodes[node], name);
    forall j | |m1| <= j < |m3|
      ensures m3[j] in s1.nodes
    {
      if j < |m2| {
        assert m3[j] == m2[j];
      } else {
        assert m3[j] in s2.nodes;
      }
    }
  }

  /** Adding a node of the store to set `name` grows that set. */
  lemma AddMemberGrows(s: Store, node: Path, name: string, member: Path)
    requires node in s.nodes && member in s.nodes
    ensures AddMember(s, node, Some(Field(name)), member).Success?
    ensures Grows(s, AddMember(s, node, Some(Field(name)), member).value, node, name)
  {
    var s' := AddMember(s, node, Some(Field(name)), member).value;
    var ms, ms' := Members(s.nodes[node], name), Members(s'.nodes[node], name);
    if IsMember(s.nodes[node], name, member) {
      assert ms' == ms;
    } else {
      assert ms' == ms + [member];
      assert ms'[|ms|] == member;
    }
  }

  /**
    The forward loop over `memberPaths` from index `i`: each reference is
    resolved against the current store and the node is added to set `name`.
  */
  function AddMembers(cfg: Config, s: Store, node: Path, name: string, paths: seq<Json>, i: nat)
    : (r: Result<Store, Error>)
    requires node in s.nodes && i <= |paths|
    decreases |paths| - i
    ensures r.Success? ==> Grows(s, r.value, node, name)
  {
    if i == |paths| then Success(s)
    else
      var member :- GetNode(cfg, s, node, Some(paths[i]));
      AddMemberGrows(s, node, name, member);
      var s1 := AddMember(s, node, Some(Field(name)), member).value;
      var s2 :- AddMembers(cfg, s1, node, name, paths, i + 1);
      GrowsTrans(s, s1, s2, node, name);
      Success(s2)
  }

  /**
    The sets a node ends with after a put into set `name`: only the sets
    changed, that set exists and kept its members in order, and every other
    set is as it was.
  */
  ghost predicate SetGrown(n: NodeData, n': NodeData, name: string)
  {
    && Touches(n, n', Sets, false)
    && Assoc.Get(n'.sets, name).Some?
    && Members(n, name) <= Members(n', name)
    && forall k :: k != name ==> Assoc.Get(n'.sets, k) == Assoc.Get(n.sets, k)
  }

  /** `createSet`, then `addMember` for every element of the value. */
  function NewSet(cfg: Config, s: Store, node: Path, name: Option<Seg>, value: Json): (r: Result<Store, Error>)
    requires node in s.nodes
    ensures r.Success? ==>
              && name.Some? && name.value.Field?
              && Keeps(s, r.value, node)
              && SetGrown(s.nodes[node], r.value.nodes[node], name.value.name)
    ensures name.Some? && name.value.Field? && value.JNull? ==> r == Failure(TypeError)
  {
    var s1 :- CreateSet(s, node, name);
    var paths :- Elements(value);
    var s2 :- AddMembers(cfg, s1, node, name.value.name, paths, 0);
    KeepsTrans(s, s1, s2, node);
    TouchesTrans(s.nodes[node], s1.nodes[node], s2.nodes[node], Sets, false);
    Success(s2)
  }

  /** `addMember` of the one node `value` resolves to. */
  function AddOne(cfg: Config, s: Store, node: Path, name: Option<Seg>, value: Json): (r: Result<Store, Error>)
    requires node in s.nodes
    ensures GetNode(cfg, s, node, Some(value)).Failure? ==> r == Failure(GetNode(cfg, s, node, Some(value)).error)
    ensures GetNode(cfg, s, node, Some(value)).Success? ==> (r.Success? <==> name.Some? && name.value.Field?)
    ensures r.Success? ==>
              && name.Some? && name.value.Field? && GetNode(cfg, s, node, Some(value)).Success?
              && Keeps(s, r.value, node)
              && SetGrown(s.nodes[node], r.value.nodes[node], name.value.name)
              && IsMember(r.value.nodes[node], name.value.name, GetNode(cfg, s, node, Some(value)).value)
  {
    var member :- GetNode(cfg, s, node, Some(value));
    AddMember(s, node, name, member)
  }

  /**
    `_put.sets`. A two-segment key creates the set (keeping an existing one)
    and adds every node the value's elements resolve to; a longer key adds the
    one node the value resolves to.
  */
  function PutSets(cfg: Config, s: Store, node: Path, ch: Change): (r: Result<Store, Error>)
    requires node in s.nodes
    ensures r.Success? ==>
              && |ch.key| >= 2 && ch.key[1].Field?
              && Keeps(s, r.value, node)
              && SetGrown(s.nodes[node], r.value.nodes[node], ch.key[1].name)
    ensures |ch.key| == 2 && ch.key[1].Field? && ch.value.JNull? ==> r == Failure(TypeError)
    ensures |ch.key| != 2 && GetNode(cfg, s, node, Some(ch.value)).Failure? ==>
              r == Failure(GetNode(cfg, s, node, Some(ch.value)).error)
    ensures |ch.key| != 2 && GetNode(cfg, s, node, Some(ch.value)).Success? ==>
              && (r.Success? <==> |ch.key| > 2 && ch.key[1].Field?)
              && (r.Success? ==> IsMember(r.value.nodes[node], ch.key[1].name, GetNode(cfg, s, node, Some(ch.value)).value))
  {
    if |ch.key| == 2 then NewSet(cfg, s, node, At(ch.key, 1), ch.value)
    else AddOne(cfg, s, node, At(ch.key, 1), ch.value)
  }

  /** Changing only the sets of `node`, and not the meta set of the root, keeps resolution. */
  lemma SetsEditKeepsResolution(cfg: Config, s: Store, s': Store, node: Path, name: string)
    requires EditsOnly(s, s', node)
    requires s'.nodes[node] == s.nodes[node].(sets := s'.nodes[node].sets)
    requires forall k :: k != name ==> Assoc.Get(s'.nodes[node].sets, k) == Assoc.Get(s.nodes[node].sets, k)
    requires node != cfg.root || name != MetaSetName || Members(s'.nodes[node], name) == Members(s.nodes[node], name)
    ensures SameResolution(cfg, s, s')
  {
    if node == cfg.root && name != MetaSetName {
      assert Assoc.Get(s'.nodes[node].sets, MetaSetName) == Assoc.Get(s.nodes[node].sets, MetaSetName);
    }
    EditKeepsResolution(cfg, s, s', node);
  }

  /** Changing only the sets of `node` keeps every path, child list and name. */
  lemma SetsEditKeepsNames(s: Store, s': Store, node: Path)
    requires EditsOnly(s, s', node)
    requires s'.nodes[node] == s.nodes[node].(sets := s'.nodes[node].sets)
    ensures SameNamesAndChildren(s, s')
  {
  }

  /**
    Adding members does not change what the next reference resolves to, unless
    the set is the root's meta set and the reference is an `@meta:` one: the
    loop succeeds exactly when every reference resolves in the store it
    started from, and then every node resolved is a member.
  */
  lemma {:induction false} AddMembersResolves(cfg: Config, s: Store, node: Path, name: string, paths: seq<Json>, i: nat)
    requires node in s.nodes && i <= |paths|
    requires node != cfg.root || name != MetaSetName || forall j :: i <= j < |paths| ==> !MetaRef(paths[j])
    ensures AddMembers(cfg, s, node, name, paths, i).Success? <==>
              forall j :: i <= j < |paths| ==> GetNode(cfg, s, node, Some(paths[j])).Success?
    ensures AddMembers(cfg, s, node, name, paths, i).Success? ==>
              forall j :: i <= j < |paths| ==>
                IsMember(AddMembers(cfg, s, node, name, paths, i).value.nodes[node], name,
                         GetNode(cfg, s, node, Some(paths[j])).value)
    decreases |paths| - i
  {
    if i == |paths| {
    } else if GetNode(cfg, s, node, Some(paths[i])).Failure? {
      assert AddMembers(cfg, s, node, name, paths, i).Failure?;
    } else {
      var s1 := AddMembersStep(cfg, s, node, name, paths, i);
      AddMembersResolves(cfg, s1, node, name, paths, i + 1);
      var r := AddMembers(cfg, s1, node, name, paths, i + 1);
      assert r.Success? <==> forall j :: i + 1 <= j < |paths| ==> GetNode(cfg, s, node, Some(paths[j])).Success?;
      if r.Success? {
        assert forall j :: i + 1 <= j < |paths| ==> IsMember(r.value.nodes[node], name, GetNode(cfg, s, node, Some(paths[j])).value);
      }
    }
  }

  /**
    One turn of the loop, outside the root's meta set or among references
    other than `@meta:` ones: the resolved node joins the set, and every later
    reference resolves as before.
  */
  lemma AddMembersStep(cfg: Config, s: Store, node: Path, name: string, paths: seq<Json>, i: nat) returns (s1: Store)
    requires node in s.nodes && i < |paths|
    requires node != cfg.root || name != MetaSetName || forall j :: i <= j < |paths| ==> !MetaRef(paths[j])
    requires GetNode(cfg, s, node, Some(paths[i])).Success?
    ensures node in s1.nodes
    ensures AddMembers(cfg, s, node, name, paths, i) == AddMembers(cfg, s1, node, name, paths, i + 1)
    ensures forall j :: i <= j < |paths| ==> GetNode(cfg, s1, node, Some(paths[j])) == GetNode(cfg, s, node, Some(paths[j]))
    ensures AddMembers(cfg, s1, node, name, paths, i + 1).Success? ==>
              IsMember(AddMembers(cfg, s1, node, name, paths, i + 1).value.nodes[node], name,
                       GetNode(cfg, s, node, Some(paths[i])).value)
  {
    var found := GetNode(cfg, s, node, Some(paths[i])).value;
    s1 := AddMember(s, node, Some(Field(name)), found).value;
    if node != cfg.root || name != MetaSetName {
      SetsEditKeepsResolution(cfg, s, s1, node, name);
      forall j | i <= j < |paths|
        ensures GetNode(cfg, s1, node, Some(paths[j])) == GetNode(cfg, s, node, Some(paths[j]))
      {
        ResolutionFrame(cfg, s, s1, node, Some(paths[j]));
      }
    } else {
      SetsEditKeepsNames(s, s1, node);
      forall j | i <= j < |paths|
        ensures GetNode(cfg, s1, node, Some(paths[j])) == GetNode(cfg, s, node, Some(paths[j]))
      {
        NonMetaResolutionFrame(cfg, s, s1, node, paths[j]);
      }
    }
    var r := AddMembers(cfg, s1, node, name, paths, i + 1);
    if r.Success? {
      assert IsMember(s1.nodes[node], name, found);
      assert Members(s1.nodes[node], name) <= Members(r.value.nodes[node], name);
    }
  }

  /**
    A whole set (a two-segment key with an array value), outside the root's
    meta set or with no `@meta:` element: it is accepted exactly when every
    element resolves, and then every resolved node is a member.
  */
  lemma PutWholeSet(cfg: Config, s: Store, node: Path, ch: Change)
    requires node in s.nodes && |ch.key| == 2 && ch.key[1].Field? && ch.value.JArr?
    requires node != cfg.root || ch.key[1].name != MetaSetName || forall j :: 0 <= j < |ch.value.items| ==> !MetaRef(ch.value.items[j])
    ensures PutSets(cfg, s, node, ch).Success? <==>
              forall j :: 0 <= j < |ch.value.items| ==> GetNode(cfg, s, node, Some(ch.value.items[j])).Success?
    ensures PutSets(cfg, s, node, ch).Success? ==>
              forall j :: 0 <= j < |ch.value.items| ==>
                IsMember(PutSets(cfg, s, node, ch).value.nodes[node], ch.key[1].name,
                         GetNode(cfg, s, node, Some(ch.value.items[j])).value)
  {
    var name := ch.key[1].name;
    var s1 := CreateSet(s, node, At(ch.key, 1)).value;
    SetsEditKeepsResolution(cfg, s, s1, node, name);
    assert PutSets(cfg, s, node, ch) == NewSet(cfg, s, node, At(ch.key, 1), ch.value);
    forall j | 0 <= j < |ch.value.items|
      ensures GetNode(cfg, s1, node, Some(ch.value.items[j])) == GetNode(cfg, s, node, Some(ch.value.items[j]))
    {
      ResolutionFrame(cfg, s, s1, node, Some(ch.value.items[j]));
    }
    AddMembersResolves(cfg, s1, node, name, ch.value.items, 0);
    assert PutSets(cfg, s, node, ch) == AddMembers(cfg, s1, node, name, ch.value.items, 0);
  }

  // ----------------------------------------------------------- delete sets

  /**
    `getMemberPaths(node, name)[index]`: the member at an in-range array index,
    whether the segment is a number or its decimal name; `undefined` otherwise.
  */
  function MemberAt(members: seq<Path>, index: Seg): (r: Option<Path>)
    ensures r.Some? <==> SegIndex(index).Some? && SegIndex(index).value < |members|
    ensures r.Some? ==> r.value == members[SegIndex(index).value]
    ensures index.Index? ==> r == if index.i < |members| then Some(members[index.i]) else None
  {
    var ix := SegIndex(index);
    assert index.Index? ==> ix == Some(index.i) by {
      if index.Index? { IndexNameOfNat(index.i); }
    }
    if ix.Some? && ix.value < |members| then Some(members[ix.value]) else None
  }

  /**
    `_delete.sets`. Without a third segment the whole set goes with the data
    its members owned; with one, the member at that position of the set
    leaves it, with the data it owned.
  */
  function DelSets(s: Store, node: Path, ch: Change): (r: Result<Store, Error>)
    requires node in s.nodes
    ensures r.Success? ==>
              && |ch.key| >= 2 && ch.key[1].Field?
              && Keeps(s, r.value, node)
              && var m, m', name := s.nodes[node], r.value.nodes[node], ch.key[1].name;
              && Touches(m, m', Sets, true)
              && forall k :: k != name ==> Assoc.Get(m'.sets, k) == Assoc.Get(m.sets, k)
    ensures |ch.key| <= 2 ==> (r.Success? <==> |ch.key| == 2 && ch.key[1].Field?)
    ensures |ch.key| <= 2 && r.Success? ==>
              && var m', name := r.value.nodes[node], ch.key[1].name;
              && Assoc.Get(m'.sets, name) == None
              && forall p :: MemberData(m', MemberAttrTable, name, p) == [] && MemberData(m', MemberRegTable, name, p) == []
    ensures |ch.key| > 2 ==>
              (r.Success? <==> ch.key[1].Field? && MemberAt(Members(s.nodes[node], ch.key[1].name), ch.key[2]).Some?)
    ensures |ch.key| > 2 && r.Success? ==>
              && var m', name := r.value.nodes[node], ch.key[1].name;
              && var p := Members(s.nodes[node], name)[SegIndex(ch.key[2]).value];
              && !IsMember(m', name, p)
              && MemberData(m', MemberAttrTable, name, p) == []
              && MemberData(m', MemberRegTable, name, p) == []
  {
    var name := At(ch.key, 1);
    var index := At(ch.key, 2);
    if index.None? then DelSet(s, node, name)
    else
      var members :- MemberPaths(s, node, name);
      DelMember(s, node, name, MemberAt(members, index.value))
  }

  // --------------------------------------------------- delete member data

  /**
    The `forEach` over `names`, from index `i`: each name is deleted from the
    data that (`setName`, `member`) owns in table `t`.
  */
  function DelNames(s: Store, node: Path, t: MemberTable, setName: Option<Seg>, member: Option<Seg>,
                    names: seq<string>, i: nat): (r: Result<Store, Error>)
    requires node in s.nodes && i <= |names|
    decreases |names| - i
    ensures i < |names| ==>
              (r.Success? <==> setName.Some? && setName.value.Field? && member.Some? && member.value.Field?
                               && IsMember(s.nodes[node], setName.value.name, member.value.name))
    ensures i == |names| ==> r == Success(s)
    ensures r.Success? ==>
              && Keeps(s, r.value, node)
              && Touches(s.nodes[node], r.value.nodes[node], MemberCategory(t), false)
  {
    if i == |names| then Success(s)
    else
      var s1 :- DelMemberEntry(s, node, t, setName, member, names[i]);
      OwnedSets(s.nodes[node], s1.nodes[node], t);
      assert s1.nodes[node].sets == s.nodes[node].sets;
      var s2 := DelNames(s1, node, t, setName, member, names, i + 1).value;
      KeepsTrans(s, s1, s2, node);
      TouchesTrans(s.nodes[node], s1.nodes[node], s2.nodes[node], MemberCategory(t), false);
      Success(s2)
  }

  /** `a` is one of `names[i..]`. */
  predicate Listed(names: seq<string>, i: nat, a: string)
    decreases |names| - i
  {
    i < |names| && (names[i] == a || Listed(names, i + 1, a))
  }

  lemma {:induction false} ListedIn(names: seq<string>, i: nat, a: string)
    ensures Listed(names, i, a) <==> exists j :: i <= j < |names| && names[j] == a
    decreases |names| - i
  {
    if i < |names| {
      ListedIn(names, i + 1, a);
    }
  }

  /** `names[i..]` deleted from `d` one after the other. */
  function RemoveNames(d: Assoc.Assoc<Json>, names: seq<string>, i: nat): Assoc.Assoc<Json>
    decreases |names| - i
  {
    if i >= |names| then d else RemoveNames(Assoc.Remove(d, names[i]), names, i + 1)
  }

  /** After `RemoveNames` exactly the listed names are gone. */
  lemma {:induction false} RemoveNamesGet(d: Assoc.Assoc<Json>, names: seq<string>, i: nat, a: string)
    ensures Assoc.Get(RemoveNames(d, names, i), a) == if Listed(names, i, a) then None else Assoc.Get(d, a)
    decreases |names| - i
  {
    if i < |names| {
      RemoveNamesGet(Assoc.Remove(d, names[i]), names, i + 1, a);
    }
  }

  /** One turn of the name loop: the first name leaves the pair's data, and the loop goes on from there. */
  lemma DelNamesStep(s: Store, node: Path, t: MemberTable, sn: string, mn: string, names: seq<string>, i: nat)
    returns (s1: Store)
    requires node in s.nodes && i < |names|
    requires DelNames(s, node, t, Some(Field(sn)), Some(Field(mn)), names, i).Success?
    ensures node in s1.nodes
    ensures DelNames(s, node, t, Some(Field(sn)), Some(Field(mn)), names, i)
         == DelNames(s1, node, t, Some(Field(sn)), Some(Field(mn)), names, i + 1)
    ensures MemberTableOf(s1.nodes[node], t)
         == MemberTableOf(s.nodes[node], t)[(sn, mn) := MemberData(s1.nodes[node], t, sn, mn)]
    ensures RemoveNames(MemberData(s.nodes[node], t, sn, mn), names, i)
         == RemoveNames(MemberData(s1.nodes[node], t, sn, mn), names, i + 1)
  {
    s1 := DelMemberEntry(s, node, t, Some(Field(sn)), Some(Field(mn)), names[i]).value;
  }

  /** After the loop the pair's data is `RemoveNames` of what it was, and no other pair's data changed. */
  lemma {:induction false} DelNamesTable(s: Store, node: Path, t: MemberTable, sn: string, mn: string,
                                         names: seq<string>, i: nat)
    requires node in s.nodes && i < |names|
    requires DelNames(s, node, t, Some(Field(sn)), Some(Field(mn)), names, i).Success?
    ensures MemberTableOf(DelNames(s, node, t, Some(Field(sn)), Some(Field(mn)), names, i).value.nodes[node], t)
         == MemberTableOf(s.nodes[node], t)[(sn, mn) := RemoveNames(MemberData(s.nodes[node], t, sn, mn), names, i)]
    decreases |names| - i
  {
    var s1 := DelNamesStep(s, node, t, sn, mn, names, i);
    if i + 1 < |names| {
      DelNamesTable(s1, node, t, sn, mn, names, i + 1);
      UpdateTwice(MemberTableOf(s.nodes[node], t), (sn, mn), MemberData(s1.nodes[node], t, sn, mn),
                  RemoveNames(MemberData(s1.nodes[node], t, sn, mn), names, i + 1));
    }
  }

  /** A second update of the same key overrides the first. */
  lemma UpdateTwice<K, V>(m: map<K, V>, k: K, a: V, b: V)
    ensures m[k := a][k := b] == m[k := b]
  {
  }

  /** Rewriting one member table leaves the node touched only in that category. */
  lemma OwnedSets(n: NodeData, n': NodeData, t: MemberTable)
    requires n' == WithMemberTable(n, t, MemberTableOf(n', t))
    ensures Touches(n, n', MemberCategory(t), false)
  {
  }

  /**
    `_delete.member_attributes` and `_delete.member_registry`: with a name,
    that one entry of the member's data goes; without one, every entry does.
    The set and member segments are passed on as they are.
  */
  function DelMemberData(s: Store, node: Path, t: MemberTable, ch: Change): (r: Result<Store, Error>)
    requires node in s.nodes
    ensures r.Success? ==>
              && Keeps(s, r.value, node)
              && Touches(s.nodes[node], r.value.nodes[node], MemberCategory(t), false)
    ensures |ch.key| > 3 && ch.key[3].Field? ==>
              (r.Success? <==> && |ch.key| >= 3 && ch.key[1].Field? && ch.key[2].Field?
                               && IsMember(s.nodes[node], ch.key[1].name, ch.key[2].name))
  {
    var setName, member, name := At(ch.key, 1), At(ch.key, 2), At(ch.key, 3);
    var names :-
      if name.None? then MemberEntryNames(s, node, t, setName, member)
      else if name.value.Field? then Success([name.value.name])
      else Failure(StoreRejected);
    DelNames(s, node, t, setName, member, names, 0)
  }

  /** The names `DelMemberData` deletes, once its segments are well formed. */
  function NamesToDelete(d: Assoc.Assoc<Json>, name: Option<Seg>): seq<string>
    requires name.Some? ==> name.value.Field?
  {
    if name.None? then Assoc.Keys(d) else [name.value.name]
  }

  /** `DelMemberData` is the loop over `NamesToDelete`; the pair's data becomes `RemoveNames` of it. */
  lemma DelMemberDataTable(s: Store, node: Path, t: MemberTable, ch: Change)
    requires node in s.nodes && |ch.key| >= 3 && ch.key[1].Field? && ch.key[2].Field?
    requires DelMemberData(s, node, t, ch).Success?
    ensures |ch.key| > 3 ==> ch.key[3].Field?
    ensures var key := (ch.key[1].name, ch.key[2].name);
            var m, m' := s.nodes[node], DelMemberData(s, node, t, ch).value.nodes[node];
            var d := MemberData(m, t, key.0, key.1);
            var names := NamesToDelete(d, At(ch.key, 3));
            && MemberData(m', t, key.0, key.1) == RemoveNames(d, names, 0)
            && OtherPairsKept(MemberTableOf(m, t), MemberTableOf(m', t), key)
  {
    var key := (ch.key[1].name, ch.key[2].name);
    var m := s.nodes[node];
    var d := MemberData(m, t, key.0, key.1);
    var names := NamesToDelete(d, At(ch.key, 3));
    assert DelMemberData(s, node, t, ch) == DelNames(s, node, t, At(ch.key, 1), At(ch.key, 2), names, 0);
    if |names| > 0 {
      DelNamesTable(s, node, t, key.0, key.1, names, 0);
    }
  }

  /** Without a name, none of the pair's data is left; every other pair's data is as it was. */
  lemma DelAllMemberData(s: Store, node: Path, t: MemberTable, ch: Change)
    requires node in s.nodes && |ch.key| == 3 && ch.key[1].Field? && ch.key[2].Field?
    requires DelMemberData(s, node, t, ch).Success?
    ensures var key := (ch.key[1].name, ch.key[2].name);
            var m, m' := s.nodes[node], DelMemberData(s, node, t, ch).value.nodes[node];
            && (forall a :: Assoc.Get(MemberData(m', t, key.0, key.1), a) == None)
            && OtherPairsKept(MemberTableOf(m, t), MemberTableOf(m', t), key)
  {
    DelMemberDataTable(s, node, t, ch);
    var key := (ch.key[1].name, ch.key[2].name);
    var d := MemberData(s.nodes[node], t, key.0, key.1);
    var names := Assoc.Keys(d);
    forall a ensures Assoc.Get(RemoveNames(d, names, 0), a) == None {
      RemoveNamesGet(d, names, 0, a);
      ListedIn(names, 0, a);
    }
  }

  /** With a name, exactly that entry of the pair's data goes; every other pair's data is as it was. */
  lemma DelOneMemberData(s: Store, node: Path, t: MemberTable, ch: Change)
    requires node in s.nodes && |ch.key| > 3 && ch.key[1].Field? && ch.key[2].Field?
    requires DelMemberData(s, node, t, ch).Success?
    ensures ch.key[3].Field?
    ensures var key := (ch.key[1].name, ch.key[2].name);
            var m, m' := s.nodes[node], DelMemberData(s, node, t, ch).value.nodes[node];
            var d, d' := MemberData(m, t, key.0, key.1), MemberData(m', t, key.0, key.1);
            && Assoc.Get(d', ch.key[3].name) == None
            && (forall a :: a != ch.key[3].name ==> Assoc.Get(d', a) == Assoc.Get(d, a))
            && OtherPairsKept(MemberTableOf(m, t), MemberTableOf(m', t), key)
  {
    DelMemberDataTable(s, node, t, ch);
    var key := (ch.key[1].name, ch.key[2].name);
    var d := MemberData(s.nodes[node], t, key.0, key.1);
    var names := [ch.key[3].name];
    forall a ensures Assoc.Get(RemoveNames(d, names, 0), a) == if a == ch.key[3].name then None else Assoc.Get(d, a) {
      RemoveNamesGet(d, names, 0, a);
      ListedIn(names, 0, a);
    }
  }
}
