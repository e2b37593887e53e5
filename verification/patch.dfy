/**
  The change handlers (`_put`, `_delete` and one handler per category,
  JSONImporter.js:173-417). Each takes the node being reconciled and one change
  record and either returns the edited store or fails the way the handler
  throws. A handler edits that node only, and only the fields its category
  names.
*/
module Patch {
  import opened Wrappers
  import opened Errors
  import opened Json
  import opened JsObjects
  import opened Changes
  import opened Store
  import opened References
  import Assoc

  /** The categories `_put` and `_delete` carry a handler for. */
  datatype Category =
    | Attributes
    | AttributeMeta
    | Pointers
    | PointerMeta
    | Sets
    | MemberAttributes
    | MemberRegistry
    | Registry

  /** The document field (and handler property) of each category. */
  function CategoryName(c: Category): string
  {
    match c
    case Attributes => "attributes"
    case AttributeMeta => "attribute_meta"
    case Pointers => "pointers"
    case PointerMeta => "pointer_meta"
    case Sets => "sets"
    case MemberAttributes => "member_attributes"
    case MemberRegistry => "member_registry"
    case Registry => "registry"
  }

  /** The handler `this._put[type]` finds for the first key segment, if any. */
  function ParseCategory(seg: Option<Seg>): (r: Option<Category>)
    ensures r.Some? ==> seg == Some(Field(CategoryName(r.value)))
    ensures r.None? ==> forall c :: seg != Some(Field(CategoryName(c)))
  {
    if seg.None? || !seg.value.Field? then None
    else
      match seg.value.name
      case "attributes" => Some(Attributes)
      case "attribute_meta" => Some(AttributeMeta)
      case "pointers" => Some(Pointers)
      case "pointer_meta" => Some(PointerMeta)
      case "sets" => Some(Sets)
      case "member_attributes" => Some(MemberAttributes)
      case "member_registry" => Some(MemberRegistry)
      case "registry" => Some(Registry)
      case _ => None
  }

  /** `change.key[i]`; destructuring past the end yields `undefined`. */
  function At(key: seq<Seg>, i: nat): (r: Option<Seg>)
    ensures r.Some? <==> i < |key|
    ensures r.Some? ==> r.value == key[i]
  {
    if i < |key| then Some(key[i]) else None
  }

  /** A key segment as the value a handler passes on: a string or a number. */
  function SegJson(seg: Seg): Json
  {
    match seg
    case Field(name) => JStr(name)
    case Index(i) => JNum(i)
  }

  /** The fields of a node a put (or a delete) in category `c` may change. */
  predicate Touches(n: NodeData, n': NodeData, c: Category, deleting: bool)
  {
    match c
    case Attributes => n' == n.(attributes := n'.attributes)
    case AttributeMeta => n' == n.(attributeMeta := n'.attributeMeta)
    case Registry => n' == n.(registry := n'.registry)
    case Pointers => n' == n.(pointers := n'.pointers)
    case PointerMeta => n' == n.(pointerMeta := n'.pointerMeta)
    case Sets =>
      if deleting then n' == n.(sets := n'.sets, memberAttributes := n'.memberAttributes,
                                memberRegistry := n'.memberRegistry)
      else n' == n.(sets := n'.sets)
    case MemberAttributes => n' == n.(memberAttributes := n'.memberAttributes)
    case MemberRegistry => n' == n.(memberRegistry := n'.memberRegistry)
  }

  lemma TouchesTrans(n1: NodeData, n2: NodeData, n3: NodeData, c: Category, deleting: bool)
    requires Touches(n1, n2, c, deleting) && Touches(n2, n3, c, deleting)
    ensures Touches(n1, n3, c, deleting)
  {
  }

  /** The category whose handlers write table `t`. */
  function TableCategory(t: Table): Category
  {
    match t
    case AttrTable => Attributes
    case MetaTable => AttributeMeta
    case RegTable => Registry
  }

  function MemberCategory(t: MemberTable): Category
  {
    match t
    case MemberAttrTable => MemberAttributes
    case MemberRegTable => MemberRegistry
  }

  /**
    Only node `p` changed, only in fields handlers edit, and data owned by
    (set, member) pairs still belongs to current members.
  */
  predicate Keeps(s: Store, s': Store, p: Path)
  {
    EditsOnly(s, s', p) && (MemberDataOwned(s.nodes[p]) ==> MemberDataOwned(s'.nodes[p]))
  }

  lemma KeepsTrans(s1: Store, s2: Store, s3: Store, p: Path)
    requires Keeps(s1, s2, p) && Keeps(s2, s3, p)
    ensures Keeps(s1, s3, p)
  {
  }

  /** An edit that leaves the sets and the member data alone keeps the member data owned. */
  lemma OwnedKept(n: NodeData, n': NodeData)
    requires n'.sets == n.sets && n'.memberAttributes == n.memberAttributes && n'.memberRegistry == n.memberRegistry
    ensures MemberDataOwned(n) ==> MemberDataOwned(n')
  {
    assert forall k :: Members(n', k) == Members(n, k);
  }

  /** An edit of one name-indexed table of a node keeps the store's shape and its member data. */
  lemma TableWriteKeeps(s: Store, s': Store, p: Path, t: Table, deleting: bool)
    requires EditsOnly(s, s', p)
    requires s'.nodes[p] == WithTable(s.nodes[p], t, TableOf(s'.nodes[p], t))
    ensures Keeps(s, s', p) && Touches(s.nodes[p], s'.nodes[p], TableCategory(t), deleting)
  {
    OwnedKept(s.nodes[p], s'.nodes[p]);
  }

  /** The entry `name` of table `t` of node `p`. */
  function Entry(s: Store, p: Path, t: Table, name: string): Option<Json>
    requires p in s.nodes
  {
    Assoc.Get(TableOf(s.nodes[p], t), name)
  }

  // ---------------------------------------- attributes, attribute meta, registry

  /** `_put.attributes`: a two-segment key sets one attribute; deeper keys are refused. */
  function PutAttributes(s: Store, node: Path, ch: Change): (r: Result<Store, Error>)
    requires node in s.nodes
    ensures |ch.key| != 2 ==> r == Failure(UnsupportedShape)
    ensures |ch.key| == 2 ==> (r.Success? <==> ch.key[1].Field?)
    ensures |ch.key| == 2 && r.Failure? ==> r.error == StoreRejected
    ensures r.Success? ==>
              && Keeps(s, r.value, node)
              && Touches(s.nodes[node], r.value.nodes[node], Attributes, false)
              && Entry(r.value, node, AttrTable, ch.key[1].name) == Some(ch.value)
              && forall k :: k != ch.key[1].name ==> Entry(r.value, node, AttrTable, k) == Entry(s, node, AttrTable, k)
  {
    if |ch.key| != 2 then Failure(UnsupportedShape)
    else
      var s' :- SetEntry(s, node, AttrTable, At(ch.key, 1), ch.value);
      OwnedKept(s.nodes[node], s'.nodes[node]);
      Success(s')
  }

  /**
    `_put.attribute_meta` and `_put.registry`: a two-segment key replaces the
    entry; a deeper key reads the entry, writes into it with `setNested`, and
    stores it back. A missing entry makes `setNested` throw.
  */
  function PutTable(s: Store, node: Path, t: Table, ch: Change): (r: Result<Store, Error>)
    requires node in s.nodes
    ensures r.Success? ==>
              && |ch.key| >= 2 && ch.key[1].Field?
              && Keeps(s, r.value, node)
              && Touches(s.nodes[node], r.value.nodes[node], TableCategory(t), false)
              && forall k :: k != ch.key[1].name ==> Entry(r.value, node, t, k) == Entry(s, node, t, k)
    ensures |ch.key| <= 2 ==> (r.Success? <==> |ch.key| == 2 && ch.key[1].Field?)
    ensures |ch.key| <= 2 && r.Success? ==> Entry(r.value, node, t, ch.key[1].name) == Some(ch.value)
    ensures |ch.key| > 2 && ch.key[1].Field? && Entry(s, node, t, ch.key[1].name).None? ==> r == Failure(TypeError)
    ensures |ch.key| > 2 && !ch.key[1].Field? ==> r == Failure(StoreRejected)
  {
    var name := At(ch.key, 1);
    var s' :-
      if |ch.key| <= 2 then SetEntry(s, node, t, name, ch.value)
      else if name.Some? && name.value.Field? then PutNestedEntry(s, node, t, name.value.name, ch.key[2..], ch.value)
      else Failure(StoreRejected);
    TableWriteKeeps(s, s', node, t, false);
    Success(s')
  }

  /** The deeper-key case of `PutTable`: read entry `name`, write into it at `path`, store it back. */
  function PutNestedEntry(s: Store, node: Path, t: Table, name: string, path: seq<Seg>, v: Json): (r: Result<Store, Error>)
    requires node in s.nodes
    ensures Entry(s, node, t, name).None? ==> r == Failure(TypeError)
    ensures r.Success? ==>
              && EditsOnly(s, r.value, node)
              && var n, n' := s.nodes[node], r.value.nodes[node];
              && n' == WithTable(n, t, TableOf(n', t))
              && forall k :: k != name ==> Assoc.Get(TableOf(n', t), k) == Assoc.Get(TableOf(n, t), k)
  {
    var cur := Entry(s, node, t, name);
    if cur.None? then Failure(TypeError)
    else
      var w :- SetNested(cur.value, path, v);
      SetEntry(s, node, t, Some(Field(name)), w)
  }

  /**
    A nested put into an entry that is an object all along the key writes the
    value at that key and leaves every other path of the entry as it was.
  */
  lemma PutTableNested(s: Store, node: Path, t: Table, ch: Change)
    requires node in s.nodes
    requires |ch.key| > 2 && ch.key[1].Field?
    requires Entry(s, node, t, ch.key[1].name).Some?
    requires ObjectPath(Entry(s, node, t, ch.key[1].name).value, ch.key[2..])
    ensures PutTable(s, node, t, ch).Success?
    ensures var before, after := Entry(s, node, t, ch.key[1].name).value,
                                 Entry(PutTable(s, node, t, ch).value, node, t, ch.key[1].name);
            && after.Some?
            && GetPath(after.value, ch.key[2..]) == Some(ch.value)
            && forall q :: Diverges(q, ch.key[2..]) ==> GetPath(after.value, q) == GetPath(before, q)
  {
    SetNestedOnObjects(Entry(s, node, t, ch.key[1].name).value, ch.key[2..], ch.value);
  }

  /**
    `_delete.attributes`, `_delete.attribute_meta` and `_delete.registry`:
    only a two-segment key is accepted, and it removes one entry.
  */
  function DelTable(s: Store, node: Path, t: Table, ch: Change): (r: Result<Store, Error>)
    requires node in s.nodes
    ensures |ch.key| != 2 ==> r == Failure(UnsupportedShape)
    ensures |ch.key| == 2 ==> (r.Success? <==> ch.key[1].Field?)
    ensures |ch.key| == 2 && r.Failure? ==> r.error == StoreRejected
    ensures r.Success? ==>
              && Keeps(s, r.value, node)
              && Touches(s.nodes[node], r.value.nodes[node], TableCategory(t), true)
              && Entry(r.value, node, t, ch.key[1].name) == None
              && forall k :: k != ch.key[1].name ==> Entry(r.value, node, t, k) == Entry(s, node, t, k)
  {
    if |ch.key| != 2 then Failure(UnsupportedShape)
    else
      var s' :- DelEntry(s, node, t, At(ch.key, 1));
      TableWriteKeeps(s, s', node, t, true);
      Success(s')
  }

  // ---------------------------------------------------------------- pointers

  /** `_put.pointers`: a two-segment key points the pointer at the node the value resolves to. */
  function PutPointers(cfg: Config, s: Store, node: Path, ch: Change): (r: Result<Store, Error>)
    requires node in s.nodes
    ensures |ch.key| != 2 ==> r == Failure(UnsupportedShape)
    ensures |ch.key| == 2 && GetNode(cfg, s, node, Some(ch.value)).Failure? ==>
              r == Failure(GetNode(cfg, s, node, Some(ch.value)).error)
    ensures |ch.key| == 2 && GetNode(cfg, s, node, Some(ch.value)).Success? ==>
              (r.Success? <==> ch.key[1].Field?)
    ensures r.Success? ==>
              && Keeps(s, r.value, node)
              && var n, n' := s.nodes[node], r.value.nodes[node];
              && Touches(n, n', Pointers, false)
              && Assoc.Get(n'.pointers, ch.key[1].name) == Some(GetNode(cfg, s, node, Some(ch.value)).value)
              && forall k :: k != ch.key[1].name ==> Assoc.Get(n'.pointers, k) == Assoc.Get(n.pointers, k)
  {
    if |ch.key| != 2 then Failure(UnsupportedShape)
    else
      var target :- GetNode(cfg, s, node, Some(ch.value));
      var s' :- SetPointer(s, node, At(ch.key, 1), target);
      OwnedKept(s.nodes[node], s'.nodes[node]);
      Success(s')
  }

  /** `_delete.pointers`: a two-segment key removes one pointer. */
  function DelPointers(s: Store, node: Path, ch: Change): (r: Result<Store, Error>)
    requires node in s.nodes
    ensures |ch.key| != 2 ==> r == Failure(UnsupportedShape)
    ensures |ch.key| == 2 ==> (r.Success? <==> ch.key[1].Field?)
    ensures r.Success? ==>
              && Keeps(s, r.value, node)
              && var n, n' := s.nodes[node], r.value.nodes[node];
              && Touches(n, n', Pointers, true)
              && Assoc.Get(n'.pointers, ch.key[1].name) == None
              && forall k :: k != ch.key[1].name ==> Assoc.Get(n'.pointers, k) == Assoc.Get(n.pointers, k)
  {
    if |ch.key| != 2 then Failure(UnsupportedShape)
    else
      var s' :- DelPointer(s, node, At(ch.key, 1));
      OwnedKept(s.nodes[node], s'.nodes[node]);
      Success(s')
  }
  // ------------------------------------------------------------ pointer meta

  /** `getNode(node, key)` for a string key. */
  function Resolve(cfg: Config, s: Store, node: Path, key: string): Result<Path, Error>
  {
    GetNode(cfg, s, node, Some(JStr(key)))
  }

  /**
    One per-target entry of a whole pointer rule as the loop reads it: the node
    its key resolves to, then its `min` and `max`.
  */
  function TargetBound(cfg: Config, s: Store, node: Path, e: (string, Json)): (r: Result<(Path, Limits), Error>)
    ensures Resolve(cfg, s, node, e.0).Failure? ==> r == Failure(Resolve(cfg, s, node, e.0).error)
    ensures r.Success? <==> Resolve(cfg, s, node, e.0).Success? && !e.1.JNull?
    ensures r.Success? ==> r.value.0 == Resolve(cfg, s, node, e.0).value
  {
    var target :- Resolve(cfg, s, node, e.0);
    var bounds :- LimitsOf(e.1);
    Success((target, bounds))
  }

  /** `{min: j.min, max: j.max}`; reading a property of `null` throws. */
  function LimitsOf(j: Json): (r: Result<Limits, Error>)
    ensures r.Failure? <==> j.JNull?
    ensures r.Failure? ==> r.error == TypeError
    ensures j.JObj? ==> r == Success(Limits(Assoc.Get(j.fields, "min"), Assoc.Get(j.fields, "max")))
  {
    if j.JNull? then Failure(TypeError)
    else Success(Limits(Prop(j, Field("min")).value, Prop(j, Field("max")).value))
  }

  /**
    The entries `targets[n-1]` down to `targets[0]` resolved in that order, as
    the loop resolves them; the first failure in that order is the result.
    Resolution reads no pointer meta, so resolving every entry before writing
    any bounds gives the loop's outcome.
  */
  function ResolveAll(cfg: Config, s: Store, node: Path, targets: Assoc.Assoc<Json>, n: nat)
    : (r: Result<seq<(Path, Limits)>, Error>)
    requires n <= |targets|
    ensures r.Success? <==> forall i :: 0 <= i < n ==> TargetBound(cfg, s, node, targets[i]).Success?
    ensures r.Success? ==> |r.value| == n && forall i :: 0 <= i < n ==> r.value[i] == TargetBound(cfg, s, node, targets[i]).value
    ensures r.Failure? ==> r.error in FailureErrors(cfg, s, node, targets, n)
  {
    if n == 0 then Success([])
    else
      var b :- TargetBound(cfg, s, node, targets[n - 1]);
      var rest :- ResolveAll(cfg, s, node, targets, n - 1);
      Success(rest + [b])
  }

  /** The errors the entries below `n` fail with. */
  ghost function FailureErrors(cfg: Config, s: Store, node: Path, targets: Assoc.Assoc<Json>, n: nat): set<Error>
    requires n <= |targets|
  {
    set i | 0 <= i < n && TargetBound(cfg, s, node, targets[i]).Failure? :: TargetBound(cfg, s, node, targets[i]).error
  }

  /**
    The bounds `bs[n-1]` down to `bs[0]` written one at a time as targets of
    pointer `name`: a later write to the same target wins, so each target ends
    up with the bounds of its lowest-indexed entry.
  */
  function ApplyBounds(s: Store, node: Path, name: string, bs: seq<(Path, Limits)>, n: nat): (r: Store)
    requires node in s.nodes && n <= |bs|
    ensures node in r.nodes && Keeps(s, r, node)
    ensures var m, m' := s.nodes[node], r.nodes[node];
            && Touches(m, m', PointerMeta, false)
            && (forall k :: k != name ==> Assoc.Get(m'.pointerMeta, k) == Assoc.Get(m.pointerMeta, k))
            && (n > 0 || Assoc.Get(m.pointerMeta, name).Some? ==> Assoc.Get(m'.pointerMeta, name).Some?)
            && RuleOf(m', name).limits == RuleOf(m, name).limits
            && RuleOf(m', name).targets == PutAll(RuleOf(m, name).targets, bs, n)
    decreases n
  {
    if n == 0 then s
    else
      var s1 := SetPointerMetaTarget(s, node, Some(Field(name)), bs[n - 1].0, bs[n - 1].1.min, bs[n - 1].1.max).value;
      OwnedKept(s.nodes[node], s1.nodes[node]);
      var s2 := ApplyBounds(s1, node, name, bs, n - 1);
      KeepsTrans(s, s1, s2, node);
      s2
  }

  /** `bs[n-1]` down to `bs[0]` put into a target table, one `put` each. */
  function PutAll(a: Assoc.Assoc<Limits>, bs: seq<(Path, Limits)>, n: nat): Assoc.Assoc<Limits>
    requires n <= |bs|
    decreases n
  {
    if n == 0 then a else PutAll(Assoc.Put(a, bs[n - 1].0, bs[n - 1].1), bs, n - 1)
  }

  /** After `PutAll`, each target has the bounds of its lowest-indexed entry, or its old ones. */
  lemma PutAllGet(a: Assoc.Assoc<Limits>, bs: seq<(Path, Limits)>, n: nat, t: Path)
    requires n <= |bs|
    ensures Assoc.Get(PutAll(a, bs, n), t) == if FirstBound(bs, n, t).Some? then FirstBound(bs, n, t) else Assoc.Get(a, t)
  {
    if FirstBound(bs, n, t).Some? {
      PutAllFirst(a, bs, n, t);
    } else {
      PutAllUntouched(a, bs, n, t);
    }
  }

  /** A target some entry names ends up with the bounds of the lowest such entry. */
  lemma {:induction false} PutAllFirst(a: Assoc.Assoc<Limits>, bs: seq<(Path, Limits)>, n: nat, t: Path)
    requires n <= |bs| && FirstBound(bs, n, t).Some?
    ensures Assoc.Get(PutAll(a, bs, n), t) == FirstBound(bs, n, t)
    decreases n
  {
    var a1 := Assoc.Put(a, bs[n - 1].0, bs[n - 1].1);
    if FirstBound(bs, n - 1, t).Some? {
      PutAllFirst(a1, bs, n - 1, t);
    } else {
      PutAllUntouched(a1, bs, n - 1, t);
      PutLookup(a, bs[n - 1].0, bs[n - 1].1, t);
    }
  }

  /** A target no entry names keeps its bounds. */
  lemma {:induction false} PutAllUntouched(a: Assoc.Assoc<Limits>, bs: seq<(Path, Limits)>, n: nat, t: Path)
    requires n <= |bs| && FirstBound(bs, n, t).None?
    ensures Assoc.Get(PutAll(a, bs, n), t) == Assoc.Get(a, t)
    decreases n
  {
    if n > 0 {
      var a1 := Assoc.Put(a, bs[n - 1].0, bs[n - 1].1);
      assert FirstBound(bs, n - 1, t).None? && bs[n - 1].0 != t;
      PutAllUntouched(a1, bs, n - 1, t);
      PutLookup(a, bs[n - 1].0, bs[n - 1].1, t);
    }
  }

  /** One `put`, seen from a single key. */
  lemma PutLookup(a: Assoc.Assoc<Limits>, k: Path, v: Limits, t: Path)
    ensures Assoc.Get(Assoc.Put(a, k, v), t) == if k == t then Some(v) else Assoc.Get(a, t)
  {
  }

  function FirstBound(bs: seq<(Path, Limits)>, n: nat, t: Path): Option<Limits>
    requires n <= |bs|
  {
    if n == 0 then None
    else
      var f := FirstBound(bs, n - 1, t);
      if f.Some? then f else if bs[n - 1].0 == t then Some(bs[n - 1].1) else None
  }

  /** `FirstBound` finds exactly the lowest index naming `t`. */
  lemma {:induction false} FirstBoundSpec(bs: seq<(Path, Limits)>, n: nat, t: Path)
    requires n <= |bs|
    ensures FirstBound(bs, n, t).None? <==> forall i :: 0 <= i < n ==> bs[i].0 != t
    ensures forall i :: 0 <= i < n && bs[i].0 == t && (forall j :: 0 <= j < i ==> bs[j].0 != t) ==>
              FirstBound(bs, n, t) == Some(bs[i].1)
  {
    if n > 0 {
      FirstBoundSpec(bs, n - 1, t);
    }
  }

  /** No entry before `i` resolves to the node entry `i` resolves to. */
  predicate FirstTarget(cfg: Config, s: Store, node: Path, targets: Assoc.Assoc<Json>, i: nat)
    requires i < |targets|
  {
    forall j :: 0 <= j < i ==> Resolve(cfg, s, node, targets[j].0) != Resolve(cfg, s, node, targets[i].0)
  }

  /** Editing only a node's pointer meta does not change what any reference resolves to. */
  lemma PointerMetaKeepsResolution(cfg: Config, s: Store, s': Store, node: Path)
    requires EditsOnly(s, s', node)
    requires Touches(s.nodes[node], s'.nodes[node], PointerMeta, false)
    ensures SameResolution(cfg, s, s')
  {
    assert Members(s'.nodes[node], MetaSetName) == Members(s.nodes[node], MetaSetName);
    EditKeepsResolution(cfg, s, s', node);
  }

  /**
    `_put.pointer_meta`. A two-segment key carries a whole rule: its bounds are
    set, then one target per remaining entry. A third segment `min` or `max`
    rewrites that bound of the existing rule. Any other third segment names a
    target: the value is written into the rule with `setNested`, and the
    target's entry is read back and submitted.
  */
  function PutPointerMeta(cfg: Config, s: Store, node: Path, ch: Change): (r: Result<Store, Error>)
    requires node in s.nodes
    ensures r.Success? ==>
              && |ch.key| >= 2 && ch.key[1].Field?
              && Keeps(s, r.value, node)
              && var m, m' := s.nodes[node], r.value.nodes[node];
              && Touches(m, m', PointerMeta, false)
              && Assoc.Get(m'.pointerMeta, ch.key[1].name).Some?
              && forall k :: k != ch.key[1].name ==> Assoc.Get(m'.pointerMeta, k) == Assoc.Get(m.pointerMeta, k)
    ensures |ch.key| == 2 && ch.value.JNull? ==> r == Failure(TypeError)
    ensures |ch.key| > 2 && ch.key[1].Field? && Assoc.Get(s.nodes[node].pointerMeta, ch.key[1].name).None? ==>
              r == Failure(TypeError)
  {
    var name := At(ch.key, 1);
    var third := At(ch.key, 2);
    var s' :-
      if |ch.key| == 2 then
        var bounds :- LimitsOf(ch.value);
        var s1 :- SetPointerMetaLimits(s, node, name, bounds.min, bounds.max);
        OwnedKept(s.nodes[node], s1.nodes[node]);
        var s2 :- SetTargets(cfg, s1, node, name.value.name, RuleTargets(ch.value));
        KeepsTrans(s, s1, s2, node);
        Success(s2)
      else if third == Some(Field("min")) || third == Some(Field("max")) then
        var meta :- GetPointerMeta(s, node, name);
        if meta.None? then Failure(TypeError)
        else
          var meta' := Assign(meta.value, third.value, ch.value).value;
          var bounds := LimitsOf(meta').value;
          SetPointerMetaLimits(s, node, name, bounds.min, bounds.max)
      else
        var meta :- GetPointerMeta(s, node, name);
        if meta.None? then Failure(TypeError)
        else
          var meta' :- SetNested(meta.value, ch.key[2..], ch.value);
          var targetMeta := Prop(meta', third.value).value;
          var target :- GetNode(cfg, s, node, Some(SegJson(third.value)));
          if targetMeta.None? then Failure(TypeError)
          else
            var bounds :- LimitsOf(targetMeta.value);
            SetPointerMetaTarget(s, node, name, target, bounds.min, bounds.max);
    OwnedKept(s.nodes[node], s'.nodes[node]);
    Success(s')
  }

  /**
    A third segment `min` or `max` on an existing rule: that bound takes the
    value and the targets stay. The other bound stays too, unless a target's
    path is itself that bound's name: `getPointerMeta` reports targets under
    their paths next to `min` and `max`, so such a target shadows the bound.
  */
  lemma PutRuleBound(cfg: Config, s: Store, node: Path, ch: Change)
    requires node in s.nodes && |ch.key| >= 3 && ch.key[1].Field?
    requires ch.key[2] in [Field("min"), Field("max")]
    requires Assoc.Get(s.nodes[node].pointerMeta, ch.key[1].name).Some?
    ensures PutPointerMeta(cfg, s, node, ch).Success?
    ensures var name, bound := ch.key[1].name, ch.key[2].name;
            var other := if bound == "min" then "max" else "min";
            var rule, rule' := RuleOf(s.nodes[node], name), RuleOf(PutPointerMeta(cfg, s, node, ch).value.nodes[node], name);
            && rule'.targets == rule.targets
            && (if bound == "min" then rule'.limits.min else rule'.limits.max) == Some(ch.value)
            && (Assoc.Get(rule.targets, other).None? ==>
                  if bound == "min" then rule'.limits.max == rule.limits.max else rule'.limits.min == rule.limits.min)
  {
    var rule := RuleOf(s.nodes[node], ch.key[1].name);
    var other := if ch.key[2].name == "min" then "max" else "min";
    if Assoc.Get(rule.targets, other).None? {
      RuleJsonGet(rule, other);
    }
  }

  /**
    Any other third segment names a target of an existing rule. The value is
    written into the rule's object at `key[2..]`; the put goes through exactly
    when that write succeeds, the third segment resolves to a node, and the
    entry read back under it is present and not `null`. The resolved node then
    gets that entry's bounds; the rule's own bounds and every other target stay.
  */
  lemma PutRuleTarget(cfg: Config, s: Store, node: Path, ch: Change)
    requires node in s.nodes && |ch.key| >= 3 && ch.key[1].Field?
    requires ch.key[2] !in [Field("min"), Field("max")]
    requires Assoc.Get(s.nodes[node].pointerMeta, ch.key[1].name).Some?
    ensures var name := ch.key[1].name;
            var w := SetNested(RuleJson(RuleOf(s.nodes[node], name)), ch.key[2..], ch.value);
            var target := GetNode(cfg, s, node, Some(SegJson(ch.key[2])));
            var entry := if w.Success? && w.value.JObj? then Assoc.Get(w.value.fields, SegKey(ch.key[2])) else None;
            && (w.Success? ==> w.value.JObj?)
            && (PutPointerMeta(cfg, s, node, ch).Success? <==>
                  w.Success? && target.Success? && entry.Some? && !entry.value.JNull?)
            && (PutPointerMeta(cfg, s, node, ch).Success? ==>
                  var rule, rule' := RuleOf(s.nodes[node], name), RuleOf(PutPointerMeta(cfg, s, node, ch).value.nodes[node], name);
                  && rule'.limits == rule.limits
                  && Assoc.Get(rule'.targets, target.value) == Some(LimitsOf(entry.value).value)
                  && forall t :: t != target.value ==> Assoc.Get(rule'.targets, t) == Assoc.Get(rule.targets, t))
  {
  }

  /**
    A three-segment key `[pointer_meta, name, target]` on an existing rule
    goes through exactly when the target resolves and the value is not
    `null`; the resolved node's bounds become the value's `min` and `max`.
  */
  lemma PutTargetWhole(cfg: Config, s: Store, node: Path, ch: Change)
    requires node in s.nodes && |ch.key| == 3 && ch.key[1].Field?
    requires ch.key[2] !in [Field("min"), Field("max")]
    requires Assoc.Get(s.nodes[node].pointerMeta, ch.key[1].name).Some?
    ensures var target := GetNode(cfg, s, node, Some(SegJson(ch.key[2])));
            && (PutPointerMeta(cfg, s, node, ch).Success? <==> target.Success? && !ch.value.JNull?)
            && (PutPointerMeta(cfg, s, node, ch).Success? ==>
                  var rule' := RuleOf(PutPointerMeta(cfg, s, node, ch).value.nodes[node], ch.key[1].name);
                  Assoc.Get(rule'.targets, target.value) == Some(LimitsOf(ch.value).value))
  {
    PutRuleTarget(cfg, s, node, ch);
    assert ch.key[2..] == [ch.key[2]];
  }

  /**
    A four-segment key `[pointer_meta, name, target, min|max]` rewrites one
    bound of a target the rule already lists under that same path. It goes
    through exactly when the rule lists it and the path resolves; the
    resolved node gets the listed bounds with that one replaced by the value.
  */
  lemma PutTargetBound(cfg: Config, s: Store, node: Path, ch: Change)
    requires node in s.nodes && |ch.key| == 4 && ch.key[1].Field?
    requires ch.key[2] !in [Field("min"), Field("max")] && ch.key[3] in [Field("min"), Field("max")]
    requires Assoc.Get(s.nodes[node].pointerMeta, ch.key[1].name).Some?
    ensures var listed := Assoc.Get(RuleOf(s.nodes[node], ch.key[1].name).targets, SegKey(ch.key[2]));
            var target := GetNode(cfg, s, node, Some(SegJson(ch.key[2])));
            && (PutPointerMeta(cfg, s, node, ch).Success? <==> listed.Some? && target.Success?)
            && (PutPointerMeta(cfg, s, node, ch).Success? ==>
                  var rule' := RuleOf(PutPointerMeta(cfg, s, node, ch).value.nodes[node], ch.key[1].name);
                  Assoc.Get(rule'.targets, target.value) ==
                    Some(if ch.key[3].name == "min" then listed.value.(min := Some(ch.value))
                         else listed.value.(max := Some(ch.value))))
  {
    SetTargetBoundJson(RuleOf(s.nodes[node], ch.key[1].name), ch.key[2], ch.key[3], ch.value);
    PutRuleTarget(cfg, s, node, ch);
    assert ch.key[2..] == [ch.key[2], ch.key[3]];
  }

  /**
    Writing `v` at `[target, min|max]` into the object `getPointerMeta`
    reports: it works exactly when the rule lists that target, and the
    target's entry then reads back as its bounds with that one replaced.
  */
  lemma SetTargetBoundJson(rule: PointerRule, p: Seg, b: Seg, v: Json)
    requires p !in [Field("min"), Field("max")] && b in [Field("min"), Field("max")]
    ensures var listed := Assoc.Get(rule.targets, SegKey(p));
            var w := SetNested(RuleJson(rule), [p, b], v);
            && (w.Success? <==> listed.Some?)
            && (w.Success? ==>
                  && w.value.JObj? && Assoc.Get(w.value.fields, SegKey(p)).Some?
                  && LimitsOf(Assoc.Get(w.value.fields, SegKey(p)).value)
                     == Success(if b.name == "min" then listed.value.(min := Some(v)) else listed.value.(max := Some(v))))
  {
    NotBoundKey(p);
    RuleJsonGet(rule, SegKey(p));
    var listed := Assoc.Get(rule.targets, SegKey(p));
    assert [p, b][1..] == [b];
    if listed.Some? {
      var updated := Assign(LimitsJson(listed.value), b, v).value;
      BoundAssigned(listed.value, b, v);
      assert SetNested(RuleJson(rule), [p, b], v) == Assign(RuleJson(rule), p, updated);
    }
  }

  /** A segment other than `min` and `max` does not name a bound, an index segment included. */
  lemma NotBoundKey(p: Seg)
    requires p !in [Field("min"), Field("max")]
    ensures SegKey(p) !in ["min", "max"]
  {
    if p.Index? {
      IndexNameOfNat(p.i);
      assert IndexName("min") == None && IndexName("max") == None;
    }
  }

  /** Assigning one bound in a target's `{min, max}` object replaces just that bound. */
  lemma BoundAssigned(l: Limits, b: Seg, v: Json)
    requires b in [Field("min"), Field("max")]
    ensures LimitsOf(Assign(LimitsJson(l), b, v).value)
         == Success(if b.name == "min" then l.(min := Some(v)) else l.(max := Some(v)))
  {
  }

  /** In stores that resolve alike, every entry resolves alike. */
  lemma TargetsFrame(cfg: Config, s: Store, s': Store, node: Path, targets: Assoc.Assoc<Json>)
    requires SameResolution(cfg, s, s')
    ensures forall i :: 0 <= i < |targets| ==>
              && Resolve(cfg, s', node, targets[i].0) == Resolve(cfg, s, node, targets[i].0)
              && TargetBound(cfg, s', node, targets[i]) == TargetBound(cfg, s, node, targets[i])
  {
    forall i | 0 <= i < |targets|
      ensures Resolve(cfg, s', node, targets[i].0) == Resolve(cfg, s, node, targets[i].0)
    {
      ResolutionFrame(cfg, s, s', node, Some(JStr(targets[i].0)));
    }
  }

  /** The entries of a whole pointer rule other than `min` and `max`. */
  function RuleTargets(value: Json): Assoc.Assoc<Json>
  {
    Assoc.Without(OwnEntries(value), ["min", "max"])
  }

  /**
    The target entries of a whole rule, once its bounds are set: every entry
    is resolved first, then the bounds are written.
  */
  function SetTargets(cfg: Config, s: Store, node: Path, name: string, targets: Assoc.Assoc<Json>)
    : (r: Result<Store, Error>)
    requires node in s.nodes && Assoc.Get(s.nodes[node].pointerMeta, name).Some?
    ensures r.Success? <==> forall i :: 0 <= i < |targets| ==> TargetBound(cfg, s, node, targets[i]).Success?
    ensures r.Success? ==>
              && Keeps(s, r.value, node)
              && var m, m' := s.nodes[node], r.value.nodes[node];
              && Touches(m, m', PointerMeta, false)
              && Assoc.Get(m'.pointerMeta, name).Some?
              && RuleOf(m', name).limits == RuleOf(m, name).limits
              && forall k :: k != name ==> Assoc.Get(m'.pointerMeta, k) == Assoc.Get(m.pointerMeta, k)
  {
    var bs :- ResolveAll(cfg, s, node, targets, |targets|);
    Success(ApplyBounds(s, node, name, bs, |bs|))
  }

  /**
    After `SetTargets`, each node an entry resolves to has the bounds of the
    first entry resolving to it, judged in any store that resolves alike.
  */
  lemma SetTargetsFirst(cfg: Config, s0: Store, s: Store, node: Path, name: string, targets: Assoc.Assoc<Json>, i: nat)
    requires node in s.nodes && Assoc.Get(s.nodes[node].pointerMeta, name).Some?
    requires SameResolution(cfg, s0, s)
    requires SetTargets(cfg, s, node, name, targets).Success?
    requires i < |targets| && FirstTarget(cfg, s0, node, targets, i)
    ensures TargetBound(cfg, s0, node, targets[i]).Success?
    ensures var b := TargetBound(cfg, s0, node, targets[i]).value;
            Assoc.Get(RuleOf(SetTargets(cfg, s, node, name, targets).value.nodes[node], name).targets, b.0) == Some(b.1)
  {
    TargetsFrame(cfg, s0, s, node, targets);
    var bs := ResolveAll(cfg, s, node, targets, |targets|).value;
    var t := bs[i].0;
    FirstBoundSpec(bs, |bs|, t);
    PutAllGet(RuleOf(s.nodes[node], name).targets, bs, |bs|, t);
  }

  /** After `SetTargets`, a node no entry resolves to keeps its bounds. */
  lemma SetTargetsOthers(cfg: Config, s0: Store, s: Store, node: Path, name: string, targets: Assoc.Assoc<Json>, t: Path)
    requires node in s.nodes && Assoc.Get(s.nodes[node].pointerMeta, name).Some?
    requires SameResolution(cfg, s0, s)
    requires SetTargets(cfg, s, node, name, targets).Success?
    requires forall i :: 0 <= i < |targets| ==> Resolve(cfg, s0, node, targets[i].0) != Success(t)
    ensures Assoc.Get(RuleOf(SetTargets(cfg, s, node, name, targets).value.nodes[node], name).targets, t)
         == Assoc.Get(RuleOf(s.nodes[node], name).targets, t)
  {
    TargetsFrame(cfg, s0, s, node, targets);
    var bs := ResolveAll(cfg, s, node, targets, |targets|).value;
    FirstBoundSpec(bs, |bs|, t);
    PutAllGet(RuleOf(s.nodes[node], name).targets, bs, |bs|, t);
  }

  /**
    A whole rule (a two-segment key) sets the rule's own bounds and then hands
    the remaining entries to `SetTargets`, in a store that resolves every
    reference as before.
  */
  lemma WholeRuleUnfold(cfg: Config, s: Store, node: Path, ch: Change) returns (s1: Store)
    requires node in s.nodes && |ch.key| == 2 && ch.key[1].Field? && !ch.value.JNull?
    ensures node in s1.nodes && Assoc.Get(s1.nodes[node].pointerMeta, ch.key[1].name).Some?
    ensures SameResolution(cfg, s, s1)
    ensures RuleOf(s1.nodes[node], ch.key[1].name)
         == PointerRule(LimitsOf(ch.value).value, RuleOf(s.nodes[node], ch.key[1].name).targets)
    ensures PutPointerMeta(cfg, s, node, ch).Success?
        <==> SetTargets(cfg, s1, node, ch.key[1].name, RuleTargets(ch.value)).Success?
    ensures PutPointerMeta(cfg, s, node, ch).Success? ==>
              PutPointerMeta(cfg, s, node, ch) == SetTargets(cfg, s1, node, ch.key[1].name, RuleTargets(ch.value))
  {
    var bounds := LimitsOf(ch.value).value;
    s1 := SetPointerMetaLimits(s, node, At(ch.key, 1), bounds.min, bounds.max).value;
    PointerMetaKeepsResolution(cfg, s, s1, node);
  }

  /**
    A whole rule is accepted exactly when every target entry resolves and has
    bounds.
  */
  lemma PutWholeRuleAccepted(cfg: Config, s: Store, node: Path, ch: Change)
    requires node in s.nodes && |ch.key| == 2 && ch.key[1].Field? && !ch.value.JNull?
    ensures var targets := RuleTargets(ch.value);
            PutPointerMeta(cfg, s, node, ch).Success? <==>
              forall i :: 0 <= i < |targets| ==> TargetBound(cfg, s, node, targets[i]).Success?
  {
    var s1 := WholeRuleUnfold(cfg, s, node, ch);
    TargetsFrame(cfg, s, s1, node, RuleTargets(ch.value));
  }

  /**
    An accepted whole rule: the rule's bounds are the value's `min` and `max`;
    every node an entry resolves to gets the bounds of the first entry
    resolving to it; every other target keeps its bounds.
  */
  lemma PutWholeRule(cfg: Config, s: Store, node: Path, ch: Change)
    requires node in s.nodes && |ch.key| == 2 && ch.key[1].Field? && !ch.value.JNull?
    requires PutPointerMeta(cfg, s, node, ch).Success?
    ensures var targets, name := RuleTargets(ch.value), ch.key[1].name;
            var rule, rule' := RuleOf(s.nodes[node], name), RuleOf(PutPointerMeta(cfg, s, node, ch).value.nodes[node], name);
            && rule'.limits == LimitsOf(ch.value).value
            && (forall i :: 0 <= i < |targets| && FirstTarget(cfg, s, node, targets, i) ==>
                  TargetBound(cfg, s, node, targets[i]).Success? &&
                  var b := TargetBound(cfg, s, node, targets[i]).value;
                  Assoc.Get(rule'.targets, b.0) == Some(b.1))
            && forall t :: (forall i :: 0 <= i < |targets| ==> Resolve(cfg, s, node, targets[i].0) != Success(t)) ==>
                  Assoc.Get(rule'.targets, t) == Assoc.Get(rule.targets, t)
  {
    var name, targets := ch.key[1].name, RuleTargets(ch.value);
    var s1 := WholeRuleUnfold(cfg, s, node, ch);
    forall i | 0 <= i < |targets| && FirstTarget(cfg, s, node, targets, i)
      ensures TargetBound(cfg, s, node, targets[i]).Success?
      ensures Assoc.Get(RuleOf(SetTargets(cfg, s1, node, name, targets).value.nodes[node], name).targets,
                        TargetBound(cfg, s, node, targets[i]).value.0) == Some(TargetBound(cfg, s, node, targets[i]).value.1)
    {
      SetTargetsFirst(cfg, s, s1, node, name, targets, i);
    }
    forall t | forall i :: 0 <= i < |targets| ==> Resolve(cfg, s, node, targets[i].0) != Success(t)
      ensures Assoc.Get(RuleOf(SetTargets(cfg, s1, node, name, targets).value.nodes[node], name).targets, t)
           == Assoc.Get(RuleOf(s1.nodes[node], name).targets, t)
    {
      SetTargetsOthers(cfg, s, s1, node, name, targets, t);
    }
  }

  /**
    `_delete.pointer_meta`: without a third segment the whole rule goes;
    with one, the bounds of that target (the segment as it is) go and the
    rule's own bounds stay.
  */
  function DelPointerMetaKey(s: Store, node: Path, ch: Change): (r: Result<Store, Error>)
    requires node in s.nodes
    ensures r.Success? ==>
              && |ch.key| >= 2 && ch.key[1].Field?
              && Keeps(s, r.value, node)
              && var m, m' := s.nodes[node], r.value.nodes[node];
              && Touches(m, m', PointerMeta, true)
              && forall k :: k != ch.key[1].name ==> Assoc.Get(m'.pointerMeta, k) == Assoc.Get(m.pointerMeta, k)
    ensures |ch.key| <= 2 ==> (r.Success? <==> |ch.key| == 2 && ch.key[1].Field?)
    ensures |ch.key| <= 2 && r.Success? ==> Assoc.Get(r.value.nodes[node].pointerMeta, ch.key[1].name) == None
    ensures |ch.key| > 2 ==> (r.Success? <==> ch.key[1].Field? && ch.key[2].Field?)
    ensures |ch.key| > 2 && r.Success? ==>
              var before, after := Assoc.Get(s.nodes[node].pointerMeta, ch.key[1].name),
                                   Assoc.Get(r.value.nodes[node].pointerMeta, ch.key[1].name);
              && (before.None? ==> after.None?)
              && (before.Some? ==>
                    && after.Some? && after.value.limits == before.value.limits
                    && Assoc.Get(after.value.targets, ch.key[2].name) == None
                    && forall p :: p != ch.key[2].name ==> Assoc.Get(after.value.targets, p) == Assoc.Get(before.value.targets, p))
  {
    var target := At(ch.key, 2);
    var s' :-
      if target.None? then DelPointerMeta(s, node, At(ch.key, 1))
      else DelPointerMetaTarget(s, node, At(ch.key, 1), target);
    OwnedKept(s.nodes[node], s'.nodes[node]);
    Success(s')
  }
}
