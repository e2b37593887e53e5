/**
  An abstract, in-memory stand-in for the graph-model core the importer drives
  (`this.core`). Nodes are addressed by their path; each holds its own
  attributes, attribute meta, registry, pointers, pointer meta, sets, and the
  data owned by each (set, member) pair. Every table keeps insertion order,
  which is the order the core reports names in.

  Argument checks of the core are modelled as `StoreRejected`: a name or path
  argument that is missing or not a string, an operation on a node that is not
  in the store, and member data addressed through a node that is not a member
  of the set.
*/
module Store {
  import opened Wrappers
  import opened Errors
  import opened Json
  import Assoc
  import Seqs

  type Path = string

  /** `{min, max}` bounds; either may be left unset. */
  datatype Limits = Limits(min: Option<Json>, max: Option<Json>)

  /** A pointer's meta rule: overall bounds, then bounds per allowed target path. */
  datatype PointerRule = PointerRule(limits: Limits, targets: Assoc.Assoc<Limits>)

  /** The three JSON-valued, name-indexed tables of a node. */
  datatype Table = AttrTable | MetaTable | RegTable

  /** The two tables owned by a (set, member) pair. */
  datatype MemberTable = MemberAttrTable | MemberRegTable

  datatype NodeData = NodeData(
    guid: string,
    parent: Option<Path>,
    base: Option<Path>,
    children: seq<Path>,
    attributes: Assoc.Assoc<Json>,
    attributeMeta: Assoc.Assoc<Json>,
    registry: Assoc.Assoc<Json>,
    pointers: Assoc.Assoc<Path>,
    pointerMeta: Assoc.Assoc<PointerRule>,
    sets: Assoc.Assoc<seq<Path>>,
    memberAttributes: map<(string, Path), Assoc.Assoc<Json>>,
    memberRegistry: map<(string, Path), Assoc.Assoc<Json>>)

  /** All nodes by path, and the counter new relative ids are drawn from. */
  datatype Store = Store(nodes: map<Path, NodeData>, nextId: nat)

  /** The root's set whose members are the meta nodes. */
  const MetaSetName: string := "MetaAspectSet"

  // ---------------------------------------------------------------- framing

  /** Identity, parentage, base and child list: what only creation and deletion change. */
  predicate SameStructure(a: NodeData, b: NodeData)
  {
    a.guid == b.guid && a.parent == b.parent && a.base == b.base && a.children == b.children
  }

  /** `s2` differs from `s1` at most in the fields of node `p` that handlers may edit. */
  predicate EditsOnly(s1: Store, s2: Store, p: Path)
  {
    && p in s1.nodes
    && s2.nodes.Keys == s1.nodes.Keys
    && s2.nextId == s1.nextId
    && (forall q :: q in s1.nodes && q != p ==> s2.nodes[q] == s1.nodes[q])
    && SameStructure(s1.nodes[p], s2.nodes[p])
  }

  lemma EditsOnlyTrans(s1: Store, s2: Store, s3: Store, p: Path)
    requires EditsOnly(s1, s2, p) && EditsOnly(s2, s3, p)
    ensures EditsOnly(s1, s3, p)
  {
  }

  /** Every path of `kids` is longer than `p`. */
  predicate Longer(p: Path, kids: seq<Path>)
  {
    forall i :: 0 <= i < |kids| ==> |p| < |kids[i]|
  }

  /** Every listed child path is longer than its parent's path. */
  predicate TreeShaped(s: Store)
  {
    forall p :: p in s.nodes ==> Longer(p, s.nodes[p].children)
  }

  /** Edits confined to one node keep the store tree-shaped. */
  lemma EditsKeepTree(s1: Store, s2: Store, p: Path)
    requires EditsOnly(s1, s2, p)
    requires TreeShaped(s1)
    ensures TreeShaped(s2)
  {
    forall q, c | q in s2.nodes && c in s2.nodes[q].children
      ensures |q| < |c|
    {
      assert s2.nodes[q].children == s1.nodes[q].children;
    }
  }

  /** The store's check on a name or path argument. */
  function NameArg(seg: Option<Seg>): (r: Result<string, Error>)
    ensures r.Success? <==> seg.Some? && seg.value.Field?
    ensures r.Success? ==> r.value == seg.value.name
    ensures r.Failure? ==> r.error == StoreRejected
  {
    if seg.Some? && seg.value.Field? then Success(seg.value.name) else Failure(StoreRejected)
  }

  function NodeAt(s: Store, p: Path): (r: Result<NodeData, Error>)
    ensures r.Success? <==> p in s.nodes
    ensures r.Success? ==> r.value == s.nodes[p]
    ensures r.Failure? ==> r.error == StoreRejected
  {
    if p in s.nodes then Success(s.nodes[p]) else Failure(StoreRejected)
  }

  /** Replace the data of an existing node. */
  function Update(s: Store, p: Path, n: NodeData): (r: Store)
    requires p in s.nodes
    requires SameStructure(s.nodes[p], n)
    ensures EditsOnly(s, r, p)
    ensures r.nodes[p] == n
  {
    s.(nodes := s.nodes[p := n])
  }

  // ------------------------------------------------ attributes, meta, registry

  function TableOf(n: NodeData, t: Table): Assoc.Assoc<Json>
  {
    match t
    case AttrTable => n.attributes
    case MetaTable => n.attributeMeta
    case RegTable => n.registry
  }

  function WithTable(n: NodeData, t: Table, a: Assoc.Assoc<Json>): (r: NodeData)
    ensures TableOf(r, t) == a
    ensures SameStructure(n, r)
  {
    match t
    case AttrTable => n.(attributes := a)
    case MetaTable => n.(attributeMeta := a)
    case RegTable => n.(registry := a)
  }

  /** `getAttribute` / `getAttributeMeta` / `getRegistry`: `None` is `undefined`. */
  function GetEntry(s: Store, p: Path, t: Table, name: Option<Seg>): (r: Result<Option<Json>, Error>)
    ensures r.Success? <==> p in s.nodes && name.Some? && name.value.Field?
    ensures r.Success? ==> r.value == Assoc.Get(TableOf(s.nodes[p], t), name.value.name)
    ensures r.Failure? ==> r.error == StoreRejected
  {
    var n :- NodeAt(s, p);
    var k :- NameArg(name);
    Success(Assoc.Get(TableOf(n, t), k))
  }

  /** `setAttribute` / `setAttributeMeta` / `setRegistry`. */
  function SetEntry(s: Store, p: Path, t: Table, name: Option<Seg>, v: Json): (r: Result<Store, Error>)
    ensures r.Success? <==> p in s.nodes && name.Some? && name.value.Field?
    ensures r.Failure? ==> r.error == StoreRejected
    ensures r.Success? ==>
              && EditsOnly(s, r.value, p)
              && var n, n' := s.nodes[p], r.value.nodes[p];
              && n' == WithTable(n, t, TableOf(n', t))
              && Assoc.Get(TableOf(n', t), name.value.name) == Some(v)
              && forall k :: k != name.value.name ==> Assoc.Get(TableOf(n', t), k) == Assoc.Get(TableOf(n, t), k)
  {
    var n :- NodeAt(s, p);
    var k :- NameArg(name);
    Success(Update(s, p, WithTable(n, t, Assoc.Put(TableOf(n, t), k, v))))
  }

  /** `delAttribute` / `delAttributeMeta` / `delRegistry`; deleting an absent name changes nothing. */
  function DelEntry(s: Store, p: Path, t: Table, name: Option<Seg>): (r: Result<Store, Error>)
    ensures r.Success? <==> p in s.nodes && name.Some? && name.value.Field?
    ensures r.Failure? ==> r.error == StoreRejected
    ensures r.Success? ==>
              && EditsOnly(s, r.value, p)
              && var n, n' := s.nodes[p], r.value.nodes[p];
              && n' == WithTable(n, t, TableOf(n', t))
              && Assoc.Get(TableOf(n', t), name.value.name) == None
              && forall k :: k != name.value.name ==> Assoc.Get(TableOf(n', t), k) == Assoc.Get(TableOf(n, t), k)
  {
    var n :- NodeAt(s, p);
    var k :- NameArg(name);
    Success(Update(s, p, WithTable(n, t, Assoc.Remove(TableOf(n, t), k))))
  }

  /** A node's own attribute, as `getAttribute` reports it; `None` for an absent node too. */
  function Attribute(s: Store, p: Path, name: string): Option<Json>
  {
    if p in s.nodes then Assoc.Get(s.nodes[p].attributes, name) else None
  }

  // --------------------------------------------------------------- pointers

  /** `setPointer`: the pointer now targets `target`. */
  function SetPointer(s: Store, p: Path, name: Option<Seg>, target: Path): (r: Result<Store, Error>)
    ensures r.Success? <==> p in s.nodes && name.Some? && name.value.Field?
    ensures r.Failure? ==> r.error == StoreRejected
    ensures r.Success? ==>
              && EditsOnly(s, r.value, p)
              && var n, n' := s.nodes[p], r.value.nodes[p];
              && n' == n.(pointers := n'.pointers)
              && Assoc.Get(n'.pointers, name.value.name) == Some(target)
              && forall k :: k != name.value.name ==> Assoc.Get(n'.pointers, k) == Assoc.Get(n.pointers, k)
  {
    var n :- NodeAt(s, p);
    var k :- NameArg(name);
    Success(Update(s, p, n.(pointers := Assoc.Put(n.pointers, k, target))))
  }

  /** `delPointer`. */
  function DelPointer(s: Store, p: Path, name: Option<Seg>): (r: Result<Store, Error>)
    ensures r.Success? <==> p in s.nodes && name.Some? && name.value.Field?
    ensures r.Failure? ==> r.error == StoreRejected
    ensures r.Success? ==>
              && EditsOnly(s, r.value, p)
              && var n, n' := s.nodes[p], r.value.nodes[p];
              && n' == n.(pointers := n'.pointers)
              && Assoc.Get(n'.pointers, name.value.name) == None
              && forall k :: k != name.value.name ==> Assoc.Get(n'.pointers, k) == Assoc.Get(n.pointers, k)
  {
    var n :- NodeAt(s, p);
    var k :- NameArg(name);
    Success(Update(s, p, n.(pointers := Assoc.Remove(n.pointers, k))))
  }

  // ----------------------------------------------------------- pointer meta

  /** The `min` and `max` entries that are set, in that order. */
  function LimitFields(l: Limits): (r: Assoc.Assoc<Json>)
    ensures Assoc.Get(r, "min") == l.min
    ensures Assoc.Get(r, "max") == l.max
    ensures forall i :: 0 <= i < |r| ==> r[i].0 == "min" || r[i].0 == "max"
  {
    var lo: Assoc.Assoc<Json> := if l.min.Some? then [("min", l.min.value)] else [];
    var hi: Assoc.Assoc<Json> := if l.max.Some? then [("max", l.max.value)] else [];
    Assoc.GetAppend(lo, hi, "min");
    Assoc.GetAppend(lo, hi, "max");
    lo + hi
  }

  function LimitsJson(l: Limits): Json
  {
    JObj(LimitFields(l))
  }

  /** What `getPointerMeta` returns: `{min, max, <target path>: {min, max}, ...}`. */
  function RuleJson(rule: PointerRule): Json
  {
    JObj(LimitFields(rule.limits) + TargetsJson(rule.targets))
  }

  function TargetsJson(targets: Assoc.Assoc<Limits>): Assoc.Assoc<Json>
  {
    if |targets| == 0 then [] else [(targets[0].0, LimitsJson(targets[0].1))] + TargetsJson(targets[1..])
  }

  /** Each target of a rule is reported under its own path with its bounds. */
  lemma {:induction false} TargetsJsonGet(targets: Assoc.Assoc<Limits>, k: string)
    ensures Assoc.Get(TargetsJson(targets), k) ==
            if Assoc.Get(targets, k).Some? then Some(LimitsJson(Assoc.Get(targets, k).value)) else None
  {
    if |targets| > 0 {
      TargetsJsonGet(targets[1..], k);
      Assoc.GetTail(targets, k);
      Assoc.GetCons((targets[0].0, LimitsJson(targets[0].1)), TargetsJson(targets[1..]), k);
    } else {
      Assoc.GetNone(targets, k);
      Assoc.GetNone(TargetsJson(targets), k);
    }
  }

  /**
    What `getPointerMeta` reports under a key: the bound for `min` and `max`,
    the target's bounds for a target path that is not itself `min` or `max`.
  */
  lemma RuleJsonGet(rule: PointerRule, k: string)
    requires k !in ["min", "max"] || Assoc.Get(rule.targets, k).None?
    ensures k == "min" ==> Assoc.Get(RuleJson(rule).fields, k) == rule.limits.min
    ensures k == "max" ==> Assoc.Get(RuleJson(rule).fields, k) == rule.limits.max
    ensures k !in ["min", "max"] ==>
              Assoc.Get(RuleJson(rule).fields, k) ==
              if Assoc.Get(rule.targets, k).Some? then Some(LimitsJson(Assoc.Get(rule.targets, k).value)) else None
  {
    Assoc.GetAppend(LimitFields(rule.limits), TargetsJson(rule.targets), k);
    TargetsJsonGet(rule.targets, k);
    if k !in ["min", "max"] {
      assert k !in Assoc.Keys(LimitFields(rule.limits));
    }
  }

  const NoRule := PointerRule(Limits(None, None), [])

  /** The rule of pointer `name`, an empty one when there is none. */
  function RuleOf(n: NodeData, name: string): PointerRule
  {
    var rule := Assoc.Get(n.pointerMeta, name);
    if rule.Some? then rule.value else NoRule
  }

  function GetPointerMeta(s: Store, p: Path, name: Option<Seg>): (r: Result<Option<Json>, Error>)
    ensures r.Success? <==> p in s.nodes && name.Some? && name.value.Field?
    ensures r.Failure? ==> r.error == StoreRejected
    ensures r.Success? ==>
              (r.value.Some? <==> Assoc.Get(s.nodes[p].pointerMeta, name.value.name).Some?)
    ensures r.Success? && r.value.Some? ==> r.value.value == RuleJson(RuleOf(s.nodes[p], name.value.name))
  {
    var n :- NodeAt(s, p);
    var k :- NameArg(name);
    var rule := Assoc.Get(n.pointerMeta, k);
    Success(if rule.Some? then Some(RuleJson(rule.value)) else None)
  }

  /** `setPointerMetaLimits`: creates the rule when absent, keeps its targets otherwise. */
  function SetPointerMetaLimits(s: Store, p: Path, name: Option<Seg>, min: Option<Json>, max: Option<Json>)
    : (r: Result<Store, Error>)
    ensures r.Success? <==> p in s.nodes && name.Some? && name.value.Field?
    ensures r.Failure? ==> r.error == StoreRejected
    ensures r.Success? ==>
              && EditsOnly(s, r.value, p)
              && var n, n' := s.nodes[p], r.value.nodes[p];
              && n' == n.(pointerMeta := n'.pointerMeta)
              && Assoc.Get(n'.pointerMeta, name.value.name).Some?
              && RuleOf(n', name.value.name) == PointerRule(Limits(min, max), RuleOf(n, name.value.name).targets)
              && forall k :: k != name.value.name ==> Assoc.Get(n'.pointerMeta, k) == Assoc.Get(n.pointerMeta, k)
  {
    var n :- NodeAt(s, p);
    var k :- NameArg(name);
    var rule := Assoc.Get(n.pointerMeta, k);
    var rule' := (if rule.Some? then rule.value else NoRule).(limits := Limits(min, max));
    Success(Update(s, p, n.(pointerMeta := Assoc.Put(n.pointerMeta, k, rule'))))
  }

  /** `setPointerMetaTarget`: creates the rule when absent, sets one target's bounds. */
  function SetPointerMetaTarget(s: Store, p: Path, name: Option<Seg>, target: Path,
                                min: Option<Json>, max: Option<Json>): (r: Result<Store, Error>)
    ensures r.Success? <==> p in s.nodes && name.Some? && name.value.Field?
    ensures r.Failure? ==> r.error == StoreRejected
    ensures r.Success? ==>
              && EditsOnly(s, r.value, p)
              && var n, n' := s.nodes[p], r.value.nodes[p];
              && n' == n.(pointerMeta := n'.pointerMeta)
              && Assoc.Get(n'.pointerMeta, name.value.name).Some?
              && var rule, rule' := RuleOf(n, name.value.name), RuleOf(n', name.value.name);
              && rule'.limits == rule.limits
              && Assoc.Get(rule'.targets, target) == Some(Limits(min, max))
              && (forall t :: t != target ==> Assoc.Get(rule'.targets, t) == Assoc.Get(rule.targets, t))
              && forall k :: k != name.value.name ==> Assoc.Get(n'.pointerMeta, k) == Assoc.Get(n.pointerMeta, k)
  {
    var n :- NodeAt(s, p);
    var k :- NameArg(name);
    var rule := Assoc.Get(n.pointerMeta, k);
    var base := if rule.Some? then rule.value else NoRule;
    var rule' := base.(targets := Assoc.Put(base.targets, target, Limits(min, max)));
    Success(Update(s, p, n.(pointerMeta := Assoc.Put(n.pointerMeta, k, rule'))))
  }

  /** `delPointerMeta`: the whole rule goes. */
  function DelPointerMeta(s: Store, p: Path, name: Option<Seg>): (r: Result<Store, Error>)
    ensures r.Success? <==> p in s.nodes && name.Some? && name.value.Field?
    ensures r.Failure? ==> r.error == StoreRejected
    ensures r.Success? ==>
              && EditsOnly(s, r.value, p)
              && var n, n' := s.nodes[p], r.value.nodes[p];
              && n' == n.(pointerMeta := n'.pointerMeta)
              && Assoc.Get(n'.pointerMeta, name.value.name) == None
              && forall k :: k != name.value.name ==> Assoc.Get(n'.pointerMeta, k) == Assoc.Get(n.pointerMeta, k)
  {
    var n :- NodeAt(s, p);
    var k :- NameArg(name);
    Success(Update(s, p, n.(pointerMeta := Assoc.Remove(n.pointerMeta, k))))
  }

  /** `delPointerMetaTarget`: only the named target's bounds go; an absent rule is left absent. */
  function DelPointerMetaTarget(s: Store, p: Path, name: Option<Seg>, target: Option<Seg>)
    : (r: Result<Store, Error>)
    ensures r.Success? <==> p in s.nodes && name.Some? && name.value.Field? && target.Some? && target.value.Field?
    ensures r.Failure? ==> r.error == StoreRejected
    ensures r.Success? ==>
              && EditsOnly(s, r.value, p)
              && var n, n' := s.nodes[p], r.value.nodes[p];
              && n' == n.(pointerMeta := n'.pointerMeta)
              && var before, after := Assoc.Get(n.pointerMeta, name.value.name), Assoc.Get(n'.pointerMeta, name.value.name);
              && (before.None? ==> after.None?)
              && (before.Some? ==>
                    && after.Some?
                    && after.value.limits == before.value.limits
                    && Assoc.Get(after.value.targets, target.value.name) == None
                    && forall t :: t != target.value.name ==>
                         Assoc.Get(after.value.targets, t) == Assoc.Get(before.value.targets, t))
              && forall k :: k != name.value.name ==> Assoc.Get(n'.pointerMeta, k) == Assoc.Get(n.pointerMeta, k)
  {
    var n :- NodeAt(s, p);
    var k :- NameArg(name);
    var t :- NameArg(target);
    var rule := Assoc.Get(n.pointerMeta, k);
    if rule.None? then Success(Update(s, p, n))
    else
      var rule' := rule.value.(targets := Assoc.Remove(rule.value.targets, t));
      Success(Update(s, p, n.(pointerMeta := Assoc.Put(n.pointerMeta, k, rule'))))
  }

  // ------------------------------------------------------------------- sets

  /** The members of a set; a set that does not exist has none. */
  function Members(n: NodeData, setName: string): seq<Path>
  {
    var ms := Assoc.Get(n.sets, setName);
    if ms.Some? then ms.value else []
  }

  predicate IsMember(n: NodeData, setName: string, member: Path)
  {
    member in Members(n, setName)
  }

  function MemberTableOf(n: NodeData, t: MemberTable): map<(string, Path), Assoc.Assoc<Json>>
  {
    match t
    case MemberAttrTable => n.memberAttributes
    case MemberRegTable => n.memberRegistry
  }

  function WithMemberTable(n: NodeData, t: MemberTable, m: map<(string, Path), Assoc.Assoc<Json>>): (r: NodeData)
    ensures MemberTableOf(r, t) == m
    ensures SameStructure(n, r)
  {
    match t
    case MemberAttrTable => n.(memberAttributes := m)
    case MemberRegTable => n.(memberRegistry := m)
  }

  /** The data a (set, member) pair owns in table `t`. */
  function MemberData(n: NodeData, t: MemberTable, setName: string, member: Path): Assoc.Assoc<Json>
  {
    var m := MemberTableOf(n, t);
    if (setName, member) in m then m[(setName, member)] else []
  }

  /** Every (set, member) pair but `k` owns the same data in `m'` as in `m`. */
  ghost predicate OtherPairsKept(m: map<(string, Path), Assoc.Assoc<Json>>, m': map<(string, Path), Assoc.Assoc<Json>>,
                           k: (string, Path))
  {
    forall j :: j != k ==> (j in m' <==> j in m) && (j in m ==> m'[j] == m[j])
  }

  /** Per-member data exists only for pairs whose member is currently in the set. */
  predicate MemberDataOwned(n: NodeData)
  {
    && (forall k :: k in n.memberAttributes ==> IsMember(n, k.0, k.1))
    && (forall k :: k in n.memberRegistry ==> IsMember(n, k.0, k.1))
  }

  /** Giving a current member's pair new data keeps the member data owned. */
  lemma OwnedAfterPairEdit(n: NodeData, t: MemberTable, key: (string, Path), d: Assoc.Assoc<Json>)
    requires IsMember(n, key.0, key.1)
    ensures MemberDataOwned(n) ==> MemberDataOwned(WithMemberTable(n, t, MemberTableOf(n, t)[key := d]))
  {
    var n' := WithMemberTable(n, t, MemberTableOf(n, t)[key := d]);
    assert n'.sets == n.sets;
  }

  /** Growing one set, with the member data untouched, keeps the member data owned. */
  lemma OwnedAfterSetGrowth(n: NodeData, k: string, ms: seq<Path>)
    requires Members(n, k) <= ms
    ensures MemberDataOwned(n) ==> MemberDataOwned(n.(sets := Assoc.Put(n.sets, k, ms)))
  {
    var n' := n.(sets := Assoc.Put(n.sets, k, ms));
    forall j
      ensures Members(n', j) == (if j == k then ms else Members(n, j))
    {
    }
  }

  /** Dropping a member together with the data its pair owned keeps the member data owned. */
  lemma OwnedAfterMemberDrop(n: NodeData, n': NodeData, k: string, m: Path)
    requires n'.memberAttributes == n.memberAttributes - {(k, m)}
    requires n'.memberRegistry == n.memberRegistry - {(k, m)}
    requires forall j :: j != k ==> Assoc.Get(n'.sets, j) == Assoc.Get(n.sets, j)
    requires forall x :: x in Members(n, k) && x != m ==> x in Members(n', k)
    ensures MemberDataOwned(n) ==> MemberDataOwned(n')
  {
    if MemberDataOwned(n) {
      forall j | j in n'.memberAttributes
        ensures IsMember(n', j.0, j.1)
      {
        assert IsMember(n, j.0, j.1);
        if j.0 != k {
          assert Members(n', j.0) == Members(n, j.0);
        }
      }
      forall j | j in n'.memberRegistry
        ensures IsMember(n', j.0, j.1)
      {
        assert IsMember(n, j.0, j.1);
        if j.0 != k {
          assert Members(n', j.0) == Members(n, j.0);
        }
      }
    }
  }

  /** `getMemberPaths`. */
  function MemberPaths(s: Store, p: Path, setName: Option<Seg>): (r: Result<seq<Path>, Error>)
    ensures r.Success? <==> p in s.nodes && setName.Some? && setName.value.Field?
    ensures r.Success? ==> r.value == Members(s.nodes[p], setName.value.name)
    ensures r.Failure? ==> r.error == StoreRejected
  {
    var n :- NodeAt(s, p);
    var k :- NameArg(setName);
    Success(Members(n, k))
  }

  /** `createSet`: an existing set keeps its members. */
  function CreateSet(s: Store, p: Path, setName: Option<Seg>): (r: Result<Store, Error>)
    ensures r.Success? <==> p in s.nodes && setName.Some? && setName.value.Field?
    ensures r.Failure? ==> r.error == StoreRejected
    ensures r.Success? ==>
              && EditsOnly(s, r.value, p)
              && var n, n' := s.nodes[p], r.value.nodes[p];
              && n' == n.(sets := n'.sets)
              && Assoc.Get(n'.sets, setName.value.name).Some?
              && Members(n', setName.value.name) == Members(n, setName.value.name)
              && (forall k :: k != setName.value.name ==> Assoc.Get(n'.sets, k) == Assoc.Get(n.sets, k))
              && (MemberDataOwned(n) ==> MemberDataOwned(n'))
  {
    var n :- NodeAt(s, p);
    var k :- NameArg(setName);
    if Assoc.Get(n.sets, k).Some? then Success(Update(s, p, n))
    else Success(Update(s, p, n.(sets := Assoc.Put(n.sets, k, []))))
  }

  /** `addMember`: appends a node that is not yet a member, creating the set when needed. */
  function AddMember(s: Store, p: Path, setName: Option<Seg>, member: Path): (r: Result<Store, Error>)
    ensures r.Success? <==> p in s.nodes && setName.Some? && setName.value.Field?
    ensures r.Failure? ==> r.error == StoreRejected
    ensures r.Success? ==>
              && EditsOnly(s, r.value, p)
              && var n, n' := s.nodes[p], r.value.nodes[p];
              && n' == n.(sets := n'.sets)
              && Assoc.Get(n'.sets, setName.value.name).Some?
              && Members(n', setName.value.name) ==
                 (if IsMember(n, setName.value.name, member) then Members(n, setName.value.name)
                  else Members(n, setName.value.name) + [member])
              && (forall k :: k != setName.value.name ==> Assoc.Get(n'.sets, k) == Assoc.Get(n.sets, k))
              && (MemberDataOwned(n) ==> MemberDataOwned(n'))
  {
    var n :- NodeAt(s, p);
    var k :- NameArg(setName);
    var ms := Members(n, k);
    var ms' := if member in ms then ms else ms + [member];
    OwnedAfterSetGrowth(n, k, ms');
    Success(Update(s, p, n.(sets := Assoc.Put(n.sets, k, ms'))))
  }

  /** Drop every entry of `m` that belongs to set `setName`. */
  function DropSet(m: map<(string, Path), Assoc.Assoc<Json>>, setName: string): (r: map<(string, Path), Assoc.Assoc<Json>>)
    ensures forall k :: k in r <==> k in m && k.0 != setName
    ensures forall k :: k in r ==> r[k] == m[k]
  {
    map k | k in m && k.0 != setName :: m[k]
  }

  /** `delSet`: the set and all data its members owned in it go. */
  function DelSet(s: Store, p: Path, setName: Option<Seg>): (r: Result<Store, Error>)
    ensures r.Success? <==> p in s.nodes && setName.Some? && setName.value.Field?
    ensures r.Failure? ==> r.error == StoreRejected
    ensures r.Success? ==>
              && EditsOnly(s, r.value, p)
              && var n, n' := s.nodes[p], r.value.nodes[p];
              && n' == n.(sets := n'.sets, memberAttributes := n'.memberAttributes, memberRegistry := n'.memberRegistry)
              && Assoc.Get(n'.sets, setName.value.name) == None
              && (forall k :: k != setName.value.name ==> Assoc.Get(n'.sets, k) == Assoc.Get(n.sets, k))
              && (forall m :: MemberData(n', MemberAttrTable, setName.value.name, m) == [])
              && (forall m :: MemberData(n', MemberRegTable, setName.value.name, m) == [])
              && (MemberDataOwned(n) ==> MemberDataOwned(n'))
  {
    var n :- NodeAt(s, p);
    var k :- NameArg(setName);
    Success(Update(s, p, n.(sets := Assoc.Remove(n.sets, k),
                            memberAttributes := DropSet(n.memberAttributes, k),
                            memberRegistry := DropSet(n.memberRegistry, k))))
  }

  /** `delMember`: the member leaves the set and the data the pair owned goes with it. */
  function DelMember(s: Store, p: Path, setName: Option<Seg>, member: Option<Path>): (r: Result<Store, Error>)
    ensures r.Success? <==> p in s.nodes && setName.Some? && setName.value.Field? && member.Some?
    ensures r.Failure? ==> r.error == StoreRejected
    ensures r.Success? ==>
              && EditsOnly(s, r.value, p)
              && var n, n' := s.nodes[p], r.value.nodes[p];
              && n' == n.(sets := n'.sets, memberAttributes := n'.memberAttributes, memberRegistry := n'.memberRegistry)
              && !IsMember(n', setName.value.name, member.value)
              && MemberData(n', MemberAttrTable, setName.value.name, member.value) == []
              && MemberData(n', MemberRegTable, setName.value.name, member.value) == []
              && (forall k :: k != setName.value.name ==> Assoc.Get(n'.sets, k) == Assoc.Get(n.sets, k))
              && (MemberDataOwned(n) ==> MemberDataOwned(n'))
  {
    var n :- NodeAt(s, p);
    var k :- NameArg(setName);
    var m :- if member.Some? then Success(member.value) else Failure(StoreRejected);
    var ms := Assoc.Get(n.sets, k);
    var sets' := if ms.Some? then Assoc.Put(n.sets, k, Seqs.RemoveAll(ms.value, m)) else n.sets;
    var n' := n.(sets := sets', memberAttributes := n.memberAttributes - {(k, m)},
                 memberRegistry := n.memberRegistry - {(k, m)});
    OwnedAfterMemberDrop(n, n', k, m);
    Success(Update(s, p, n'))
  }

  // ------------------------------------------------------------ member data

  /** `getMemberAttributeNames` / `getMemberRegistryNames`. */
  function MemberEntryNames(s: Store, p: Path, t: MemberTable, setName: Option<Seg>, member: Option<Seg>)
    : (r: Result<seq<string>, Error>)
    ensures r.Success? <==>
              && p in s.nodes && setName.Some? && setName.value.Field? && member.Some? && member.value.Field?
              && IsMember(s.nodes[p], setName.value.name, member.value.name)
    ensures r.Failure? ==> r.error == StoreRejected
    ensures r.Success? ==>
              r.value == Assoc.Keys(MemberData(s.nodes[p], t, setName.value.name, member.value.name))
  {
    var n :- NodeAt(s, p);
    var k :- NameArg(setName);
    var m :- NameArg(member);
    if !IsMember(n, k, m) then Failure(StoreRejected)
    else Success(Assoc.Keys(MemberData(n, t, k, m)))
  }

  /** `getMemberAttribute` / `getMemberRegistry`. */
  function GetMemberEntry(s: Store, p: Path, t: MemberTable, setName: Option<Seg>, member: Path, name: Option<Seg>)
    : (r: Result<Option<Json>, Error>)
    ensures r.Success? <==>
              && p in s.nodes && setName.Some? && setName.value.Field? && name.Some? && name.value.Field?
              && IsMember(s.nodes[p], setName.value.name, member)
    ensures r.Failure? ==> r.error == StoreRejected
    ensures r.Success? ==>
              r.value == Assoc.Get(MemberData(s.nodes[p], t, setName.value.name, member), name.value.name)
  {
    var n :- NodeAt(s, p);
    var k :- NameArg(setName);
    var a :- NameArg(name);
    if !IsMember(n, k, member) then Failure(StoreRejected)
    else Success(Assoc.Get(MemberData(n, t, k, member), a))
  }

  /** `setMemberAttribute` / `setMemberRegistry`: only for a current member. */
  function SetMemberEntry(s: Store, p: Path, t: MemberTable, setName: Option<Seg>, member: Path,
                          name: Option<Seg>, v: Json): (r: Result<Store, Error>)
    ensures r.Success? <==>
              && p in s.nodes && setName.Some? && setName.value.Field? && name.Some? && name.value.Field?
              && IsMember(s.nodes[p], setName.value.name, member)
    ensures r.Failure? ==> r.error == StoreRejected
    ensures r.Success? ==>
              && EditsOnly(s, r.value, p)
              && var n, n' := s.nodes[p], r.value.nodes[p];
              && n' == WithMemberTable(n, t, MemberTableOf(n', t))
              && var d, d' := MemberData(n, t, setName.value.name, member), MemberData(n', t, setName.value.name, member);
              && Assoc.Get(d', name.value.name) == Some(v)
              && (forall a :: a != name.value.name ==> Assoc.Get(d', a) == Assoc.Get(d, a))
              && OtherPairsKept(MemberTableOf(n, t), MemberTableOf(n', t), (setName.value.name, member))
              && (MemberDataOwned(n) ==> MemberDataOwned(n'))
  {
    var n :- NodeAt(s, p);
    var k :- NameArg(setName);
    var a :- NameArg(name);
    if !IsMember(n, k, member) then Failure(StoreRejected)
    else
      var m := MemberTableOf(n, t);
      OwnedAfterPairEdit(n, t, (k, member), Assoc.Put(MemberData(n, t, k, member), a, v));
      Success(Update(s, p, WithMemberTable(n, t, m[(k, member) := Assoc.Put(MemberData(n, t, k, member), a, v)])))
  }

  /** `delMemberAttribute` / `delMemberRegistry`: only for a current member. */
  function DelMemberEntry(s: Store, p: Path, t: MemberTable, setName: Option<Seg>, member: Option<Seg>, name: string)
    : (r: Result<Store, Error>)
    ensures r.Success? <==>
              && p in s.nodes && setName.Some? && setName.value.Field? && member.Some? && member.value.Field?
              && IsMember(s.nodes[p], setName.value.name, member.value.name)
    ensures r.Failure? ==> r.error == StoreRejected
    ensures r.Success? ==>
              && EditsOnly(s, r.value, p)
              && var n, n' := s.nodes[p], r.value.nodes[p];
              && n' == WithMemberTable(n, t, MemberTableOf(n', t))
              && var d, d' := MemberData(n, t, setName.value.name, member.value.name),
                              MemberData(n', t, setName.value.name, member.value.name);
              && Assoc.Get(d', name) == None
              && (forall a :: a != name ==> Assoc.Get(d', a) == Assoc.Get(d, a))
              && OtherPairsKept(MemberTableOf(n, t), MemberTableOf(n', t), (setName.value.name, member.value.name))
              && MemberTableOf(n', t) == MemberTableOf(n, t)[(setName.value.name, member.value.name) :=
                   Assoc.Remove(MemberData(n, t, setName.value.name, member.value.name), name)]
              && (MemberDataOwned(n) ==> MemberDataOwned(n'))
  {
    var n :- NodeAt(s, p);
    var k :- NameArg(setName);
    var m :- NameArg(member);
    if !IsMember(n, k, m) then Failure(StoreRejected)
    else
      var tbl := MemberTableOf(n, t);
      OwnedAfterPairEdit(n, t, (k, m), Assoc.Remove(MemberData(n, t, k, m), name));
      Success(Update(s, p, WithMemberTable(n, t, tbl[(k, m) := Assoc.Remove(MemberData(n, t, k, m), name)])))
  }

  // -------------------------------------------------------- tree structure

  /** `loadChildren`: the node's children that exist, in order. */
  function Children(s: Store, p: Path): (r: Result<seq<Path>, Error>)
    ensures r.Success? <==> p in s.nodes
    ensures r.Failure? ==> r.error == StoreRejected
    ensures r.Success? ==> forall i :: 0 <= i < |r.value| ==> r.value[i] in s.nodes && r.value[i] in s.nodes[p].children
    ensures r.Success? ==> forall c :: c in s.nodes[p].children && c in s.nodes ==> c in r.value
  {
    var n :- NodeAt(s, p);
    Success(Seqs.KeepIn(n.children, s.nodes.Keys))
  }

  /** `loadByPath`: the node at `path`, if there is one. */
  function LoadByPath(s: Store, path: string): (r: Option<Path>)
    ensures r.Some? <==> path in s.nodes
    ensures r.Some? ==> r.value == path
  {
    if path in s.nodes then Some(path) else None
  }

  /** `getAllMetaNodes`: the existing members of the root's meta set, in order. */
  function MetaNodes(s: Store, root: Path): (r: seq<Path>)
    ensures forall i :: 0 <= i < |r| ==> r[i] in s.nodes && root in s.nodes && IsMember(s.nodes[root], MetaSetName, r[i])
    ensures root in s.nodes ==>
              forall m :: IsMember(s.nodes[root], MetaSetName, m) && m in s.nodes ==> m in r
  {
    if root in s.nodes then Seqs.KeepIn(Members(s.nodes[root], MetaSetName), s.nodes.Keys) else []
  }

  function EmptyNode(guid: string, parent: Path, base: Option<Path>): NodeData
  {
    NodeData(guid, Some(parent), base, [], [], [], [], [], [], [], map[], map[])
  }

  /**
    `createNode({base, parent})`: a new, empty child of `parent` at the end of
    its child list. Relative ids and GUIDs are drawn from a counter; a
    collision with an existing path is refused.
  */
  function CreateChild(s: Store, parent: Path, base: Option<Path>): (r: Result<(Store, Path), Error>)
    ensures r.Success? <==> parent in s.nodes && parent + "/" + NatToString(s.nextId) !in s.nodes
    ensures r.Failure? ==> r.error == StoreRejected
    ensures r.Success? ==>
              && var (s', c) := r.value;
              && c !in s.nodes
              && |parent| < |c|
              && s'.nodes.Keys == s.nodes.Keys + {c}
              && s'.nodes[c] == EmptyNode(s'.nodes[c].guid, parent, base)
              && s'.nodes[parent] == s.nodes[parent].(children := s.nodes[parent].children + [c])
              && forall q :: q in s.nodes && q != parent ==> s'.nodes[q] == s.nodes[q]
  {
    var n :- NodeAt(s, parent);
    var c := parent + "/" + NatToString(s.nextId);
    if c in s.nodes then Failure(StoreRejected)
    else
      var nodes' := s.nodes[parent := n.(children := n.children + [c])];
      Success((Store(nodes'[c := EmptyNode(NatToString(s.nextId), parent, base)], s.nextId + 1), c))
  }

  /** A node other than the new one was there before, and only its list of children may have grown. */
  lemma CreateChildOthers(s: Store, parent: Path, base: Option<Path>, q: Path)
    requires CreateChild(s, parent, base).Success?
    requires var (s', c) := CreateChild(s, parent, base).value; q in s'.nodes && q != c
    ensures q in s.nodes
    ensures var s' := CreateChild(s, parent, base).value.0;
            s'.nodes[q] == s.nodes[q].(children := s'.nodes[q].children)
  {
  }

  /** `q` is `p` or lies below it. */
  predicate Under(q: Path, p: Path)
  {
    q == p || (|q| > |p| && q[..|p|] == p && q[|p|] == '/')
  }

  /** `deleteNode`: the node and everything below it go, and its parent forgets it. */
  function DeleteNode(s: Store, p: Path): (r: Store)
    ensures forall q :: q in r.nodes <==> q in s.nodes && !Under(q, p)
    ensures forall q :: q in r.nodes ==>
              && SameStructure(r.nodes[q], s.nodes[q].(children := r.nodes[q].children))
              && r.nodes[q] == s.nodes[q].(children := r.nodes[q].children)
              && forall c :: c in r.nodes[q].children ==> c in s.nodes[q].children
    ensures r.nextId == s.nextId
  {
    var kept := map q | q in s.nodes && !Under(q, p) :: s.nodes[q];
    var parent := if p in s.nodes then s.nodes[p].parent else None;
    if parent.Some? && parent.value in kept then
      var pn := kept[parent.value];
      Store(kept[parent.value := pn.(children := Seqs.RemoveAll(pn.children, p))], s.nextId)
    else
      Store(kept, s.nextId)
  }

  /** Creating and deleting nodes keep the store tree-shaped. */
  lemma CreateChildKeepsTree(s: Store, parent: Path, base: Option<Path>)
    requires TreeShaped(s)
    requires CreateChild(s, parent, base).Success?
    ensures TreeShaped(CreateChild(s, parent, base).value.0)
  {
    var (s', c) := CreateChild(s, parent, base).value;
    forall q | q in s'.nodes
      ensures Longer(q, s'.nodes[q].children)
    {
      if q == parent {
        LongerAppend(parent, s.nodes[parent].children, c);
      } else if q != c {
        assert s'.nodes[q] == s.nodes[q];
      }
    }
  }

  lemma LongerAppend(p: Path, kids: seq<Path>, c: Path)
    requires Longer(p, kids) && |p| < |c|
    ensures Longer(p, kids + [c])
  {
  }

  lemma DeleteNodeKeepsTree(s: Store, p: Path)
    requires TreeShaped(s)
    ensures TreeShaped(DeleteNode(s, p))
  {
    var r := DeleteNode(s, p);
    forall q, c | q in r.nodes && c in r.nodes[q].children
      ensures |q| < |c|
    {
      assert c in s.nodes[q].children;
    }
  }
}
