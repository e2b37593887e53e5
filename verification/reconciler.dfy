/**
  `createNode`, `apply` and `import` (JSONImporter.js:84-114, 155-171,
  191-194): reconciling a node with a target document. Each target child is
  resolved by its `id` or created, taken off the working list of the node's
  current children, and reconciled in turn; then the node's own fields are
  patched with the changes `compare` reports; finally every current child
  left on the working list is deleted, from the last to the first.
*/
module Reconciler {
  import opened Wrappers
  import opened Errors
  import opened Json
  import opened JsObjects
  import opened Changes
  import opened Store
  import opened References
  import opened Patch
  import opened Dispatch
  import opened Serializer
  import Assoc
  import Seqs

  // ------------------------------------------------------------ createNode

  /**
    `const [tag, value] = id ? id.split(':') : []`: `None` for a falsy id (no
    tag); a truthy id that is not a string has no `split`.
  */
  function IdParts(id: Option<Json>): (r: Result<Option<(string, Option<string>)>, Error>)
    ensures r.Failure? <==> id.Some? && Truthy(id.value) && !id.value.JStr?
    ensures r.Failure? ==> r.error == TypeError
    ensures r.Success? && r.value.Some? <==> id.Some? && id.value.JStr? && id.value.s != ""
    ensures r.Success? && r.value.Some? ==> r.value.value == (Tag(id.value.s), TagValue(id.value.s))
  {
    if id.None? || !Truthy(id.value) then Success(None)
    else if id.value.JStr? then Success(Some((Tag(id.value.s), TagValue(id.value.s))))
    else Failure(TypeError)
  }

  /** The path the store gives the next child it creates under `parent`. */
  function NextChild(s: Store, parent: Path): Path
  {
    parent + "/" + NatToString(s.nextId)
  }

  /** The tags `createNode` acts on. */
  predicate NamingTag(tag: string)
  {
    tag == "@name" || tag == "@meta"
  }

  /**
    What the tag rules may change: only `c`'s attributes and the sets, never
    which nodes exist or how they hang together.
  */
  predicate TagFrame(s: Store, s': Store, c: Path)
  {
    && s'.nodes.Keys == s.nodes.Keys && s'.nextId == s.nextId
    && forall q :: q in s.nodes ==>
         SameStructure(s.nodes[q], s'.nodes[q]) && (q == c || s'.nodes[q].attributes == s.nodes[q].attributes)
  }

  /** The meta set gained `c` and nothing else. */
  ghost predicate MetaGrown(n: NodeData, n': NodeData, c: Path)
  {
    && IsMember(n', MetaSetName, c)
    && forall m :: IsMember(n', MetaSetName, m) ==> m == c || IsMember(n, MetaSetName, m)
  }

  /**
    The tag rules of `createNode` applied to the new node `c`: `@name:v` names
    it `v`; `@meta:v` names it `v` and makes it a meta node. Other tags change
    nothing.
  */
  function ApplyTag(cfg: Config, s: Store, c: Path, parts: Option<(string, Option<string>)>): (r: Result<Store, Error>)
    requires c in s.nodes
    ensures parts.None? || !NamingTag(parts.value.0) ==> r == Success(s)
    ensures parts.Some? && NamingTag(parts.value.0) && parts.value.1.None? ==> r == Failure(StoreRejected)
    ensures r.Failure? ==> r.error == StoreRejected
    ensures r.Success? ==> TagFrame(s, r.value, c)
    ensures r.Success? && parts.Some? && NamingTag(parts.value.0) ==>
              && parts.value.1.Some?
              && Attribute(r.value, c, "name") == Some(JStr(parts.value.1.value))
    ensures r.Success? && parts.Some? && parts.value.0 == "@meta" ==>
              cfg.root in s.nodes && MetaGrown(s.nodes[cfg.root], r.value.nodes[cfg.root], c)
    ensures r.Success? && parts.Some? && parts.value.0 == "@name" ==>
              forall q :: q in s.nodes ==> r.value.nodes[q].sets == s.nodes[q].sets
  {
    if parts.None? || !NamingTag(parts.value.0) then Success(s)
    else if parts.value.1.None? then Failure(StoreRejected)
    else
      var s1 := NameNode(s, c, parts.value.1.value);
      if parts.value.0 == "@name" then Success(s1)
      else
        var r :- MakeMeta(cfg, s1, c);
        MetaFrame(s, s1, r, cfg.root, c);
        Success(r)
  }

  /** `setAttribute(node, 'name', v)` on the new node: it alone is renamed and no set changes. */
  function NameNode(s: Store, c: Path, v: string): (r: Store)
    requires c in s.nodes
    ensures TagFrame(s, r, c)
    ensures Attribute(r, c, "name") == Some(JStr(v))
    ensures forall q :: q in s.nodes ==> r.nodes[q].sets == s.nodes[q].sets
  {
    SetEntry(s, c, AttrTable, Some(Field("name")), JStr(v)).value
  }

  /** Making `c` a meta node after naming it keeps the frame of the tag rules. */
  lemma MetaFrame(s: Store, s1: Store, s2: Store, root: Path, c: Path)
    requires TagFrame(s, s1, c) && c in s.nodes
    requires forall q :: q in s.nodes ==> s1.nodes[q].sets == s.nodes[q].sets
    requires EditsOnly(s1, s2, root) && s2.nodes[root] == s1.nodes[root].(sets := s2.nodes[root].sets)
    requires MetaGrown(s1.nodes[root], s2.nodes[root], c)
    requires Attribute(s1, c, "name").Some?
    ensures TagFrame(s, s2, c) && Attribute(s2, c, "name") == Attribute(s1, c, "name")
    ensures root in s.nodes && MetaGrown(s.nodes[root], s2.nodes[root], c)
  {
    assert s.nodes[root].sets == s1.nodes[root].sets;
  }

  /**
    The `@meta` rule once the node is named: add it to the root's meta set,
    then insist that it is among the meta nodes. The insistence never fails:
    the only error is the store's, when there is no root.
  */
  function MakeMeta(cfg: Config, s: Store, c: Path): (r: Result<Store, Error>)
    requires c in s.nodes
    ensures r.Success? <==> cfg.root in s.nodes
    ensures r.Failure? ==> r.error == StoreRejected
    ensures r.Success? ==>
              && EditsOnly(s, r.value, cfg.root)
              && r.value.nodes[cfg.root] == s.nodes[cfg.root].(sets := r.value.nodes[cfg.root].sets)
              && MetaGrown(s.nodes[cfg.root], r.value.nodes[cfg.root], c)
  {
    var s2 :- AddMember(s, cfg.root, Some(Field(MetaSetName)), c);
    if c in MetaNodes(s2, cfg.root) then Success(s2) else Failure(ConsistencyViolation)
  }

  /**
    `createNode(parent, id)`: a new child of `parent` derived from the base
    node (none when the base path names no node), with the id's tag rules
    applied to it.
  */
  function CreateNode(cfg: Config, s: Store, parent: Path, id: Option<Json>): (r: Result<(Store, Path), Error>)
    ensures parent !in s.nodes ==> r == Failure(StoreRejected)
    ensures id.Some? && Truthy(id.value) && !id.value.JStr? && parent in s.nodes && NextChild(s, parent) !in s.nodes ==>
              r == Failure(TypeError)
    ensures r.Failure? ==> r.error == StoreRejected || r.error == TypeError
    ensures r.Success? ==>
              && var (s', c) := r.value;
              && c == NextChild(s, parent) && c !in s.nodes && c in s'.nodes
              && s'.nodes.Keys == s.nodes.Keys + {c}
              && s'.nodes[c].parent == Some(parent)
              && s'.nodes[c].base == LoadByPath(s, cfg.basePath)
              && s'.nodes[parent].children == s.nodes[parent].children + [c]
    ensures r.Success? && id.Some? && id.value.JStr? && id.value.s != "" && NamingTag(Tag(id.value.s)) ==>
              && TagValue(id.value.s).Some?
              && Attribute(r.value.0, r.value.1, "name") == Some(JStr(TagValue(id.value.s).value))
  {
    var created :- CreateChild(s, parent, LoadByPath(s, cfg.basePath));
    var parts :- IdParts(id);
    var s' :- ApplyTag(cfg, created.0, created.1, parts);
    Success((s', created.1))
  }

  /** Creating a node keeps the store tree-shaped. */
  lemma CreateNodeKeepsTree(cfg: Config, s: Store, parent: Path, id: Option<Json>)
    requires TreeShaped(s)
    ensures CreateNode(cfg, s, parent, id).Success? ==> TreeShaped(CreateNode(cfg, s, parent, id).value.0)
  {
    var created := CreateChild(s, parent, LoadByPath(s, cfg.basePath));
    var parts := IdParts(id);
    if created.Success? && parts.Success? {
      CreateChildKeepsTree(s, parent, LoadByPath(s, cfg.basePath));
      var r := ApplyTag(cfg, created.value.0, created.value.1, parts.value);
      if r.Success? {
        SameShapeKeepsTree(created.value.0, r.value);
      }
    }
  }

  /** A store with the same nodes and the same child lists is tree-shaped when the first one is. */
  lemma SameShapeKeepsTree(s: Store, s': Store)
    requires TreeShaped(s) && s'.nodes.Keys == s.nodes.Keys
    requires forall q :: q in s.nodes ==> SameStructure(s.nodes[q], s'.nodes[q])
    ensures TreeShaped(s')
  {
    forall q, d | q in s'.nodes && d in s'.nodes[q].children
      ensures |q| < |d|
    {
      assert SameStructure(s.nodes[q], s'.nodes[q]);
    }
  }

  /** Every node of `s` has the same attributes in `s'`. */
  predicate AttributesKept(s: Store, s': Store)
  {
    forall x :: x in s.nodes ==> x in s'.nodes && s'.nodes[x].attributes == s.nodes[x].attributes
  }

  /** The root's meta set in `s'` is the one in `s` (none when there was no root) with `c` added. */
  ghost predicate MetaAdded(s: Store, s': Store, root: Path, c: Path)
  {
    && root in s'.nodes
    && IsMember(s'.nodes[root], MetaSetName, c)
    && forall m :: IsMember(s'.nodes[root], MetaSetName, m) ==>
         m == c || (root in s.nodes && IsMember(s.nodes[root], MetaSetName, m))
  }

  /**
    A name search that found nothing among `before` finds `c` among `after`
    when `c` is the one match and every other candidate was searched before
    and kept its attributes.
  */
  lemma OnlyNewMatches(s: Store, s': Store, before: seq<Path>, after: seq<Path>, value: Option<string>, c: Path)
    requires AttributesKept(s, s')
    requires IsFirstNamed(s, before, value, None)
    requires forall y :: y in before ==> y in s.nodes
    requires c in after && NameMatches(s', c, value)
    requires forall y :: y in after && y != c ==> y in before
    ensures FirstNamed(s', after, value) == Some(c)
  {
    forall i | 0 <= i < |after| && after[i] != c
      ensures !NameMatches(s', after[i], value)
    {
      var y := after[i];
      assert y in after;
      assert y in before;
      var j :| 0 <= j < |before| && before[j] == y;
      assert !NameMatches(s, before[j], value);
    }
  }

  /** After a child `c` is appended, the children are the earlier ones and `c`. */
  lemma ChildrenAfterCreate(s: Store, s': Store, parent: Path, c: Path)
    requires parent in s.nodes && s'.nodes.Keys == s.nodes.Keys + {c}
    requires s'.nodes[parent].children == s.nodes[parent].children + [c]
    ensures c in Children(s', parent).value
    ensures forall y :: y in Children(s', parent).value && y != c ==> y in Children(s, parent).value
  {
    forall y | y in Children(s', parent).value && y != c
      ensures y in Children(s, parent).value
    {
      assert y in s.nodes[parent].children;
    }
  }

  /** After `c` joins the meta set, the meta nodes are the earlier ones and `c`. */
  lemma MetaNodesAfterAdd(s: Store, s': Store, root: Path, c: Path)
    requires MetaAdded(s, s', root, c) && s'.nodes.Keys == s.nodes.Keys + {c}
    ensures c in MetaNodes(s', root)
    ensures forall y :: y in MetaNodes(s', root) && y != c ==> y in MetaNodes(s, root)
  {
    forall y | y in MetaNodes(s', root) && y != c
      ensures y in MetaNodes(s, root)
    {
      assert IsMember(s'.nodes[root], MetaSetName, y);
    }
  }

  /** Only the new node gets a name: every node that was there keeps its attributes. */
  lemma CreateNodeKeepsAttributes(cfg: Config, s: Store, parent: Path, id: Option<Json>)
    requires CreateNode(cfg, s, parent, id).Success?
    ensures AttributesKept(s, CreateNode(cfg, s, parent, id).value.0)
  {
    var created := CreateChild(s, parent, LoadByPath(s, cfg.basePath)).value;
    var s' := ApplyTag(cfg, created.0, created.1, IdParts(id).value).value;
    assert CreateNode(cfg, s, parent, id).value.0 == s';
    assert TagFrame(created.0, s', created.1);
    forall x | x in s.nodes
      ensures x in created.0.nodes && created.0.nodes[x].attributes == s.nodes[x].attributes
    {
      CreateChildOthers(s, parent, LoadByPath(s, cfg.basePath), x);
    }
    KeptThroughTag(s, created.0, s', created.1);
  }

  /** Tagging the new node `c` leaves the attributes of the nodes that were there before. */
  lemma KeptThroughTag(s: Store, s1: Store, s': Store, c: Path)
    requires AttributesKept(s, s1) && c !in s.nodes && TagFrame(s1, s', c)
    ensures AttributesKept(s, s')
  {
  }

  /** An `@meta` id adds the new node, and only it, to the root's meta set. */
  lemma CreateNodeAddsMeta(cfg: Config, s: Store, parent: Path, id: Option<Json>)
    requires CreateNode(cfg, s, parent, id).Success?
    requires id.Some? && id.value.JStr? && id.value.s != "" && Tag(id.value.s) == "@meta"
    ensures MetaAdded(s, CreateNode(cfg, s, parent, id).value.0, cfg.root, CreateNode(cfg, s, parent, id).value.1)
  {
    var created := CreateChild(s, parent, LoadByPath(s, cfg.basePath)).value;
    var s1, c := created.0, created.1;
    var s' := ApplyTag(cfg, s1, c, IdParts(id).value).value;
    assert CreateNode(cfg, s, parent, id) == Success((s', c));
    assert MetaGrown(s1.nodes[cfg.root], s'.nodes[cfg.root], c);
    if cfg.root == c {
      assert Members(s1.nodes[c], MetaSetName) == [];
    } else {
      CreateChildOthers(s, parent, LoadByPath(s, cfg.basePath), cfg.root);
    }
    MetaAddedFrom(s, s1.nodes[cfg.root], s', cfg.root, c);
  }

  /** `MetaGrown` over the meta set the root had before the node was created. */
  lemma MetaAddedFrom(s: Store, n1: NodeData, s': Store, root: Path, c: Path)
    requires root in s'.nodes && MetaGrown(n1, s'.nodes[root], c)
    requires root == c ==> Members(n1, MetaSetName) == []
    requires root != c ==> root in s.nodes && n1.sets == s.nodes[root].sets
    ensures MetaAdded(s, s', root, c)
  {
  }

  /** The id's tag and value as `createNode` splits it, for a reference with a tag. */
  lemma TaggedParts(ref: string)
    requires NamingTag(Tag(ref))
    ensures IdParts(Some(JStr(ref))) == Success(Some((Tag(ref), TagValue(ref))))
    ensures !IsPathRef(ref)
  {
    TagStartsId(ref);
  }

  /**
    `findNode(parent, id) || createNode(parent, id)` is stable: once an
    `@name` reference found nothing and the node was created, the same
    reference resolves to the new node.
  */
  lemma CreatedNameIsFound(cfg: Config, s: Store, parent: Path, ref: string)
    requires Tag(ref) == "@name"
    requires FindNode(cfg, s, parent, Some(JStr(ref))) == Success(None)
    requires CreateNode(cfg, s, parent, Some(JStr(ref))).Success?
    ensures FindNode(cfg, CreateNode(cfg, s, parent, Some(JStr(ref))).value.0, parent, Some(JStr(ref)))
         == Success(Some(CreateNode(cfg, s, parent, Some(JStr(ref))).value.1))
  {
    TaggedParts(ref);
    var id := Some(JStr(ref));
    var (s', c) := CreateNode(cfg, s, parent, id).value;
    CreateNodeKeepsAttributes(cfg, s, parent, id);
    var v := TagValue(ref);
    var before, kids := Children(s, parent).value, Children(s', parent).value;
    ChildrenAfterCreate(s, s', parent, c);
    OnlyNewMatches(s, s', before, kids, v, c);
  }

  /** The same stability for `@meta` references, resolved among the meta nodes. */
  lemma CreatedMetaIsFound(cfg: Config, s: Store, parent: Path, ref: string)
    requires Tag(ref) == "@meta"
    requires FindNode(cfg, s, parent, Some(JStr(ref))) == Success(None)
    requires CreateNode(cfg, s, parent, Some(JStr(ref))).Success?
    ensures FindNode(cfg, CreateNode(cfg, s, parent, Some(JStr(ref))).value.0, parent, Some(JStr(ref)))
         == Success(Some(CreateNode(cfg, s, parent, Some(JStr(ref))).value.1))
  {
    TaggedParts(ref);
    var id := Some(JStr(ref));
    var (s', c) := CreateNode(cfg, s, parent, id).value;
    CreateNodeKeepsAttributes(cfg, s, parent, id);
    CreateNodeAddsMeta(cfg, s, parent, id);
    var v := TagValue(ref);
    var before, metas := MetaNodes(s, cfg.root), MetaNodes(s', cfg.root);
    MetaNodesAfterAdd(s, s', cfg.root, c);
    OnlyNewMatches(s, s', before, metas, v, c);
  }

  // ------------------------------------------------------------------ apply

  /** `state.children || []`: the target children, as `for` over `.length` visits them. */
  function ChildStates(state: Json): (r: Result<seq<Json>, Error>)
    ensures r.Failure? <==> state.JNull?
    ensures r.Failure? ==> r.error == TypeError
    ensures r.Success? ==> forall k :: 0 <= k < |r.value| ==> Size(r.value[k]) < Size(state)
    ensures !state.JObj? && !state.JNull? ==> r == Success([])
    ensures state.JObj? && Assoc.Get(state.fields, "children").Some? && Assoc.Get(state.fields, "children").value.JArr? ==>
              r == Success(Assoc.Get(state.fields, "children").value.items)
    ensures state.JObj? && (Assoc.Get(state.fields, "children").None? || !Truthy(Assoc.Get(state.fields, "children").value)) ==>
              r == Success([])
  {
    match state
    case JNull => Failure(TypeError)
    case JObj(f) =>
      var c := Assoc.Get(f, "children");
      if c.None? || !Truthy(c.value) then Success([])
      else
        FieldSmaller(f, "children");
        ElementsNoLarger(c.value);
        Elements(c.value)
    case _ => Success([])
  }

  /** `q` lies below none of the first `n` paths of `ps`. */
  predicate Spared(q: Path, ps: seq<Path>, n: nat)
    requires n <= |ps|
  {
    n == 0 || (!Under(q, ps[n - 1]) && Spared(q, ps, n - 1))
  }

  lemma {:induction false} SparedAll(q: Path, ps: seq<Path>, n: nat)
    requires n <= |ps|
    ensures Spared(q, ps, n) <==> forall k :: 0 <= k < n ==> !Under(q, ps[k])
  {
    if n > 0 {
      SparedAll(q, ps, n - 1);
    }
  }

  /** `for (let i = currentChildren.length; i--;) deleteNode(currentChildren[i])`, over the first `n`. */
  function DeleteAll(s: Store, ps: seq<Path>, n: nat): Store
    requires n <= |ps|
    decreases n
  {
    if n == 0 then s
    else DeleteAll(DeleteNode(s, ps[n - 1]), ps, n - 1)
  }

  /** The nodes that survive are exactly those below none of the deleted paths. */
  lemma {:induction false} DeleteAllNodes(s: Store, ps: seq<Path>, n: nat, q: Path)
    requires n <= |ps|
    decreases n
    ensures q in DeleteAll(s, ps, n).nodes <==> q in s.nodes && Spared(q, ps, n)
  {
    if n > 0 {
      var s1 := DeleteNode(s, ps[n - 1]);
      assert DeleteAll(s, ps, n) == DeleteAll(s1, ps, n - 1);
      DeleteAllNodes(s1, ps, n - 1, q);
    }
  }

  /** Deleting the unmatched children keeps the store tree-shaped. */
  lemma {:induction false} DeleteAllKeepsTree(s: Store, ps: seq<Path>, n: nat)
    requires n <= |ps| && TreeShaped(s)
    decreases n
    ensures TreeShaped(DeleteAll(s, ps, n))
  {
    if n > 0 {
      var s1 := DeleteNode(s, ps[n - 1]);
      DeleteNodeKeepsTree(s, ps[n - 1]);
      DeleteAllKeepsTree(s1, ps, n - 1);
      assert DeleteAll(s, ps, n) == DeleteAll(s1, ps, n - 1);
    }
  }

  /**
    The change loop of `apply`: each `put` goes to `_put`, each `del` to
    `_delete`, and records of any other type are passed over.
  */
  function ApplyChanges(cfg: Config, s: Store, node: Path, changes: seq<Change>): (r: Result<Store, Error>)
    requires node in s.nodes
    decreases |changes|, 1
    ensures |changes| == 0 ==> r == Success(s)
    ensures r.Success? ==> Keeps(s, r.value, node)
  {
    if |changes| == 0 then Success(s) else ApplyFirst(cfg, s, node, changes)
  }

  /** A non-empty change list: the first record, then the rest. */
  function ApplyFirst(cfg: Config, s: Store, node: Path, changes: seq<Change>): (r: Result<Store, Error>)
    requires node in s.nodes && |changes| > 0
    decreases |changes|, 0
    ensures r.Success? ==> Keeps(s, r.value, node)
  {
    var s1 :- ApplyOne(cfg, s, node, changes[0]);
    var s2 :- ApplyChanges(cfg, s1, node, changes[1..]);
    KeepsTrans(s, s1, s2, node);
    Success(s2)
  }

  /** One change record: `put` to `_put`, `del` to `_delete`, anything else ignored. */
  function ApplyOne(cfg: Config, s: Store, node: Path, ch: Change): (r: Result<Store, Error>)
    requires node in s.nodes
    ensures ch.kind.OtherKind? ==> r == Success(s)
    ensures ch.kind.Put? && CategoryOf(ch).None? ==> r == Failure(UnsupportedCategory)
    ensures ch.kind.Del? && CategoryOf(ch).None? ==> r == Failure(UnsupportedCategory)
    ensures r.Success? ==> Keeps(s, r.value, node)
  {
    match ch.kind
    case Put => PutChange(cfg, s, node, ch)
    case Del => DeleteChange(s, node, ch)
    case OtherKind(_) => Success(s)
  }

  /** The records `apply` acts on: those of type `put` or `del`, in order. */
  function Acted(changes: seq<Change>): (r: seq<Change>)
    ensures forall i :: 0 <= i < |r| ==> !r[i].kind.OtherKind? && r[i] in changes
    ensures forall i :: 0 <= i < |changes| && !changes[i].kind.OtherKind? ==> changes[i] in r
  {
    if |changes| == 0 then []
    else if changes[0].kind.OtherKind? then Acted(changes[1..])
    else [changes[0]] + Acted(changes[1..])
  }

  /** Records of other types have no effect: applying the list is applying its `put`s and `del`s. */
  lemma {:induction false} OtherKindsIgnored(cfg: Config, s: Store, node: Path, changes: seq<Change>)
    requires node in s.nodes
    decreases |changes|
    ensures ApplyChanges(cfg, s, node, changes) == ApplyChanges(cfg, s, node, Acted(changes))
  {
    if |changes| > 0 {
      var ch := changes[0];
      if ch.kind.OtherKind? {
        OtherKindsIgnored(cfg, s, node, changes[1..]);
      } else {
        var rest := Acted(changes[1..]);
        assert ([ch] + rest)[0] == ch && ([ch] + rest)[1..] == rest;
        var s1 := ApplyOne(cfg, s, node, ch);
        if s1.Success? {
          OtherKindsIgnored(cfg, s1.value, node, changes[1..]);
        }
      }
    }
  }

  /** Changes are applied in order: a list split in two is the first part, then the second. */
  lemma {:induction false} ApplyChangesAppend(cfg: Config, s: Store, node: Path, a: seq<Change>, b: seq<Change>)
    requires node in s.nodes
    decreases |a|
    ensures ApplyChanges(cfg, s, node, a + b)
         == (var s1 :- ApplyChanges(cfg, s, node, a); ApplyChanges(cfg, s1, node, b))
  {
    if |a| == 0 {
      assert a + b == b;
    } else {
      assert (a + b)[0] == a[0] && (a + b)[1..] == a[1..] + b;
      var s1 := ApplyOne(cfg, s, node, a[0]);
      if s1.Success? {
        ApplyChangesAppend(cfg, s1.value, node, a[1..], b);
      }
    }
  }

  /** Every path of `ps` is longer than `node`: none of them is `node` or lies above it. */
  predicate Below(node: Path, ps: seq<Path>)
  {
    forall x :: x in ps ==> |node| < |x|
  }

  /** A successful reconciliation leaves a tree-shaped store that still holds `node`. */
  predicate Settled(r: Result<Store, Error>, node: Path)
  {
    r.Success? ==> TreeShaped(r.value) && node in r.value.nodes
  }

  /**
    `apply(node, state)`. It recurses into the target children, so it
    terminates on the size of the target document.
  */
  function Apply(cfg: Config, diff: Diff, s: Store, node: Path, state: Json): (r: Result<Store, Error>)
    requires TreeShaped(s) && node in s.nodes
    decreases Size(state), 2, 0
    ensures state.JNull? ==> r == Failure(TypeError)
    ensures Settled(r, node)
  {
    var matched :- MatchChildren(cfg, diff, s, node, state);
    Finish(cfg, matched.0, node, Compare(diff, Export(matched.0, node, false), state), matched.1)
  }

  /**
    The child loop of `apply` over all of `state`'s children, with every
    current child of `node` on the working list.
  */
  function MatchChildren(cfg: Config, diff: Diff, s: Store, node: Path, state: Json)
    : (r: Result<(Store, seq<Path>, seq<Path>), Error>)
    requires TreeShaped(s) && node in s.nodes
    decreases Size(state), 1, 0
    ensures state.JNull? ==> r == Failure(TypeError)
    ensures SettledWith(r, node, Children(s, node).value)
    ensures r.Success? ==> r.value.1 == Seqs.RemoveEach(Children(s, node).value, r.value.2)
  {
    var kids :- ChildStates(state);
    var current := Children(s, node).value;
    assert Below(node, current) by {
      forall x | x in current
        ensures |node| < |x|
      {
        assert x in s.nodes[node].children;
      }
    }
    ApplyChildren(cfg, diff, s, node, state, kids, 0, current)
  }

  /**
    The rest of `apply` once the children are reconciled: patch the node with
    the changes `compare` reports, then delete the unmatched children.
  */
  function Finish(cfg: Config, s: Store, node: Path, changes: seq<Change>, rest: seq<Path>): (r: Result<Store, Error>)
    requires TreeShaped(s) && node in s.nodes && Below(node, rest)
    ensures Settled(r, node)
  {
    var s1 :- ApplyChanges(cfg, s, node, changes);
    EditsKeepTree(s, s1, node);
    DeleteRestKeeps(s1, node, rest);
    Success(DeleteAll(s1, rest, |rest|))
  }

  /** Deleting nodes deeper than `node` keeps the store tree-shaped and keeps `node`. */
  lemma DeleteRestKeeps(s: Store, node: Path, rest: seq<Path>)
    requires TreeShaped(s) && node in s.nodes && Below(node, rest)
    ensures TreeShaped(DeleteAll(s, rest, |rest|)) && node in DeleteAll(s, rest, |rest|).nodes
  {
    DeleteAllKeepsTree(s, rest, |rest|);
    DeleteAllNodes(s, rest, |rest|, node);
    SparedAll(node, rest, |rest|);
    forall k | 0 <= k < |rest|
      ensures !Under(node, rest[k])
    {
      assert rest[k] in rest;
    }
  }

  /** The child loop leaves a tree-shaped store holding `node`, and part of the working list. */
  predicate SettledWith(r: Result<(Store, seq<Path>, seq<Path>), Error>, node: Path, current: seq<Path>)
  {
    r.Success? ==> TreeShaped(r.value.0) && node in r.value.0.nodes && Below(node, r.value.1)
  }

  /**
    `c` is the node the target child `kid` is reconciled into in `s`: the
    node its `id` finds under `node`, or else the child `createNode` adds.
  */
  predicate Reconciles(cfg: Config, s: Store, node: Path, kid: Json, c: Path)
  {
    && Prop(kid, Field("id")).Success?
    && FindNode(cfg, s, node, Prop(kid, Field("id")).value).Success?
    && var found := FindNode(cfg, s, node, Prop(kid, Field("id")).value).value;
       c == if found.Some? then found.value else NextChild(s, node)
  }

  /**
    The loop over the target children from position `i` on, with `current`
    the working list of current children not yet matched. Returns the store,
    what is left of the working list, and the node each target child was
    reconciled into, in order. The working list loses one occurrence of each
    of those nodes that it holds, and nothing else.
  */
  function ApplyChildren(cfg: Config, diff: Diff, s: Store, node: Path, state: Json,
                         kids: seq<Json>, i: nat, current: seq<Path>): (r: Result<(Store, seq<Path>, seq<Path>), Error>)
    requires TreeShaped(s) && node in s.nodes && i <= |kids| && Below(node, current)
    requires forall k :: 0 <= k < |kids| ==> Size(kids[k]) < Size(state)
    decreases Size(state), 0, |kids| - i
    ensures i == |kids| ==> r == Success((s, current, []))
    ensures SettledWith(r, node, current)
    ensures r.Success? ==> |r.value.2| == |kids| - i && r.value.1 == Seqs.RemoveEach(current, r.value.2)
    ensures r.Success? && i < |kids| ==> Reconciles(cfg, s, node, kids[i], r.value.2[0])
  {
    if i == |kids| then Success((s, current, []))
    else
      var id :- Prop(kids[i], Field("id"));
      var found :- FindNode(cfg, s, node, id);
      CreateNodeKeepsTree(cfg, s, node, id);
      var made :- if found.Some? then Success((s, found.value)) else CreateNode(cfg, s, node, id);
      var s2 :- Apply(cfg, diff, made.0, made.1, kids[i]);
      if node !in s2.nodes then Failure(StoreRejected)
      else
        var rest :- ApplyChildren(cfg, diff, s2, node, state, kids, i + 1, Seqs.RemoveFirst(current, made.1));
        Success((rest.0, rest.1, [made.1] + rest.2))
  }

  /**
    The deletion list `apply` ends with: a current child is on it exactly when
    it occurs more often among the current children than among the nodes the
    target children were reconciled into. So a current child no target child
    was reconciled into is on it, and one that was, occurring once, is not.
  */
  lemma DeletionList(cfg: Config, diff: Diff, s: Store, node: Path, state: Json, c: Path)
    requires TreeShaped(s) && node in s.nodes
    requires MatchChildren(cfg, diff, s, node, state).Success?
    ensures var m, current := MatchChildren(cfg, diff, s, node, state).value, Children(s, node).value;
            && (c in m.1 <==> multiset(m.2)[c] < multiset(current)[c])
            && (c in current && c !in m.2 ==> c in m.1)
            && (c in m.2 && multiset(current)[c] <= 1 ==> c !in m.1)
  {
    var m, current := MatchChildren(cfg, diff, s, node, state).value, Children(s, node).value;
    assert multiset(m.1)[c] == if multiset(m.2)[c] < multiset(current)[c] then multiset(current)[c] - multiset(m.2)[c] else 0;
  }

  /**
    `apply` deletes every current child that no target child was reconciled
    into, with everything below it.
  */
  lemma UnmatchedChildDeleted(cfg: Config, diff: Diff, s: Store, node: Path, state: Json, c: Path)
    requires TreeShaped(s) && node in s.nodes
    requires Apply(cfg, diff, s, node, state).Success?
    requires c in Children(s, node).value
    ensures MatchChildren(cfg, diff, s, node, state).Success?
    ensures c !in MatchChildren(cfg, diff, s, node, state).value.2 ==> c !in Apply(cfg, diff, s, node, state).value.nodes
  {
    var m := MatchChildren(cfg, diff, s, node, state).value;
    DeletionList(cfg, diff, s, node, state, c);
    FinishNodes(cfg, m.0, node, Compare(diff, Export(m.0, node, false), state), m.1, c);
  }

  /** With no target children, `apply` is the patch and the deletion of all current children. */
  lemma ApplyNoKids(cfg: Config, diff: Diff, s: Store, node: Path, state: Json)
    requires TreeShaped(s) && node in s.nodes
    requires ChildStates(state) == Success([])
    ensures Apply(cfg, diff, s, node, state)
         == Finish(cfg, s, node, Compare(diff, Export(s, node, false), state), Children(s, node).value)
  {
    var kids := Children(s, node).value;
    assert ApplyChildren(cfg, diff, s, node, state, [], 0, kids) == Success((s, kids, []));
  }

  /** What survives `Finish`: exactly the nodes below none of the deleted paths. */
  lemma FinishNodes(cfg: Config, s: Store, node: Path, changes: seq<Change>, rest: seq<Path>, q: Path)
    requires TreeShaped(s) && node in s.nodes
    requires Below(node, rest)
    ensures Finish(cfg, s, node, changes, rest).Success? <==> ApplyChanges(cfg, s, node, changes).Success?
    ensures Finish(cfg, s, node, changes, rest).Success? ==>
              (q in Finish(cfg, s, node, changes, rest).value.nodes <==> q in s.nodes && forall x :: x in rest ==> !Under(q, x))
  {
    var s1 := ApplyChanges(cfg, s, node, changes);
    if s1.Success? {
      assert Finish(cfg, s, node, changes, rest) == Success(DeleteAll(s1.value, rest, |rest|));
      DeleteAllNodes(s1.value, rest, |rest|, q);
      SparedAll(q, rest, |rest|);
      assert (forall x :: x in rest ==> !Under(q, x)) <==> (forall k :: 0 <= k < |rest| ==> !Under(q, rest[k]));
    }
  }

  /**
    With no target children, `apply` patches the node and deletes every one
    of its current children with everything below them; nothing else
    disappears.
  */
  lemma ApplyWithoutChildren(cfg: Config, diff: Diff, s: Store, node: Path, state: Json, q: Path)
    requires TreeShaped(s) && node in s.nodes
    requires ChildStates(state) == Success([])
    ensures var r := Apply(cfg, diff, s, node, state);
            && (r.Success? <==> ApplyChanges(cfg, s, node, Compare(diff, Export(s, node, false), state)).Success?)
            && (r.Success? ==>
                  (q in r.value.nodes <==> q in s.nodes && forall c :: c in Children(s, node).value ==> !Under(q, c)))
  {
    ApplyNoKids(cfg, diff, s, node, state);
    FinishNodes(cfg, s, node, Compare(diff, Export(s, node, false), state), Children(s, node).value, q);
  }

  /** A document's target children are the children it lists. */
  lemma ExportChildStates(s: Store, node: Path, shallow: bool)
    requires TreeShaped(s) && node in s.nodes
    ensures ChildStates(Export(s, node, shallow)) == Success(if shallow then [] else ExportFrom(s, node))
  {
    ExportFields(s, node, shallow);
  }

  /** With no changes to make, `Finish` only deletes. */
  lemma FinishWithoutChanges(cfg: Config, s: Store, node: Path, rest: seq<Path>)
    requires TreeShaped(s) && node in s.nodes
    requires Below(node, rest)
    ensures Finish(cfg, s, node, [], rest) == Success(DeleteAll(s, rest, |rest|))
  {
  }

  /**
    Applying a node's own shallow export changes nothing but the children:
    with a diff that reports no change between equal documents, every current
    child is deleted and the node's fields stay as they are.
  */
  lemma ApplyOwnShallowExport(cfg: Config, diff: Diff, s: Store, node: Path)
    requires TreeShaped(s) && node in s.nodes
    requires forall x :: diff(x, x) == []
    ensures Apply(cfg, diff, s, node, Export(s, node, true))
         == Success(DeleteAll(s, Children(s, node).value, |Children(s, node).value|))
  {
    var state := Export(s, node, true);
    ExportChildStates(s, node, true);
    ApplyNoKids(cfg, diff, s, node, state);
    ExportDepthInvisible(s, node);
    assert Compare(diff, Export(s, node, false), state) == [];
    var kids := Children(s, node).value;
    assert forall x :: x in kids ==> |node| < |x| by {
      forall x | x in kids
        ensures |node| < |x|
      {
        assert x in s.nodes[node].children;
      }
    }
    FinishWithoutChanges(cfg, s, node, kids);
  }

  /** A childless node is a fixed point of applying its own export. */
  lemma ApplyOwnExportIdempotent(cfg: Config, diff: Diff, s: Store, node: Path)
    requires TreeShaped(s) && node in s.nodes
    requires forall x :: diff(x, x) == []
    requires Children(s, node).value == []
    ensures Apply(cfg, diff, s, node, Export(s, node, false)) == Success(s)
  {
    assert ExportFrom(s, node) == [];
    assert Export(s, node, false) == Export(s, node, true);
    ApplyOwnShallowExport(cfg, diff, s, node);
    assert DeleteAll(s, [], 0) == s;
  }

  /** The first target child of `state` has `id` as its `id`. */
  predicate FirstKidId(state: Json, id: Json)
  {
    && ChildStates(state).Success? && |ChildStates(state).value| > 0
    && Prop(ChildStates(state).value[0], Field("id")) == Success(Some(id))
  }

  /** `apply` fails as soon as resolving the first target child's `id` fails. */
  lemma FirstChildUnresolved(cfg: Config, diff: Diff, s: Store, node: Path, state: Json, id: Json)
    requires TreeShaped(s) && node in s.nodes
    requires FirstKidId(state, id)
    requires FindNode(cfg, s, node, Some(id)).Failure?
    ensures Apply(cfg, diff, s, node, state) == Failure(FindNode(cfg, s, node, Some(id)).error)
  {
    var kids := ChildStates(state).value;
    assert ApplyChildren(cfg, diff, s, node, state, kids, 0, Children(s, node).value)
        == Failure(FindNode(cfg, s, node, Some(id)).error);
  }

  /** A target whose first child has a GUID-like `id` is rejected, naming that `id`. */
  lemma GuidFirstKidRejected(cfg: Config, diff: Diff, s: Store, node: Path, state: Json, g: string)
    requires TreeShaped(s) && node in s.nodes
    requires FirstKidId(state, JStr(g))
    requires GuidLike(g)
    ensures Apply(cfg, diff, s, node, state) == Failure(UnknownReferenceTag(g))
  {
    GuidUnresolvable(cfg, s, node, g);
    FirstChildUnresolved(cfg, diff, s, node, state, JStr(g));
  }

  /** A document's `id` is its node's GUID. */
  lemma ExportId(s: Store, p: Path)
    requires TreeShaped(s) && p in s.nodes
    ensures Prop(Export(s, p, false), Field("id")) == Success(Some(JStr(s.nodes[p].guid)))
  {
    ExportFields(s, p, false);
  }

  /** The first target child of a deep export is the first child's document, with its GUID as `id`. */
  lemma DeepExportFirstKid(s: Store, p: Path)
    requires TreeShaped(s) && p in s.nodes && |Children(s, p).value| > 0
    ensures FirstKidId(Export(s, p, false), JStr(s.nodes[Children(s, p).value[0]].guid))
  {
    var first := Children(s, p).value[0];
    ExportChildStates(s, p, false);
    assert ExportFrom(s, p)[0] == Export(s, first, false);
    ExportId(s, first);
  }

  /**
    A deep export cannot be applied back: it gives each child its GUID as
    `id`, and a GUID is neither a path nor a tagged reference, so
    resolving the first child throws.
  */
  lemma ReimportRejectsGuids(cfg: Config, diff: Diff, s: Store, p: Path, t: Store, q: Path)
    requires TreeShaped(s) && p in s.nodes && TreeShaped(t) && q in t.nodes
    requires |Children(s, p).value| > 0
    requires GuidLike(s.nodes[Children(s, p).value[0]].guid)
    ensures var g := s.nodes[Children(s, p).value[0]].guid;
            Apply(cfg, diff, t, q, Export(s, p, false)) == Failure(UnknownReferenceTag(g))
  {
    DeepExportFirstKid(s, p);
    GuidFirstKidRejected(cfg, diff, t, q, Export(s, p, false), s.nodes[Children(s, p).value[0]].guid);
  }

  /** An attribute put always succeeds and shows in the node's export under `attributes`. */
  lemma PutAttributeExported(cfg: Config, s: Store, node: Path, name: string, v: Json)
    requires TreeShaped(s) && node in s.nodes
    ensures var r := PutChange(cfg, s, node, Change(Kind.Put, [Field("attributes"), Field(name)], v));
            && r.Success?
            && TreeShaped(r.value)
            && Assoc.Get(Export(r.value, node, true).fields, "attributes") == Some(JObj(r.value.nodes[node].attributes))
            && Assoc.Get(r.value.nodes[node].attributes, name) == Some(v)
  {
    var ch := Change(Kind.Put, [Field("attributes"), Field(name)], v);
    assert CategoryOf(ch) == Some(Attributes);
    var r := PutAttributes(s, node, ch);
    assert PutChange(cfg, s, node, ch) == r;
    EditsKeepTree(s, r.value, node);
    ExportFields(r.value, node, true);
  }

  // ----------------------------------------------------------------- import

  /** `import(parent, state)`: a new child of `parent`, with no id, reconciled with `state`. */
  function Import(cfg: Config, diff: Diff, s: Store, parent: Path, state: Json): (r: Result<Store, Error>)
    requires TreeShaped(s)
    ensures parent !in s.nodes ==> r == Failure(StoreRejected)
    ensures r.Success? ==> TreeShaped(r.value) && NextChild(s, parent) !in s.nodes && NextChild(s, parent) in r.value.nodes
  {
    CreateNodeKeepsTree(cfg, s, parent, None);
    var created :- CreateNode(cfg, s, parent, None);
    Apply(cfg, diff, created.0, created.1, state)
  }

  /**
    `import` creates a child with no id, which is the store's next child of
    `parent`, and reconciles the document into that child. A failed creation
    is the import's failure.
  */
  lemma ImportAppliesToNewChild(cfg: Config, diff: Diff, s: Store, parent: Path, state: Json)
    requires TreeShaped(s)
    ensures var c := CreateNode(cfg, s, parent, None);
            && (c.Failure? ==> Import(cfg, diff, s, parent, state) == Failure(c.error))
            && (c.Success? ==>
                  && c.value.1 == NextChild(s, parent) && parent in s.nodes
                  && TreeShaped(c.value.0) && NextChild(s, parent) in c.value.0.nodes
                  && Import(cfg, diff, s, parent, state) == Apply(cfg, diff, c.value.0, NextChild(s, parent), state))
  {
    CreateNodeKeepsTree(cfg, s, parent, None);
  }
}
