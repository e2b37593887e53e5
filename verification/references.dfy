/**
  Reference strings and their resolution (`findNode`, `getNode`, `getNodeId`).
  A reference is an absolute store path (`/...`), `@meta:<name>` (a meta node
  with that name, anywhere) or `@name:<name>` (a direct child of the scope node
  with that name). Names are compared with the node's own `name` attribute.
*/
module References {
  import opened Wrappers
  import opened Errors
  import opened Json
  import opened Store
  import Assoc

  /** The importer's fixed nodes: the root it was built with and the base new nodes derive from. */
  datatype Config = Config(root: Path, basePath: Path)

  /** `id.split(':')`. */
  function Pieces(id: string): (r: seq<string>)
    ensures |r| >= 1
    ensures forall i :: 0 <= i < |r| ==> ':' !in r[i]
  {
    if |id| == 0 then [""]
    else
      var rest := Pieces(id[1..]);
      if id[0] == ':' then [""] + rest
      else [[id[0]] + rest[0]] + rest[1..]
  }

  /** `pieces.join(':')`, the inverse of `Pieces`. */
  function Join(ps: seq<string>): string
    requires |ps| >= 1
  {
    if |ps| == 1 then ps[0] else ps[0] + ":" + Join(ps[1..])
  }

  lemma {:induction false} JoinPieces(id: string)
    ensures Join(Pieces(id)) == id
  {
    if |id| > 0 {
      var rest := Pieces(id[1..]);
      JoinPieces(id[1..]);
      if id[0] == ':' {
        assert Join([""] + rest) == "" + ":" + Join(rest);
        assert id == [':'] + id[1..];
      } else if |rest| == 1 {
        assert id == [id[0]] + id[1..];
      } else {
        var ps := [[id[0]] + rest[0]] + rest[1..];
        assert ps[1..] == rest[1..];
        assert id == [id[0]] + id[1..];
      }
    }
  }

  lemma {:induction false} PiecesOfPlain(a: string)
    requires ':' !in a
    ensures Pieces(a) == [a]
  {
    if |a| > 0 {
      PiecesOfPlain(a[1..]);
      assert a == [a[0]] + a[1..];
    }
  }

  lemma {:induction false} PiecesOfJoined(a: string, b: string)
    requires ':' !in a
    ensures Pieces(a + ":" + b) == [a] + Pieces(b)
  {
    if |a| == 0 {
      assert (a + ":" + b)[1..] == b;
    } else {
      PiecesOfJoined(a[1..], b);
      assert (a + ":" + b)[1..] == a[1..] + ":" + b;
      assert a == [a[0]] + a[1..];
    }
  }

  /** Splitting a join of colon-free pieces gives the pieces back. */
  lemma {:induction false} PiecesJoin(ps: seq<string>)
    requires |ps| >= 1
    requires forall i :: 0 <= i < |ps| ==> ':' !in ps[i]
    ensures Pieces(Join(ps)) == ps
  {
    if |ps| == 1 {
      PiecesOfPlain(ps[0]);
    } else {
      PiecesJoin(ps[1..]);
      PiecesOfJoined(ps[0], Join(ps[1..]));
      assert ps == [ps[0]] + ps[1..];
    }
  }

  /** `tag` in `const [tag, value] = id.split(':')`. */
  function Tag(id: string): string
  {
    Pieces(id)[0]
  }

  /** A non-empty tag is where the id starts. */
  lemma TagStartsId(id: string)
    requires |Tag(id)| > 0
    ensures |id| > 0 && id[0] == Tag(id)[0]
  {
  }

  /** `value` in `const [tag, value] = id.split(':')`; `None` when there is no colon. */
  function TagValue(id: string): Option<string>
  {
    var ps := Pieces(id);
    if |ps| >= 2 then Some(ps[1]) else None
  }

  /** `tag + ':' + value` has that tag and that value when neither holds a colon. */
  lemma TaggedReference(tag: string, value: string)
    requires ':' !in tag && ':' !in value
    ensures Tag(tag + ":" + value) == tag
    ensures TagValue(tag + ":" + value) == Some(value)
  {
    PiecesOfJoined(tag, value);
    PiecesOfPlain(value);
  }

  /** `id.startsWith('/')`. */
  predicate IsPathRef(id: string)
  {
    |id| > 0 && id[0] == '/'
  }

  /** `core.getAttribute(p, 'name') === value`, `undefined` matching only `undefined`. */
  predicate NameMatches(s: Store, p: Path, value: Option<string>)
  {
    Attribute(s, p, "name") == (if value.Some? then Some(JStr(value.value)) else None)
  }

  /** `r` is what `candidates.find(c => name(c) === value)` returns. */
  predicate IsFirstNamed(s: Store, candidates: seq<Path>, value: Option<string>, r: Option<Path>)
  {
    && (r.None? ==> forall i :: 0 <= i < |candidates| ==> !NameMatches(s, candidates[i], value))
    && (r.Some? ==>
          exists i :: 0 <= i < |candidates| && candidates[i] == r.value && NameMatches(s, r.value, value)
                      && forall j :: 0 <= j < i ==> !NameMatches(s, candidates[j], value))
  }

  function FirstNamed(s: Store, candidates: seq<Path>, value: Option<string>): (r: Option<Path>)
    ensures IsFirstNamed(s, candidates, value, r)
  {
    if |candidates| == 0 then None
    else if NameMatches(s, candidates[0], value) then Some(candidates[0])
    else
      var r := FirstNamed(s, candidates[1..], value);
      assert r.Some? ==> exists i :: 0 <= i < |candidates[1..]| && candidates[1..][i] == r.value
                                     && forall j :: 0 <= j < i ==> !NameMatches(s, candidates[1..][j], value);
      assert r.Some? ==> exists i :: 1 <= i < |candidates| && candidates[i] == r.value
                                     && forall j :: 0 <= j < i ==> !NameMatches(s, candidates[j], value);
      r
  }

  /**
    `findNode(parent, id)`: `Success(None)` is the `undefined` it returns when
    nothing matches or when `id` is undefined.
  */
  function FindNode(cfg: Config, s: Store, parent: Path, id: Option<Json>): (r: Result<Option<Path>, Error>)
    ensures id.None? ==> r == Success(None)
    ensures id.Some? && !id.value.JStr? ==> r == Failure(ReferenceNotAString)
    ensures id.Some? && id.value.JStr? && IsPathRef(id.value.s) ==>
              r == Success(if id.value.s in s.nodes then Some(id.value.s) else None)
    ensures id.Some? && id.value.JStr? && !IsPathRef(id.value.s) && Tag(id.value.s) == "@meta" ==>
              r.Success? && IsFirstNamed(s, MetaNodes(s, cfg.root), TagValue(id.value.s), r.value)
    ensures id.Some? && id.value.JStr? && !IsPathRef(id.value.s) && Tag(id.value.s) == "@name" ==>
              && (r.Success? <==> parent in s.nodes)
              && (r.Success? ==> IsFirstNamed(s, Children(s, parent).value, TagValue(id.value.s), r.value))
              && (r.Failure? ==> r.error == StoreRejected)
    ensures id.Some? && id.value.JStr? && !IsPathRef(id.value.s) && Tag(id.value.s) !in ["@meta", "@name"] ==>
              r == Failure(UnknownReferenceTag(Tag(id.value.s)))
    ensures r.Success? && r.value.Some? ==> r.value.value in s.nodes
  {
    match id
    case None => Success(None)
    case Some(JStr(ref)) =>
      if IsPathRef(ref) then Success(LoadByPath(s, ref))
      else
        var tag := Tag(ref);
        if tag == "@meta" then
          Success(FirstNamed(s, MetaNodes(s, cfg.root), TagValue(ref)))
        else if tag == "@name" then
          var kids :- Children(s, parent);
          Success(FirstNamed(s, kids, TagValue(ref)))
        else
          Failure(UnknownReferenceTag(tag))
    case Some(_) => Failure(ReferenceNotAString)
  }

  /**
    A reference with no colon that starts with neither `/` nor `@`, as a GUID
    of hexadecimal digits and dashes does.
  */
  predicate GuidLike(g: string)
  {
    |g| > 0 && g[0] != '/' && g[0] != '@' && forall i :: 0 <= i < |g| ==> g[i] != ':'
  }

  /** `findNode` throws on a GUID-like reference, naming the whole reference as the tag. */
  lemma GuidUnresolvable(cfg: Config, s: Store, parent: Path, g: string)
    requires GuidLike(g)
    ensures FindNode(cfg, s, parent, Some(JStr(g))) == Failure(UnknownReferenceTag(g))
  {
    assert ':' !in g;
    PiecesOfPlain(g);
    assert Tag(g) == g;
  }

  /** `getNode(parent, id)`: `findNode`, throwing when nothing matches. */
  function GetNode(cfg: Config, s: Store, parent: Path, id: Option<Json>): (r: Result<Path, Error>)
    ensures FindNode(cfg, s, parent, id) == Success(None) ==> r == Failure(ReferenceNotFound)
    ensures FindNode(cfg, s, parent, id).Failure? ==> r == Failure(FindNode(cfg, s, parent, id).error)
    ensures FindNode(cfg, s, parent, id).Success? && FindNode(cfg, s, parent, id).value.Some? ==>
              r == Success(FindNode(cfg, s, parent, id).value.value)
    ensures r.Success? ==> r.value in s.nodes
  {
    var found :- FindNode(cfg, s, parent, id);
    if found.None? then Failure(ReferenceNotFound) else Success(found.value)
  }

  /** `getNodeId(parent, id)`: the path of the node `getNode` resolves. */
  function GetNodeId(cfg: Config, s: Store, parent: Path, id: Option<Json>): (r: Result<Path, Error>)
    ensures r.Success? <==> GetNode(cfg, s, parent, id).Success?
    ensures r.Success? ==> r.value in s.nodes && r.value == GetNode(cfg, s, parent, id).value
    ensures r.Failure? ==> r.error == GetNode(cfg, s, parent, id).error
  {
    var node :- GetNode(cfg, s, parent, id);
    Success(node)
  }
  /** Two stores agree on the node paths, every child list and every `name` attribute. */
  predicate SameNamesAndChildren(s: Store, s': Store)
  {
    && s'.nodes.Keys == s.nodes.Keys
    && (forall p :: p in s.nodes ==>
          && s'.nodes[p].children == s.nodes[p].children
          && Assoc.Get(s'.nodes[p].attributes, "name") == Assoc.Get(s.nodes[p].attributes, "name"))
  }

  /**
    Two stores agree on everything reference resolution reads: the node paths,
    every child list and `name` attribute, and the members of the root's meta set.
  */
  predicate SameResolution(cfg: Config, s: Store, s': Store)
  {
    && SameNamesAndChildren(s, s')
    && (cfg.root in s.nodes ==> Members(s'.nodes[cfg.root], MetaSetName) == Members(s.nodes[cfg.root], MetaSetName))
  }

  /** A reference that `findNode` looks up among the root's meta set: an `@meta:` string. */
  predicate MetaRef(id: Json)
  {
    id.JStr? && !IsPathRef(id.s) && Tag(id.s) == "@meta"
  }

  lemma {:induction false} FirstNamedFrame(s: Store, s': Store, candidates: seq<Path>, value: Option<string>)
    requires SameNamesAndChildren(s, s')
    ensures FirstNamed(s', candidates, value) == FirstNamed(s, candidates, value)
  {
    if |candidates| > 0 {
      assert NameMatches(s', candidates[0], value) == NameMatches(s, candidates[0], value);
      FirstNamedFrame(s, s', candidates[1..], value);
    }
  }

  /** Resolution gives the same answer in stores that agree on what it reads. */
  lemma ResolutionFrame(cfg: Config, s: Store, s': Store, parent: Path, id: Option<Json>)
    requires SameResolution(cfg, s, s')
    ensures FindNode(cfg, s', parent, id) == FindNode(cfg, s, parent, id)
    ensures GetNode(cfg, s', parent, id) == GetNode(cfg, s, parent, id)
    ensures GetNodeId(cfg, s', parent, id) == GetNodeId(cfg, s, parent, id)
  {
    if id.Some? && id.value.JStr? && !IsPathRef(id.value.s) {
      var v := TagValue(id.value.s);
      if Tag(id.value.s) == "@meta" {
        assert MetaNodes(s', cfg.root) == MetaNodes(s, cfg.root);
        FirstNamedFrame(s, s', MetaNodes(s, cfg.root), v);
      } else if Tag(id.value.s) == "@name" && parent in s.nodes {
        assert Children(s', parent) == Children(s, parent);
        FirstNamedFrame(s, s', Children(s, parent).value, v);
      }
    }
  }

  /**
    A reference other than `@meta:` does not read the root's meta set: it
    resolves alike in stores that agree on paths, child lists and names.
  */
  lemma NonMetaResolutionFrame(cfg: Config, s: Store, s': Store, parent: Path, id: Json)
    requires SameNamesAndChildren(s, s') && !MetaRef(id)
    ensures FindNode(cfg, s', parent, Some(id)) == FindNode(cfg, s, parent, Some(id))
    ensures GetNode(cfg, s', parent, Some(id)) == GetNode(cfg, s, parent, Some(id))
  {
    if id.JStr? && !IsPathRef(id.s) && Tag(id.s) == "@name" && parent in s.nodes {
      assert Children(s', parent) == Children(s, parent);
      FirstNamedFrame(s, s', Children(s, parent).value, TagValue(id.s));
    }
  }

  /** An edit of one node that leaves its `name`, and the meta set when it is the root, keeps resolution. */
  lemma EditKeepsResolution(cfg: Config, s: Store, s': Store, p: Path)
    requires EditsOnly(s, s', p)
    requires Assoc.Get(s'.nodes[p].attributes, "name") == Assoc.Get(s.nodes[p].attributes, "name")
    requires p == cfg.root ==> Members(s'.nodes[p], MetaSetName) == Members(s.nodes[p], MetaSetName)
    ensures SameResolution(cfg, s, s')
  {
  }
}
