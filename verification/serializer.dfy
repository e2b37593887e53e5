/**
  `toJSON(node, shallow)` (JSONImporter.js:18-82): the document a node is
  exported as. Its fields come in a fixed order: `id` (the GUID), the
  name-indexed tables, `sets` as lists of member paths, the per-member data,
  and `children` (empty when shallow, otherwise the export of every child in
  `loadChildren` order).

  The per-member data is exported as the loop is written
  (JSONImporter.js:56-71): it creates the set's entry afresh for each member,
  so only the last member's data survives (`MemberSectionAsWritten`, and
  `AsWrittenDropsFirstMember` exhibits the loss). `MemberSection` is the
  evidently intended section, with the entry created once per set and every
  member's data kept; the export does not use it.
*/
module Serializer {
  import opened Wrappers
  import opened Json
  import opened Store
  import opened JsObjects
  import opened Changes
  import Assoc
  import Seqs

  /** Paths as the strings the core reports them as. */
  function PathStrings(ms: seq<Path>): (r: seq<Json>)
    ensures |r| == |ms|
    ensures forall i :: 0 <= i < |ms| ==> r[i] == JStr(ms[i])
  {
    if |ms| == 0 then [] else [JStr(ms[0])] + PathStrings(ms[1..])
  }

  /** `pointers`: each pointer's target path. */
  function PointersJson(a: Assoc.Assoc<Path>): Assoc.Assoc<Json>
  {
    if |a| == 0 then [] else [(a[0].0, JStr(a[0].1))] + PointersJson(a[1..])
  }

  /** `pointer_meta`: each pointer's rule as `getPointerMeta` reports it. */
  function RulesJson(a: Assoc.Assoc<PointerRule>): Assoc.Assoc<Json>
  {
    if |a| == 0 then [] else [(a[0].0, RuleJson(a[0].1))] + RulesJson(a[1..])
  }

  /** `sets`: each set's member paths. */
  function SetsJson(a: Assoc.Assoc<seq<Path>>): Assoc.Assoc<Json>
  {
    if |a| == 0 then [] else [(a[0].0, JArr(PathStrings(a[0].1)))] + SetsJson(a[1..])
  }

  /** A pointer's entry in `pointers` is its target path as a string; a name without a pointer has none. */
  lemma {:induction false} PointersJsonGet(a: Assoc.Assoc<Path>, k: string)
    ensures Assoc.Get(PointersJson(a), k) == if Assoc.Get(a, k).Some? then Some(JStr(Assoc.Get(a, k).value)) else None
  {
    if |a| > 0 {
      PointersJsonGet(a[1..], k);
      Assoc.GetTail(a, k);
      Assoc.GetCons((a[0].0, JStr(a[0].1)), PointersJson(a[1..]), k);
    }
  }

  /** A rule's entry in `pointer_meta` is the rule as `getPointerMeta` reports it; a name without a rule has none. */
  lemma {:induction false} RulesJsonGet(a: Assoc.Assoc<PointerRule>, k: string)
    ensures Assoc.Get(RulesJson(a), k) == if Assoc.Get(a, k).Some? then Some(RuleJson(Assoc.Get(a, k).value)) else None
  {
    if |a| > 0 {
      RulesJsonGet(a[1..], k);
      Assoc.GetTail(a, k);
      Assoc.GetCons((a[0].0, RuleJson(a[0].1)), RulesJson(a[1..]), k);
    }
  }

  /** A set's entry in `sets` lists its member paths as strings; a name without a set has none. */
  lemma {:induction false} SetsJsonGet(a: Assoc.Assoc<seq<Path>>, k: string)
    ensures Assoc.Get(SetsJson(a), k) == if Assoc.Get(a, k).Some? then Some(JArr(PathStrings(Assoc.Get(a, k).value))) else None
  {
    if |a| > 0 {
      SetsJsonGet(a[1..], k);
      Assoc.GetTail(a, k);
      Assoc.GetCons((a[0].0, JArr(PathStrings(a[0].1))), SetsJson(a[1..]), k);
    }
  }

  /** The object the export loop leaves for a set with members: the last member's data alone. */
  function LastMemberData(n: NodeData, t: MemberTable, name: string, ms: seq<Path>): Json
    requires |ms| > 0
  {
    JObj([(ms[|ms| - 1], JObj(MemberData(n, t, name, ms[|ms| - 1])))])
  }

  /**
    `member_attributes` / `member_registry` as the export loop writes them.
    The loop over a set's members replaces the set's entry with a fresh object
    on every member, so only the last member's data survives; a set without
    members gets no entry at all.
  */
  function MemberSectionAsWritten(n: NodeData, t: MemberTable, sets: Assoc.Assoc<seq<Path>>): Assoc.Assoc<Json>
  {
    if |sets| == 0 then []
    else if |sets[0].1| == 0 then MemberSectionAsWritten(n, t, sets[1..])
    else [(sets[0].0, LastMemberData(n, t, sets[0].0, sets[0].1))] + MemberSectionAsWritten(n, t, sets[1..])
  }

  /** As written, only the last member of a set keeps its data in the export. */
  lemma {:induction false} MemberSectionKeepsLastOnly(n: NodeData, t: MemberTable, sets: Assoc.Assoc<seq<Path>>, k: string)
    requires Assoc.DistinctKeys(sets)
    ensures var ms := Assoc.Get(sets, k);
            Assoc.Get(MemberSectionAsWritten(n, t, sets), k) ==
              if ms.Some? && |ms.value| > 0 then Some(LastMemberData(n, t, k, ms.value)) else None
  {
    if |sets| > 0 {
      Assoc.DistinctTail(sets);
      MemberSectionKeepsLastOnly(n, t, sets[1..], k);
      var rest := MemberSectionAsWritten(n, t, sets[1..]);
      if |sets[0].1| > 0 {
        Assoc.GetCons((sets[0].0, LastMemberData(n, t, sets[0].0, sets[0].1)), rest, k);
      }
    }
  }

  /**
    As written, a set with two or more members loses the first member's data:
    the set's entry has nothing under the first member's path.
  */
  lemma AsWrittenDropsFirstMember(n: NodeData, t: MemberTable, sets: Assoc.Assoc<seq<Path>>, k: string)
    requires Assoc.DistinctKeys(sets)
    requires Assoc.Get(sets, k).Some?
    requires var ms := Assoc.Get(sets, k).value; |ms| >= 2 && ms[0] != ms[|ms| - 1]
    ensures var ms := Assoc.Get(sets, k).value;
            var entry := Assoc.Get(MemberSectionAsWritten(n, t, sets), k);
            entry.Some? && entry.value.JObj? && Assoc.Get(entry.value.fields, ms[0]) == None
  {
    var ms := Assoc.Get(sets, k).value;
    MemberSectionKeepsLastOnly(n, t, sets, k);
    Assoc.GetCons((ms[|ms| - 1], JObj(MemberData(n, t, k, ms[|ms| - 1]))), [], ms[0]);
  }

  /** Every member's data under the member's path: what the export loop evidently means to build for one set. */
  function MemberObjects(n: NodeData, t: MemberTable, name: string, ms: seq<Path>): Assoc.Assoc<Json>
  {
    if |ms| == 0 then []
    else
      var last := ms[|ms| - 1];
      Assoc.Put(MemberObjects(n, t, name, ms[..|ms| - 1]), last, JObj(MemberData(n, t, name, last)))
  }

  /** The entry of one set: an object of its members' data. */
  function SetObject(n: NodeData, t: MemberTable, name: string, ms: seq<Path>): Json
  {
    JObj(MemberObjects(n, t, name, ms))
  }

  /** A path's entry in `MemberObjects` is its data when it is a member, and absent otherwise. */
  lemma {:induction false} MemberObjectsGet(n: NodeData, t: MemberTable, name: string, ms: seq<Path>, m: Path)
    ensures Assoc.Get(MemberObjects(n, t, name, ms), m) == if m in ms then Some(JObj(MemberData(n, t, name, m))) else None
  {
    if |ms| > 0 {
      var last := ms[|ms| - 1];
      assert ms == ms[..|ms| - 1] + [last];
      MemberObjectsGet(n, t, name, ms[..|ms| - 1], m);
    }
  }

  /**
    `member_attributes` / `member_registry` with the set's entry created once
    per set, so that every member's data is kept. A set without members still
    gets no entry.
  */
  function MemberSection(n: NodeData, t: MemberTable, sets: Assoc.Assoc<seq<Path>>): Assoc.Assoc<Json>
  {
    if |sets| == 0 then []
    else if |sets[0].1| == 0 then MemberSection(n, t, sets[1..])
    else [(sets[0].0, SetObject(n, t, sets[0].0, sets[0].1))] + MemberSection(n, t, sets[1..])
  }

  /** Each set with members has an entry holding every member's data, and nothing else. */
  lemma {:induction false} MemberSectionKeepsAll(n: NodeData, t: MemberTable, sets: Assoc.Assoc<seq<Path>>, k: string)
    requires Assoc.DistinctKeys(sets)
    ensures var ms := Assoc.Get(sets, k);
            Assoc.Get(MemberSection(n, t, sets), k) ==
              if ms.Some? && |ms.value| > 0 then Some(SetObject(n, t, k, ms.value)) else None
  {
    if |sets| > 0 {
      Assoc.DistinctTail(sets);
      MemberSectionKeepsAll(n, t, sets[1..], k);
      var rest := MemberSection(n, t, sets[1..]);
      if |sets[0].1| > 0 {
        Assoc.GetCons((sets[0].0, SetObject(n, t, sets[0].0, sets[0].1)), rest, k);
      }
    }
  }

  /** In the intended section of a node whose set names are distinct, every member's data is kept under its set and its path. */
  lemma EveryMemberKept(n: NodeData, t: MemberTable, k: string, m: Path)
    requires Assoc.DistinctKeys(n.sets) && IsMember(n, k, m)
    ensures var entry := Assoc.Get(MemberSection(n, t, n.sets), k);
            entry.Some? && entry.value.JObj? && Assoc.Get(entry.value.fields, m) == Some(JObj(MemberData(n, t, k, m)))
  {
    MemberSectionKeepsAll(n, t, n.sets, k);
    MemberObjectsGet(n, t, k, n.sets[Assoc.IndexOfKey(n.sets, k)].1, m);
  }

  /** Every field of a node's document but `children`, in export order. */
  function Header(n: NodeData): (r: Assoc.Assoc<Json>)
    ensures |r| == 9 && r[0] == ("id", JStr(n.guid)) && r[1] == ("attributes", JObj(n.attributes))
    ensures forall i :: 0 <= i < |r| ==> r[i].0 != "children"
  {
    [ ("id", JStr(n.guid)),
      ("attributes", JObj(n.attributes)),
      ("attribute_meta", JObj(n.attributeMeta)),
      ("pointers", JObj(PointersJson(n.pointers))),
      ("pointer_meta", JObj(RulesJson(n.pointerMeta))),
      ("registry", JObj(n.registry)),
      ("sets", JObj(SetsJson(n.sets))),
      ("member_attributes", JObj(MemberSectionAsWritten(n, MemberAttrTable, n.sets))),
      ("member_registry", JObj(MemberSectionAsWritten(n, MemberRegTable, n.sets))) ]
  }

  /** The document for one node, given its children's documents. */
  function Document(n: NodeData, children: seq<Json>): (r: Json)
    ensures r.JObj? && |r.fields| == 10
    ensures r.fields[0] == ("id", JStr(n.guid))
    ensures r.fields[9] == ("children", JArr(children))
  {
    JObj(Header(n) + [("children", JArr(children))])
  }

  /** A document's `id` is the node's GUID, its `attributes` the node's attributes, its `children` the given list. */
  lemma DocumentFields(n: NodeData, children: seq<Json>)
    ensures Assoc.Get(Document(n, children).fields, "id") == Some(JStr(n.guid))
    ensures Assoc.Get(Document(n, children).fields, "attributes") == Some(JObj(n.attributes))
    ensures Assoc.Get(Document(n, children).fields, "children") == Some(JArr(children))
  {
    var d := Document(n, children).fields;
    assert d[1] == ("attributes", JObj(n.attributes));
    Assoc.GetAt(d, 0);
    Assoc.GetAt(d, 1);
    Assoc.GetAt(d, 9);
  }

  /** The entries of the object a document holds under `field`, if it holds one. */
  function SectionOf(doc: Json, field: string): Option<Assoc.Assoc<Json>>
  {
    if doc.JObj? && Assoc.Get(doc.fields, field).Some? && Assoc.Get(doc.fields, field).value.JObj?
    then Some(Assoc.Get(doc.fields, field).value.fields)
    else None
  }

  /** The sections a document holds between `attributes` and `children`, by name. */
  lemma DocumentSections(n: NodeData, children: seq<Json>)
    ensures var doc := Document(n, children);
            && SectionOf(doc, "attribute_meta") == Some(n.attributeMeta)
            && SectionOf(doc, "pointers") == Some(PointersJson(n.pointers))
            && SectionOf(doc, "pointer_meta") == Some(RulesJson(n.pointerMeta))
            && SectionOf(doc, "registry") == Some(n.registry)
            && SectionOf(doc, "sets") == Some(SetsJson(n.sets))
            && SectionOf(doc, "member_attributes") == Some(MemberSectionAsWritten(n, MemberAttrTable, n.sets))
            && SectionOf(doc, "member_registry") == Some(MemberSectionAsWritten(n, MemberRegTable, n.sets))
  {
    var doc := Document(n, children);
    DocumentTableSections(n, children, doc);
    DocumentSetSections(n, children, doc);
  }

  lemma DocumentTableSections(n: NodeData, children: seq<Json>, doc: Json)
    requires doc == Document(n, children)
    ensures SectionOf(doc, "attribute_meta") == Some(n.attributeMeta)
    ensures SectionOf(doc, "pointers") == Some(PointersJson(n.pointers))
    ensures SectionOf(doc, "pointer_meta") == Some(RulesJson(n.pointerMeta))
    ensures SectionOf(doc, "registry") == Some(n.registry)
  {
    DocumentFieldsAt(n, children);
    SectionAt(doc, 2, "attribute_meta", n.attributeMeta);
    SectionAt(doc, 3, "pointers", PointersJson(n.pointers));
    SectionAt(doc, 4, "pointer_meta", RulesJson(n.pointerMeta));
    SectionAt(doc, 5, "registry", n.registry);
  }

  lemma DocumentSetSections(n: NodeData, children: seq<Json>, doc: Json)
    requires doc == Document(n, children)
    ensures SectionOf(doc, "sets") == Some(SetsJson(n.sets))
    ensures SectionOf(doc, "member_attributes") == Some(MemberSectionAsWritten(n, MemberAttrTable, n.sets))
    ensures SectionOf(doc, "member_registry") == Some(MemberSectionAsWritten(n, MemberRegTable, n.sets))
  {
    DocumentFieldsAt(n, children);
    SectionAt(doc, 6, "sets", SetsJson(n.sets));
    SectionAt(doc, 7, "member_attributes", MemberSectionAsWritten(n, MemberAttrTable, n.sets));
    SectionAt(doc, 8, "member_registry", MemberSectionAsWritten(n, MemberRegTable, n.sets));
  }

  /** The field names of a document, position by position. */
  lemma DocumentFieldsAt(n: NodeData, children: seq<Json>)
    ensures var d := Document(n, children).fields;
            && d[0].0 == "id" && d[1].0 == "attributes"
            && d[2] == ("attribute_meta", JObj(n.attributeMeta))
            && d[3] == ("pointers", JObj(PointersJson(n.pointers)))
            && d[4] == ("pointer_meta", JObj(RulesJson(n.pointerMeta)))
            && d[5] == ("registry", JObj(n.registry))
            && d[6] == ("sets", JObj(SetsJson(n.sets)))
            && d[7] == ("member_attributes", JObj(MemberSectionAsWritten(n, MemberAttrTable, n.sets)))
            && d[8] == ("member_registry", JObj(MemberSectionAsWritten(n, MemberRegTable, n.sets)))
  {
    assert Document(n, children).fields == Header(n) + [("children", JArr(children))];
  }

  /** The object at position `i` of a document is its section under that name when no earlier field has the name. */
  lemma SectionAt(doc: Json, i: nat, field: string, v: Assoc.Assoc<Json>)
    requires doc.JObj? && i < |doc.fields| && doc.fields[i] == (field, JObj(v))
    requires forall j :: 0 <= j < i ==> doc.fields[j].0 != field
    ensures SectionOf(doc, field) == Some(v)
  {
    Assoc.GetAt(doc.fields, i);
  }

  /** Every node whose path is at least as long as `p`'s: what remains to visit below `p`. */
  function Reach(s: Store, p: Path): set<Path>
  {
    set q | q in s.nodes && |q| >= |p|
  }

  lemma ChildReachSmaller(s: Store, p: Path, c: Path)
    requires TreeShaped(s) && p in s.nodes && c in s.nodes[p].children
    ensures Reach(s, c) < Reach(s, p)
  {
    assert p in Reach(s, p) && p !in Reach(s, c);
  }

  /**
    `toJSON(node, shallow)`. The store is tree-shaped, which is what lets the
    deep export terminate.
  */
  function Export(s: Store, p: Path, shallow: bool): (r: Json)
    requires TreeShaped(s) && p in s.nodes
    decreases Reach(s, p), 2
    ensures r.JObj? && |r.fields| == 10
    ensures r.fields[0] == ("id", JStr(s.nodes[p].guid))
  {
    Document(s.nodes[p], if shallow then [] else ExportFrom(s, p))
  }

  /** Every path of `kids` is a child of `p` in the store. */
  predicate ChildList(s: Store, p: Path, kids: seq<Path>)
    requires p in s.nodes
  {
    forall i :: 0 <= i < |kids| ==> kids[i] in s.nodes && kids[i] in s.nodes[p].children
  }

  /** The loop over `loadChildren`: the deep export of each child in `kids`, in order. */
  function ExportEach(s: Store, p: Path, kids: seq<Path>): (r: seq<Json>)
    requires TreeShaped(s) && p in s.nodes && ChildList(s, p, kids)
    decreases Reach(s, p), 0, |kids|
    ensures |r| == |kids|
  {
    if |kids| == 0 then []
    else
      ChildReachSmaller(s, p, kids[0]);
      var rest := ExportEach(s, p, kids[1..]);
      assert |rest| == |kids| - 1;
      [Export(s, kids[0], false)] + rest
  }

  /** The children documents of a deep export. */
  function ExportFrom(s: Store, p: Path): (r: seq<Json>)
    requires TreeShaped(s) && p in s.nodes
    decreases Reach(s, p), 1
    ensures |r| == |Children(s, p).value|
  {
    ExportEach(s, p, Children(s, p).value)
  }

  /**
    A node's document: its `id` is the node's GUID, its `attributes` the
    node's attributes, and its `children` the deep exports of the node's
    children in `loadChildren` order, or none when shallow.
  */
  lemma ExportFields(s: Store, p: Path, shallow: bool)
    requires TreeShaped(s) && p in s.nodes
    ensures Assoc.Get(Export(s, p, shallow).fields, "id") == Some(JStr(s.nodes[p].guid))
    ensures Assoc.Get(Export(s, p, shallow).fields, "attributes") == Some(JObj(s.nodes[p].attributes))
    ensures Assoc.Get(Export(s, p, shallow).fields, "children") == Some(JArr(if shallow then [] else ExportFrom(s, p)))
  {
    DocumentFields(s.nodes[p], if shallow then [] else ExportFrom(s, p));
  }

  /** What `compare` sees of a document does not depend on its `children`. */
  lemma DocumentChildrenInvisible(n: NodeData, a: seq<Json>, b: seq<Json>)
    ensures Omit(Document(n, a), Ignored) == Omit(Document(n, b), Ignored)
  {
    var x, y := Document(n, a).fields, Document(n, b).fields;
    assert x[..9] == y[..9];
    Assoc.WithoutAgrees(x, y, Ignored);
  }

  /** What `compare` sees of a node does not depend on the depth of its export. */
  lemma ExportDepthInvisible(s: Store, p: Path)
    requires TreeShaped(s) && p in s.nodes
    ensures Omit(Export(s, p, false), Ignored) == Omit(Export(s, p, true), Ignored)
  {
    DocumentChildrenInvisible(s.nodes[p], ExportFrom(s, p), []);
  }

  /**
    What the export of a node holds under one name `k` in each of its
    sections: the attribute meta and registry tables as stored, the pointer's
    target path, the pointer's rule as `getPointerMeta` reports it, the set's
    member paths in order, and, per set with members, the data of the last
    member only.
  */
  lemma ExportSections(s: Store, p: Path, shallow: bool, k: string)
    requires TreeShaped(s) && p in s.nodes
    ensures var doc, n := Export(s, p, shallow), s.nodes[p];
            && SectionOf(doc, "attribute_meta") == Some(n.attributeMeta)
            && SectionOf(doc, "registry") == Some(n.registry)
            && SectionOf(doc, "pointers").Some?
            && Assoc.Get(SectionOf(doc, "pointers").value, k) ==
                 (if Assoc.Get(n.pointers, k).Some? then Some(JStr(Assoc.Get(n.pointers, k).value)) else None)
            && SectionOf(doc, "pointer_meta").Some?
            && Assoc.Get(SectionOf(doc, "pointer_meta").value, k) ==
                 (if Assoc.Get(n.pointerMeta, k).Some? then Some(RuleJson(Assoc.Get(n.pointerMeta, k).value)) else None)
            && SectionOf(doc, "sets").Some?
            && Assoc.Get(SectionOf(doc, "sets").value, k) ==
                 (if Assoc.Get(n.sets, k).Some? then Some(JArr(PathStrings(Assoc.Get(n.sets, k).value))) else None)
  {
    var n := s.nodes[p];
    DocumentSections(n, if shallow then [] else ExportFrom(s, p));
    PointersJsonGet(n.pointers, k);
    RulesJsonGet(n.pointerMeta, k);
    SetsJsonGet(n.sets, k);
  }

  /**
    The per-member sections of a node's export, for a node whose set names
    are distinct: a set with members has an entry holding only its last
    member's data, and a set without members has none.
  */
  lemma ExportMemberSections(s: Store, p: Path, shallow: bool, k: string)
    requires TreeShaped(s) && p in s.nodes && Assoc.DistinctKeys(s.nodes[p].sets)
    ensures var doc, n, ms := Export(s, p, shallow), s.nodes[p], Assoc.Get(s.nodes[p].sets, k);
            && SectionOf(doc, "member_attributes").Some?
            && Assoc.Get(SectionOf(doc, "member_attributes").value, k) ==
                 (if ms.Some? && |ms.value| > 0 then Some(LastMemberData(n, MemberAttrTable, k, ms.value)) else None)
            && SectionOf(doc, "member_registry").Some?
            && Assoc.Get(SectionOf(doc, "member_registry").value, k) ==
                 (if ms.Some? && |ms.value| > 0 then Some(LastMemberData(n, MemberRegTable, k, ms.value)) else None)
  {
    var n := s.nodes[p];
    DocumentSections(n, if shallow then [] else ExportFrom(s, p));
    MemberSectionKeepsLastOnly(n, MemberAttrTable, n.sets, k);
    MemberSectionKeepsLastOnly(n, MemberRegTable, n.sets, k);
  }
}
