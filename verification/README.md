# JSON importer: a Dafny model

This project models the JSON importer of the deepforge-keras plugins
(`src/common/plugins/JSONImporter.js`). The importer moves a node of a graph
model to and from a plain JSON document, and does three things:

- `toJSON` exports a node as a document. The document holds the node's GUID, its
  attributes, attribute meta, pointers, pointer meta, registry, sets, the data
  owned by each set member and, unless the export is shallow, the documents of
  its children. As the loop is written, the member data of a set holds its
  last member alone (see "## Findings").
- `apply` reconciles a node with a target document, in three steps:
  - each target child is resolved by its `id`, or created, and is reconciled
    in turn;
  - the node's own fields are patched with the change records that `compare`
    reports between the node's current document and the target;
  - every current child that no target child matched is deleted.
- `import` creates a fresh child and applies a document to it.

References to nodes come in three forms:

- a path starting with `/`;
- `@meta:<name>`, looked up among the meta nodes;
- `@name:<name>`, looked up among the children of the parent.

Any other form fails with `Unknown tag`.

The model is functional. A store is a map from node paths to node data, plus
the counter from which new child paths are made. Every table of a node (and
every JSON object) is an insertion-ordered association list, because the
importer walks `Object.entries` and the core's name lists in order. Every
operation is a pure function from a store to `Result<Store, Error>`. A thrown
exception is a `Failure` that names what threw:

- an importer assertion;
- an unknown reference tag or category;
- a JavaScript `TypeError` from reading a property of `undefined` or `null`;
- the core refusing its arguments.

Modules, in dependency order:

| module | file | contents |
|---|---|---|
| `Wrappers`, `Errors` | `wrappers.dfy` | `Option`, `Result` with `:-`, the error kinds |
| `Assoc` | `assoc.dfy` | ordered tables: lookup, `put`, `delete`, filtering |
| `Seqs` | `seqs.dfy` | `indexOf`, `splice` of one element, filters |
| `Json` | `json.dfy` | JSON values; property read/write, `Object.entries`, array loops |
| `JsObjects` | `objects.dfy` | `setNested` and `omit` |
| `Changes` | `changes.dfy` | change records and `compare`; the diff is a parameter |
| `Store` | `store.dfy` | the graph core as the importer uses it |
| `References` | `references.dfy` | `findNode`, `getNode`, `getNodeId` |
| `Serializer` | `serializer.dfy` | `toJSON` |
| `Patch` | `patch.dfy` | the handlers for attributes, attribute meta, registry, pointers, pointer meta |
| `SetPatch` | `sets.dfy` | the handlers for sets and for member data deletion |
| `Dispatch` | `dispatch.dfy` | `_put`, `_delete`, and the member data puts |
| `Reconciler` | `reconciler.dfy` | `createNode`, `apply`, `import` |

Two properties hold throughout:

- Every handler edits the node it is given and nothing else (`Patch.Keeps`).
- Within that node, a handler edits only the fields of its own category
  (`Patch.Touches`).

Reconciliation keeps the store tree-shaped: every child's path is longer than
its parent's. This is what lets the deep export terminate.

`apply` does not accept what `toJSON` produces for a node with children:

- `toJSON` gives every child its GUID as `id`.
- `apply` resolves that `id` as a reference.
- A GUID is neither a path nor a tagged reference, so `apply` throws
  `Unknown tag` on the first child.

`Reconciler.ReimportRejectsGuids` states this. Applying a node's own export
does work when the node has no children: see
`Reconciler.ApplyOwnExportIdempotent`.

## Model

| member | source | states |
|---|---|---|
| Reconciler.IdParts | src/common/plugins/JSONImporter.js:160 | a falsy id has no tag; a truthy non-string id throws `TypeError`; a non-empty string splits into its tag (the text before the first colon) and its value (the text between the first and the second colon, or to the end; none without a colon) |
| Reconciler.ApplyTag | src/common/plugins/JSONImporter.js:160-168 | an `@name` or `@meta` tag names the new node after the tag's value, and no other node's attributes change; `@meta` also adds the node, and only it, to the root's meta set; `@name` changes no set; any other tag leaves the store alone; a tag without a value is refused by the core |
| Reconciler.NameNode | src/common/plugins/JSONImporter.js:162 | the new node's `name` becomes the value; no other node's attributes, no set, and no node's place in the tree change |
| Reconciler.MakeMeta | src/common/plugins/JSONImporter.js:165-167 | the node joins the root's meta set, which gains it and nothing else, and the assertion that it is then a meta node never fails; the only failure is a missing root |
| Reconciler.CreateNode | src/common/plugins/JSONImporter.js:155-171 | the new child has the next fresh path below `parent` and is appended to the parent's children; its base is the node at the base path, or none; a tagged id names it; every failure is `StoreRejected` or `TypeError`: a missing parent is `StoreRejected`, a truthy non-string id is `TypeError`, and an `@name`/`@meta` id without a value, an `@meta` id while the root is absent, and a fresh path already taken are `StoreRejected` |
| Reconciler.CreateNodeKeepsTree | src/common/plugins/JSONImporter.js:155-171 | creating a node keeps the store tree-shaped |
| Reconciler.CreateNodeKeepsAttributes | src/common/plugins/JSONImporter.js:155-171 | every node that existed before keeps its attributes |
| Reconciler.CreateNodeAddsMeta | src/common/plugins/JSONImporter.js:163-167 | with an `@meta` id, the root's meta set afterwards is the one before plus the new node |
| Reconciler.CreatedNameIsFound | src/common/plugins/JSONImporter.js:88-89 | when an `@name` reference resolves to nothing and `createNode` makes a node for it, the same reference then resolves to that new node |
| Reconciler.CreatedMetaIsFound | src/common/plugins/JSONImporter.js:88-89 | the same for `@meta` references, which are looked up among the meta nodes |
| Reconciler.ChildStates | src/common/plugins/JSONImporter.js:85-87 | the target children are the `children` array of the document; a missing or falsy `children` gives none; a `null` document throws; each child is strictly smaller than the document |
| Reconciler.ApplyChanges | src/common/plugins/JSONImporter.js:103-109 | the change loop edits only the node being applied, and an empty list changes nothing |
| Reconciler.ApplyOne | src/common/plugins/JSONImporter.js:104-108 | a `put` goes to `_put` and a `del` to `_delete`, each failing on an unknown category; a record of any other type changes nothing |
| Reconciler.Acted | src/common/plugins/JSONImporter.js:103-109 | the records the loop acts on are exactly the `put` and `del` records of the list |
| Reconciler.OtherKindsIgnored | src/common/plugins/JSONImporter.js:103-109 | applying a change list gives the same result as applying only its `put` and `del` records |
| Reconciler.ApplyChangesAppend | src/common/plugins/JSONImporter.js:103-109 | changes apply in order: a list split in two is the first part, then the second from the resulting store |
| Reconciler.DeleteAllNodes | src/common/plugins/JSONImporter.js:111-113 | after deleting the unmatched children, a node survives exactly when it lies below none of them |
| Reconciler.DeleteAllKeepsTree | src/common/plugins/JSONImporter.js:111-113 | deleting the unmatched children keeps the store tree-shaped |
| Reconciler.Apply | src/common/plugins/JSONImporter.js:84-114 | a `null` target throws `TypeError`; a successful reconciliation leaves a tree-shaped store that still holds the node |
| Reconciler.ApplyChildren | src/common/plugins/JSONImporter.js:86-96 | the child loop keeps the store tree-shaped and the node in it; it reports, in order, the node each target child was reconciled into, the first being the node its `id` finds or else the next fresh child; the working list ends as the current children with one occurrence of each of those nodes removed |
| Reconciler.MatchChildren | src/common/plugins/JSONImporter.js:84-96 | the loop starts from all current children of the node, a `null` target throws `TypeError`, and the leftover is the current children with one occurrence of each reconciled node removed |
| Reconciler.DeletionList | src/common/plugins/JSONImporter.js:85-96 | a current child is left for deletion exactly when it occurs more often among the current children than among the reconciled nodes: an unmatched child is always left, a matched child occurring once never |
| Reconciler.UnmatchedChildDeleted | src/common/plugins/JSONImporter.js:84-113 | after a successful `apply`, a current child that no target child was reconciled into is gone from the store |
| Reconciler.Finish | src/common/plugins/JSONImporter.js:99-113 | patching the node and then deleting the children left on the working list keeps the store tree-shaped and the node in it |
| Reconciler.FinishNodes | src/common/plugins/JSONImporter.js:103-113 | the tail of `apply` succeeds exactly when its change loop does, and then a node survives exactly when it lies below none of the deleted children |
| Reconciler.ApplyNoKids | src/common/plugins/JSONImporter.js:84-114 | with no target children, `apply` patches the node with `compare` of its deep export and the target, then deletes all its current children |
| Reconciler.ApplyWithoutChildren | src/common/plugins/JSONImporter.js:84-114 | with no target children, `apply` succeeds exactly when its patch does, and then exactly the nodes below none of the node's children remain |
| Reconciler.ApplyOwnShallowExport | src/common/plugins/JSONImporter.js:84-114 | when the diff of equal documents is empty, applying a node's shallow export only deletes its children |
| Reconciler.ApplyOwnExportIdempotent | src/common/plugins/JSONImporter.js:84-114 | when the diff of equal documents is empty, applying a childless node's own export changes nothing |
| Reconciler.FirstChildUnresolved | src/common/plugins/JSONImporter.js:87-89 | when resolving the first target child's `id` fails, `apply` fails with that error |
| Reconciler.GuidFirstKidRejected | src/common/plugins/JSONImporter.js:87-89 | a target whose first child has a GUID-like `id` fails with `Unknown tag`, naming that id |
| Reconciler.DeepExportFirstKid | src/common/plugins/JSONImporter.js:74-79 | the first child document of a deep export carries the first child's GUID as `id` |
| Reconciler.ReimportRejectsGuids | src/common/plugins/JSONImporter.js:84-114 | applying a deep export whose first child has a GUID-like GUID fails with `Unknown tag`, in any store and at any node |
| Reconciler.PutAttributeExported | src/common/plugins/JSONImporter.js:197-205 | an attribute put always succeeds, keeps the store tree-shaped, and the new value shows in the node's export |
| Reconciler.Import | src/common/plugins/JSONImporter.js:191-194 | `import` fails on a missing parent; on success the store is tree-shaped and holds the new child |
| Reconciler.ImportAppliesToNewChild | src/common/plugins/JSONImporter.js:191-194 | `import` is `apply` of the document to the store's next child of `parent`, created with no id, in the store creation leaves; a failed creation is the import's failure |
| Dispatch.PutChange | src/common/plugins/JSONImporter.js:173-179 | an unknown first key segment throws; otherwise the handler edits only that node, and only the fields of that category |
| Dispatch.PutMember | src/common/plugins/JSONImporter.js:327-385 | an incomplete member key with a `null` value throws `TypeError`; the put edits only the member data of its category |
| Dispatch.ExpandFromEnd | src/common/plugins/JSONImporter.js:332-341 | expanding the entries from last to first edits only the member data of the category; no entries means no change |
| Dispatch.EntryPut | src/common/plugins/JSONImporter.js:339-345 | one put of a member key's expansion, `[category, set, member, name]`: it fails with the reference's error when the member does not resolve, and otherwise succeeds exactly when the resolved node is a member of the set; then that name reads back the entry's value, and every other name and every other member's data is unchanged |
| Dispatch.EntryLeaf | src/common/plugins/JSONImporter.js:342-345 | the member handler on `[category, set, member, name]` fails with the member reference's error, succeeds exactly when the member belongs to the set, and then sets that one name of the member's data, keeping its other names and every other pair; the registry handler (lines 374-384) does the same for a four-segment key |
| Dispatch.ExpandMemberEntries | src/common/plugins/JSONImporter.js:331-345 | the expansion of a member key `[category, set, member]` fails with the reference's error when there is an entry and the member does not resolve; when it resolves, it succeeds exactly when there are no entries or the node is a member of the set; the member's data then holds each entry's value, the first entry of a repeated name winning because the loop runs from the last entry, keeps every other name, and no other member's data changes |
| Dispatch.GroupStep | src/common/plugins/JSONImporter.js:331-341 | one group of a set key `[category, set]`: its put succeeds exactly when the group is accepted (its data is not `null`, and unless it is empty its reference resolves to a member of the set); its entries are then written over that member's data, and every other member's data is kept |
| Dispatch.ExpandGroups | src/common/plugins/JSONImporter.js:331-341 | following the groups of a set key one by one from the last gives exactly the expansion loop; it succeeds exactly when every group is accepted; each member's data then holds, for each name, the value of the first group resolving to that member that supplies the name, and keeps its own value otherwise |
| Dispatch.ExpandGroupsAccepted | src/common/plugins/JSONImporter.js:331-341 | the expansion of a set key succeeds exactly when each of its groups is accepted |
| Dispatch.ExpandMemberGroups | src/common/plugins/JSONImporter.js:331-341 | after a successful expansion of a set key, every member's data holds the values the groups assign it (`GroupValue`) and keeps its own value for names no group supplies |
| Dispatch.MemberLeafNested | src/common/plugins/JSONImporter.js:375-380 | a registry key longer than four segments succeeds exactly when the member resolves and belongs to the set, its entry exists, and `setNested` succeeds on it; the entry becomes what `setNested` returns, and along a path of objects the value reads back at the rest of the key |
| Dispatch.MemberLeaf | src/common/plugins/JSONImporter.js:374-384 | it fails with the reference's error when the member reference does not resolve; otherwise, for an attribute key or a four-segment registry key, it succeeds exactly when the set and name segments are names and the resolved node is a member (a longer registry key also needs the entry and `setNested`, see `Dispatch.MemberLeafNested`); on success the entry is set to the value, or written into with `setNested` for a longer registry key; every other entry and every other (set, member) pair is unchanged |
| Dispatch.DeleteChange | src/common/plugins/JSONImporter.js:181-189 | an unknown first key segment throws; a key of one segment changes nothing; otherwise the handler edits only that node, and only the fields of that category |
| Patch.ParseCategory | src/common/plugins/JSONImporter.js:174-176 | a handler is found exactly when the first segment is one of the eight category names |
| Patch.PutAttributes | src/common/plugins/JSONImporter.js:197-205 | a key other than two segments fails its assertion; otherwise the attribute is set to the value and every other attribute is unchanged |
| Patch.PutTable | src/common/plugins/JSONImporter.js:216-226 | a two-segment key sets the entry to the value; a deeper key writes into an existing entry, and throws `TypeError` when the entry is absent; other entries are unchanged |
| Patch.PutNestedEntry | src/common/plugins/JSONImporter.js:219-222 | reading an absent entry to write into throws `TypeError`; on success only that entry of that table changes |
| Patch.PutTableNested | src/common/plugins/JSONImporter.js:219-222 | when the path leads through objects, the nested put succeeds, the value reads back at that path inside the entry, and every diverging path is unchanged |
| Patch.DelTable | src/common/plugins/JSONImporter.js:207-214 | a key other than two segments fails its assertion; otherwise exactly that entry goes and the others stay |
| Patch.PutPointers | src/common/plugins/JSONImporter.js:237-245 | a key other than two segments fails its assertion; an unresolvable target fails with the resolution error; otherwise the pointer targets the resolved node and other pointers are unchanged |
| Patch.DelPointers | src/common/plugins/JSONImporter.js:247-254 | a key other than two segments fails its assertion; otherwise exactly that pointer goes |
| Patch.TargetBound | src/common/plugins/JSONImporter.js:271-273 | a target entry yields its resolved node and bounds; it fails on an unresolvable key, or on a `null` value |
| Patch.LimitsOf | src/common/plugins/JSONImporter.js:262 | the bounds of an object are its `min` and `max` properties; reading them from `null` throws `TypeError` |
| Patch.ResolveAll | src/common/plugins/JSONImporter.js:270-274 | every entry resolves exactly when each one does, and then the results are the entries' bounds in order; a failure is one of the entries' errors |
| Patch.ApplyBounds | src/common/plugins/JSONImporter.js:270-274 | writing the bounds from last to first leaves the rule's own bounds and every other rule alone; the rule's targets become the `PutAll` of them |
| Patch.PutAllGet | src/common/plugins/JSONImporter.js:270-274 | after writing from last to first, each target holds the bounds of its lowest-indexed entry, and a target no entry names keeps its old bounds |
| Patch.FirstBoundSpec | src/common/plugins/JSONImporter.js:270-274 | `FirstBound` is none exactly when no entry names the target, and is otherwise the bounds of the lowest-indexed entry naming it |
| Patch.SetTargets | src/common/plugins/JSONImporter.js:264-274 | the target loop succeeds exactly when every entry resolves and has non-null bounds; it keeps the rule's own bounds and every other rule |
| Patch.SetTargetsFirst | src/common/plugins/JSONImporter.js:264-274 | each node an entry resolves to ends with the bounds of the first entry resolving to it |
| Patch.SetTargetsOthers | src/common/plugins/JSONImporter.js:264-274 | a node no entry resolves to keeps its bounds |
| Patch.PutPointerMeta | src/common/plugins/JSONImporter.js:256-287 | a success edits only that rule of the pointer meta and leaves it defined; a whole rule given as `null` throws `TypeError`; a `min`, `max` or target put on an absent rule throws `TypeError` |
| Patch.PutWholeRuleAccepted | src/common/plugins/JSONImporter.js:260-274 | a whole-rule put succeeds exactly when every target entry resolves and has non-null bounds |
| Patch.PutWholeRule | src/common/plugins/JSONImporter.js:260-274 | after a whole-rule put, the rule's bounds are the value's `min` and `max`; each resolved target has the bounds of its first entry; every other target is unchanged |
| Patch.PutRuleBound | src/common/plugins/JSONImporter.js:275-278 | a `min` or `max` put on an existing rule goes through; that bound becomes the value; the targets stay; the other bound stays unless a target's path is that bound's name |
| Patch.PutRuleTarget | src/common/plugins/JSONImporter.js:279-285 | a target put on an existing rule goes through exactly when `setNested` on the reported rule succeeds, the third segment resolves and the entry read back is present and not `null`; the resolved node gets that entry's bounds; the rule's bounds and other targets stay |
| Patch.PutTargetWhole | src/common/plugins/JSONImporter.js:279-285 | `[pointer_meta, name, target]` goes through exactly when the target resolves and the value is not `null`; the resolved node gets the value's bounds |
| Patch.PutTargetBound | src/common/plugins/JSONImporter.js:279-285 | a four-segment key ending in `min` or `max` goes through exactly when the rule lists the third segment as a target path and that segment resolves; the resolved node gets the listed bounds with that one replaced |
| Patch.SetTargetBoundJson | src/common/plugins/JSONImporter.js:280-282 | writing a bound under a target path into the reported rule works exactly when the rule lists that path, and reads back as its bounds with that one replaced |
| Patch.DelPointerMetaKey | src/common/plugins/JSONImporter.js:289-297 | a two-segment key removes the whole rule; a longer key removes one target and keeps the rule's bounds and other targets; an absent rule stays absent |
| SetPatch.AddMemberGrows | src/common/plugins/JSONImporter.js:308 | adding a node of the store to a set only grows that set |
| SetPatch.AddMembers | src/common/plugins/JSONImporter.js:306-309 | the member loop only grows the set |
| SetPatch.AddMembersResolves | src/common/plugins/JSONImporter.js:306-309 | unless the set is the root's meta set and an `@meta:` reference is listed, the member loop succeeds exactly when every listed reference resolves in the store it starts from, and then every resolved node is a member |
| SetPatch.NewSet | src/common/plugins/JSONImporter.js:302-309 | creating a set from a `null` list throws `TypeError`; otherwise the set only grows and the node is edited nowhere else |
| SetPatch.AddOne | src/common/plugins/JSONImporter.js:310-313 | an unresolvable reference fails with its error; otherwise the resolved node becomes a member |
| SetPatch.PutSets | src/common/plugins/JSONImporter.js:299-314 | a success edits only the named set and only grows it; a `null` list throws `TypeError`; a longer key adds the one resolved node |
| SetPatch.PutWholeSet | src/common/plugins/JSONImporter.js:302-309 | unless the set is the root's meta set and an `@meta:` reference is listed, a whole-set put succeeds exactly when every listed reference resolves, and then every resolved node is a member |
| SetPatch.MemberAt | src/common/plugins/JSONImporter.js:322 | indexing the member list reads the member at the array index the segment names, whether the segment is a number or its decimal name (`"0"` reads the first member); any other segment reads `undefined` |
| Json.IndexNameOfNat | src/common/plugins/JSONImporter.js:322 | the decimal name of every natural number denotes that number as an array index, so a numeric segment and its name read the same element |
| SetPatch.DelSets | src/common/plugins/JSONImporter.js:316-325 | a two-segment key removes the set and all member data of the set; a longer key removes the indexed member and its data, and fails when the index is not a member; other sets are unchanged |
| SetPatch.DelNames | src/common/plugins/JSONImporter.js:354-356 | deleting a list of names fails exactly when the node is not a member of the set; it edits only the member data of its category |
| SetPatch.RemoveNamesGet | src/common/plugins/JSONImporter.js:354-356 | after the loop exactly the listed names are gone and every other entry stays |
| SetPatch.DelNamesTable | src/common/plugins/JSONImporter.js:354-356 | after the loop the pair's data is its old data without the listed names, and no other pair's data changed |
| SetPatch.DelMemberData | src/common/plugins/JSONImporter.js:348-357 | a success edits only the member data of the category; with a name, it succeeds exactly when the node is a member of the set |
| SetPatch.DelMemberDataTable | src/common/plugins/JSONImporter.js:348-357 | the pair's data loses exactly the names the handler lists, and no other pair's data changes |
| SetPatch.DelAllMemberData | src/common/plugins/JSONImporter.js:350-352 | without a name, none of the pair's data is left |
| SetPatch.DelOneMemberData | src/common/plugins/JSONImporter.js:350-356 | with a name, exactly that entry of the pair's data goes |
| References.Pieces | src/common/plugins/JSONImporter.js:127 | `split(':')` yields at least one piece, and no piece holds a colon |
| References.JoinPieces | src/common/plugins/JSONImporter.js:127 | joining the pieces with colons gives the id back |
| References.PiecesJoin | src/common/plugins/JSONImporter.js:127 | splitting a join of colon-free pieces gives the pieces back |
| References.TaggedReference | src/common/plugins/JSONImporter.js:127 | a tag and a value without colons, joined by a colon, split back into that tag and that value |
| References.FirstNamed | src/common/plugins/JSONImporter.js:130-135 | the result is the first candidate whose `name` attribute equals the value, or none when no candidate matches |
| References.FindNode | src/common/plugins/JSONImporter.js:116-140 | an undefined id finds nothing; a non-string fails; a path finds the node at that path; `@meta` and `@name` find the first meta node or child with that name; any other tag throws `Unknown tag`; a found node exists |
| References.GuidUnresolvable | src/common/plugins/JSONImporter.js:122-139 | a GUID-like reference throws `Unknown tag`, naming the whole reference as the tag |
| References.GetNode | src/common/plugins/JSONImporter.js:142-148 | `getNode` throws when `findNode` finds nothing, passes on its errors, and otherwise returns the node it found |
| References.GetNodeId | src/common/plugins/JSONImporter.js:150-153 | `getNodeId` succeeds exactly when `getNode` does, and returns the path of that node |
| References.ResolutionFrame | src/common/plugins/JSONImporter.js:116-148 | two stores that agree on what resolution reads resolve every reference alike |
| References.NonMetaResolutionFrame | src/common/plugins/JSONImporter.js:116-140 | a reference other than `@meta:` resolves alike in stores that agree on paths, child lists and names, whatever the root's meta set holds |
| References.EditKeepsResolution | src/common/plugins/JSONImporter.js:116-148 | an edit of one node that keeps its `name`, and the meta set when the node is the root, keeps resolution |
| Serializer.MemberSectionKeepsLastOnly | src/common/plugins/JSONImporter.js:52-72 | as written, in `member_attributes` and `member_registry` each set with members holds the data of its last member alone, and a set without members has no entry |
| Serializer.AsWrittenDropsFirstMember | src/common/plugins/JSONImporter.js:56-71 | as written, when a set's first and last members differ, the first member has no data in the export |
| Serializer.MemberObjectsGet | src/common/plugins/JSONImporter.js:56-71 | a set's object has an entry for exactly its members, each holding that member's data |
| Serializer.MemberSectionKeepsAll | src/common/plugins/JSONImporter.js:52-72 | each set with members has one entry holding every member's data; a set without members, or a name that is not a set, has none |
| Serializer.EveryMemberKept | src/common/plugins/JSONImporter.js:56-71 | the corrected half of the finding, not what the loop computes: with each set's entry created once, every member of every set has its data under the set's name and the member's path |
| Serializer.Header | src/common/plugins/JSONImporter.js:19-29 | the document's fields are the nine sections before `children`, led by the GUID as `id` and then the attributes |
| Serializer.PathStrings | src/common/plugins/JSONImporter.js:52-54 | a set is reported as its member paths, one string per member, in order |
| Serializer.PointersJsonGet | src/common/plugins/JSONImporter.js:40-42 | a pointer's entry is its target path as a string, and a name without a pointer has no entry |
| Serializer.RulesJsonGet | src/common/plugins/JSONImporter.js:44-46 | a pointer rule's entry is the rule as `getPointerMeta` reports it, and a name without a rule has no entry |
| Serializer.SetsJsonGet | src/common/plugins/JSONImporter.js:52-54 | a set's entry is the list of its member paths, and a name without a set has no entry |
| Serializer.DocumentSections | src/common/plugins/JSONImporter.js:19-72 | the document holds `attribute_meta`, `pointers`, `pointer_meta`, `registry`, `sets`, `member_attributes` and `member_registry` as objects, each built from the matching table of the node |
| Serializer.ExportSections | src/common/plugins/JSONImporter.js:18-54 | a node's export holds its attribute meta and registry tables as stored, each pointer's target path, each pointer rule as reported, and each set's member paths, under the same names |
| Serializer.ExportMemberSections | src/common/plugins/JSONImporter.js:52-71 | a node's export holds, for each set with members, only the last member's data in both per-member sections, and nothing for a set without members |
| Serializer.Document | src/common/plugins/JSONImporter.js:19-81 | the document has ten fields: the GUID as `id` first, the given children last |
| Serializer.DocumentFields | src/common/plugins/JSONImporter.js:19-34 | the document's `id` is the GUID, its `attributes` the node's attributes, and its `children` the given list |
| Serializer.Export | src/common/plugins/JSONImporter.js:18-82 | the export is a ten-field document whose `id` is the node's GUID |
| Serializer.ExportEach | src/common/plugins/JSONImporter.js:76-78 | there is one child document for each child visited |
| Serializer.ExportFrom | src/common/plugins/JSONImporter.js:74-79 | a deep export has one child document for each child of the node |
| Serializer.ExportFields | src/common/plugins/JSONImporter.js:18-82 | the export's `id`, `attributes` and `children` are the GUID, the attributes, and nothing when shallow or else the deep exports of the children |
| Serializer.DocumentChildrenInvisible | src/common/plugins/JSONImporter.js:425-430 | what `compare` sees of a document does not depend on its `children` |
| Serializer.ExportDepthInvisible | src/common/plugins/JSONImporter.js:99-100 | what `compare` sees of a node's export is the same for a deep and a shallow export |
| Changes.CompareIgnoresIdAndChildren | src/common/plugins/JSONImporter.js:425-430 | changing `id` or `children` in either document does not change the change list |
| JsObjects.Omit | src/common/plugins/JSONImporter.js:419-423 | the result is an object; a listed key is absent from it; every other key reads as in the input's own entries; it holds no entry the input does not |
| JsObjects.SetNested | src/common/plugins/JSONImporter.js:438-445 | writing into `null` throws `TypeError`, and so does walking through a missing property; an object stays an object |
| JsObjects.SetNestedOnObjects | src/common/plugins/JSONImporter.js:438-445 | along a path of objects, `setNested` succeeds, the value reads back at the path, and every path diverging from it reads as before |
| Json.Assign | src/common/plugins/JSONImporter.js:277 | writing a property of an object sets it and keeps every other property; a write to a primitive is lost; a write to `null` throws |
| Json.Entries | src/common/plugins/JSONImporter.js:264 | `Object.entries` throws on `null`, and otherwise lists the value's own entries in order |
| Seqs.IndexOf | src/common/plugins/JSONImporter.js:91 | the index is -1 exactly when the element is absent, and otherwise is its first occurrence |
| Seqs.RemoveFirst | src/common/plugins/JSONImporter.js:91-94 | when the element occurs, exactly one occurrence of it leaves the list; otherwise the list is unchanged |
| Seqs.RemoveEach | src/common/plugins/JSONImporter.js:86-94 | removing each listed element once in turn leaves exactly the multiset difference, and only elements of the original list |

## Left out

- The graph core (`this.core`) is not part of this model. The `Store` module
  states the behaviour the importer relies on:
  - a name or path argument that is missing or not a string is refused;
  - a missing node is refused;
  - tables keep their insertion order;
  - `createNode` makes a fresh child path from a counter;
  - `deleteNode` removes the whole subtree;
  - `getAllMetaNodes` lists the existing members of the root's meta set;
  - member data exists only for current members.
- The diff algorithm (`./changeset`) is not part of this model. `compare`
  takes it as a function parameter, and nothing is assumed about what it
  returns.
- `rootNode` and the base path `/1` are configuration (`Config`), not a node
  object and a constant lookup.
- Loading is synchronous. `async`/`await`, promises and I/O are not modelled;
  the importer awaits every call in sequence, so the order of effects is the same.
- A failure returns only the error. The source throws part-way through and
  leaves earlier edits in the store; the model does not keep them.
- Numbers are integers. Floating-point values in documents are not modelled.
- Loops over `length` read an array element by element and a string one
  `char` at a time. An object with a numeric `length` property reads as having
  no elements, where the source would loop over that many indices.
- Json.Entries, Json.Elements and Json.Prop: a string is indexed by Unicode
  scalar value (Dafny's `char`), where JavaScript indexes it by UTF-16 code
  unit. A string holding a character outside the Basic Multilingual Plane
  therefore has a different `length`, different elements and different
  entries. With `children: "😀"`, `apply` creates two children in the
  source and one in the model. A member-data put whose value is such a
  string fails on its last entry with `Unknown tag: 1` in the source and
  `Unknown tag: 0` in the model. `memberPaths.length` in `_put.sets` and
  `Object.assign` in `omit` differ in the same way.
- JavaScript enumerates integer-like property names first, in ascending order.
  The model keeps every key of an object in insertion order.
- SetPatch.MemberAt: `length` read from the member list is a number, which
  the source hands to `delMember`; the model reads it as `undefined`. The
  core refuses both as a member path. Array indices are not capped at
  2^32 - 2 as in JavaScript.
- A write to an array under a name that is not an index, such as
  `arr.foo = v` in `setNested`, is dropped: documents and store values are
  JSON, which keeps only the elements of an array.
- Patch.ResolveAll: the failure contract says only that the error is one of
  the entries' errors. The loop reports the error of the highest-indexed
  failing entry, and the model computes that same error, but the contract
  does not pin it down.
- Patch.PutPointerMeta: the whole-rule case is modelled in two phases: every
  target entry is resolved, then all bounds are written. The source
  alternates the two. Writing pointer meta does not change what a reference
  resolves to (`Patch.PointerMetaKeepsResolution`), so the outcome is the same.
- Reconciler.ApplyChildren: a child's reconciliation can delete the node
  being applied. A path `id` may name the node itself or one of its
  ancestors: applying `{children: [{id: "/a"}]}` to `/a/b` reconciles `/a`
  with a childless document, which deletes `/a/b`. The source then goes on
  working on the detached node, whose behaviour the core does not define
  here; the model fails with `StoreRejected` instead.
- Patch.ParseCategory: `this._put[type]` and `this._delete[type]` look the
  name up on a function object, so names every function inherits are found
  too. With `valueOf`, `hasOwnProperty`, `isPrototypeOf`,
  `propertyIsEnumerable` or `toLocaleString` the handler call succeeds and
  edits nothing; with `name`, `length`, `call`, `apply`, `bind`, `toString`,
  `constructor` or `__proto__` it throws an error other than
  `Unrecognized key`. The model recognises only the eight category names and
  fails on every other name with `UnsupportedCategory`.
- Dispatch.PutChange: through `Patch.ParseCategory`, a put whose first key
  segment is an inherited function property fails with `UnsupportedCategory`
  where the source succeeds without an edit or throws another error.
- Dispatch.DeleteChange: the same holds for deletes; in the source a
  one-segment key with an inherited name succeeds.
- Reconciler.ApplyTag: an `@name` or `@meta` id with no value after the
  colon would set `name` to `undefined`. The model treats this as the core
  refusing the argument (`StoreRejected`).
- The importer's `assert` helper (lines 432-436) has no member of its own. It
  is modelled where it is used: `UnsupportedShape` for the key-length
  assertions, `ReferenceNotAString` in `findNode`, and `ConsistencyViolation`
  in `createNode`.
- Attribute inheritance is not modelled. A node's attributes are its own
  attributes, and `getAttribute` reads only those; the core's lookup through
  the base node is not part of this model.
- Reconciler.Apply, Reconciler.ApplyChanges, Reconciler.Finish,
  Dispatch.PutChange, Dispatch.DeleteChange and Serializer.Export: the
  contracts of these compositions state their error cases, the shape of the
  result, and a frame or the tree invariant. What each step writes is stated
  by the handlers' contracts and by the lemmas about the compositions
  (`Reconciler.FinishNodes`, `Reconciler.DeletionList`,
  `Reconciler.UnmatchedChildDeleted`, `Reconciler.ApplyChangesAppend`). What
  the export holds is stated by `Serializer.ExportFields`,
  `Serializer.ExportSections` and `Serializer.ExportMemberSections`.
- Serializer.Header: its own contract gives only the field count, `id`,
  `attributes` and the absence of `children`. What every other section holds
  is stated by `Serializer.DocumentSections` and, for a node of the store, by
  `Serializer.ExportSections` and `Serializer.ExportMemberSections`.
- SetPatch.AddMembersResolves and SetPatch.PutWholeSet say nothing when the
  set is the root's meta set and an `@meta:` reference is listed. There a
  node added earlier in the loop can be what a later `@meta:` reference
  finds, so with `/r/1` named `foo`, `["/r/1", "@meta:foo"]` is accepted
  although `@meta:foo` does not resolve beforehand. `SetPatch.AddMembers`
  models that loop as written; its contract gives only growth of the set.
- Reconciler.ApplyChildren: the contract names the first reconciled node in
  terms of the store the loop starts from. Each later one is the node the
  next target child's `id` finds in the store the earlier children left,
  which the recursive call's own contract states; the store each child's
  reconciliation leaves is not described beyond the tree invariant.

## Findings

| source | as written | input that shows it | evidently intended | confidence | as-written member | corrected member |
|---|---|---|---|---|---|---|
| src/common/plugins/JSONImporter.js:56-71 | `member_attributes[name]` and `member_registry[name]` are reset to `{}` for each member, so the set's entry keeps only the last member's data | a node with one set holding two distinct members | every member's data is kept under the set's entry | not executed | Serializer.AsWrittenDropsFirstMember | Serializer.MemberSectionKeepsAll |
