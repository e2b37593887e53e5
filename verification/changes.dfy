/**
  Change records and `compare` (JSONImporter.js:425-430). The diff algorithm
  itself lives in `./changeset`, which is not part of this model: it is a
  parameter of type `Diff`, and nothing is assumed about what it returns.
*/
module Changes {
  import opened Json
  import opened JsObjects
  import Assoc

  /** The `type` field of a change record; only `put` and `del` are acted on. */
  datatype Kind = Put | Del | OtherKind(name: string)

  /** `{type, key, value}`; `key[0]` names the category. */
  datatype Change = Change(kind: Kind, key: seq<Seg>, value: Json)

  /** The external diff: the change records that turn the first document into the second. */
  type Diff = (Json, Json) -> seq<Change>

  /** The document fields `compare` ignores. */
  const Ignored: seq<string> := ["id", "children"]

  /** `compare(current, target)`: the diff of the two documents without `id` and `children`. */
  function Compare(diff: Diff, current: Json, target: Json): seq<Change>
  {
    diff(Omit(current, Ignored), Omit(target, Ignored))
  }

  /**
    Whatever `id` or `children` the two documents hold, the diff sees the same
    inputs: writing either field on either side leaves `compare` unchanged.
  */
  lemma CompareIgnoresIdAndChildren(diff: Diff, current: Assoc.Assoc<Json>, target: Assoc.Assoc<Json>,
                                    k: string, v: Json)
    requires k in Ignored
    ensures Compare(diff, JObj(Assoc.Put(current, k, v)), JObj(target))
         == Compare(diff, JObj(current), JObj(target))
    ensures Compare(diff, JObj(current), JObj(Assoc.Put(target, k, v)))
         == Compare(diff, JObj(current), JObj(target))
  {
    Assoc.WithoutPutListed(current, Ignored, k, v);
    assert Omit(JObj(Assoc.Put(current, k, v)), Ignored) == Omit(JObj(current), Ignored);
    Assoc.WithoutPutListed(target, Ignored, k, v);
    assert Omit(JObj(Assoc.Put(target, k, v)), Ignored) == Omit(JObj(target), Ignored);
  }
}
