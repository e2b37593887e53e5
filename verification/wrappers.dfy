/** Failure-compatible wrappers used throughout the importer model. */
module Wrappers {

  /** A value that may be absent; `None` plays the role of JavaScript's `undefined`. */
  datatype Option<+T> = None | Some(value: T)

  /** The outcome of an operation that may throw. */
  datatype Result<+T, +E> = Success(value: T) | Failure(error: E) {

    predicate IsFailure() {
      Failure?
    }

    function PropagateFailure<U>(): Result<U, E>
      requires Failure?
    {
      Failure(error)
    }

    function Extract(): T
      requires Success?
    {
      value
    }
  }
}

/** The exceptions the importer can raise, one per kind of `throw` or failed `assert`. */
module Errors {

  datatype Error =
      /** `getNode` found nothing for a reference string. */
    | ReferenceNotFound
      /** `findNode` met a tag other than `@meta` and `@name`. */
    | UnknownReferenceTag(tag: string)
      /** `findNode` was handed a defined id that is not a string. */
    | ReferenceNotAString
      /** `_put` or `_delete` met a first key segment with no handler. */
    | UnsupportedCategory
      /** A handler's assertion on the length of the change key failed. */
    | UnsupportedShape
      /** `createNode` did not find the new meta node among the meta nodes. */
    | ConsistencyViolation
      /** JavaScript read or wrote a property of `undefined` or `null`. */
    | TypeError
      /** The node store refused its arguments (a missing name, an absent node or member). */
    | StoreRejected
}
