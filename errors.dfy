/** Outcomes shared by every part of the model: the exceptions the B+Tree
    code can raise, and the wrappers that carry them instead of raising. */
module Errors {

  datatype Option<+T> = None | Some(value: T)

  /** Every way an operation of the tree can stop early. */
  datatype Error =
    | DuplicateKey    // DuplicateKeyError: the key is already in the leaf
    | NotImplemented  // NotImplementedError: insertion reached a branch node
    | Corrupt         // struct.error on a short length field, or a pair blob that does not decode
    | BadBranch       // IndexError: a branch has too few children for the key that was routed
    | NoSuchPage      // the page pool has no page with the requested id
    | PoolExhausted   // the page pool cannot hand out another page id
    | TooDeep         // RecursionError: descent went deeper than the recursion limit
    | LeafOverflow    // the rewritten leaf no longer fits in its fixed-size page

  datatype Result<+T> = Ok(value: T) | Err(error: Error)
}
