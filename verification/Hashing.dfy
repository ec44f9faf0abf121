/** What a hypothesis on SHA-256 says. */
module Hashing {
  /** No two inputs have one digest. */
  ghost predicate CollisionFree<T(!new)>(hash: T -> string) {
    forall x, y :: hash(x) == hash(y) ==> x == y
  }
}
