/** The hash function of a log. Every result below holds for every `LogHasher`: nothing is
    assumed about `children`, so a soundness theorem hands back a collision instead. */
module Hashing {

  /** A fixed-size digest. */
  type Hash(==, 0, !new)

  datatype LogHasher = LogHasher(children: (Hash, Hash) -> Hash, emptyRoot: Hash) {

    function HashChildren(l: Hash, r: Hash): Hash {
      children(l, r)
    }
  }

  /** Two pairs of hashes: the inputs of a claimed collision. */
  datatype Pairs = Pairs(l1: Hash, r1: Hash, l2: Hash, r2: Hash) {

    predicate Collides(h: LogHasher) {
      (l1 != l2 || r1 != r2) && h.HashChildren(l1, r1) == h.HashChildren(l2, r2)
    }
  }

  datatype Option<+T> = None | Some(value: T)

  datatype Result<+T, +E> = Ok(value: T) | Err(error: E)
}
