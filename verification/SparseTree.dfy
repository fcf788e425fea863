/** Sparse Merkle trees over a map from leaf indices to leaf hashes, defined naively: an empty branch has a hash
    that depends on its position and height, any other node is the hash of its children. */
module SparseTree {
  import opened Bits
  import opened Hashing
  import opened LogTree

  type Value(==, 0, !new)

  /** The hash functions of a map. `bits` is the height of its tree; an empty branch is named by the index of
      its first leaf and its height. */
  datatype MapHasher = MapHasher(
    bits: nat,
    empty: (nat, nat) -> Hash,
    leaf: (nat, Value) -> Hash,
    children: (Hash, Hash) -> Hash)
  {
    function HashEmpty(index: nat, height: nat): Hash {
      empty(index, height)
    }

    function HashLeaf(index: nat, value: Value): Hash {
      leaf(index, value)
    }

    function HashChildren(l: Hash, r: Hash): Hash {
      children(l, r)
    }
  }

  /** Node `x` at height `t` has no entry of `m` below it, where `m` is keyed by the nodes at height `b`. */
  predicate Vacant(m: map<nat, Hash>, b: nat, t: nat, x: nat)
    requires b <= t
  {
    forall y :: y in m ==> Shr(y, t - b) != x
  }

  /** The hash of node `x` at height `t`, when `m` gives the hashes of the non-empty nodes at height `b`. */
  function Tree(mh: MapHasher, m: map<nat, Hash>, b: nat, t: nat, x: nat): Hash
    requires b <= t
    decreases t
  {
    if Vacant(m, b, t, x) then mh.HashEmpty(Shl(x, t), t)
    else if t == b then m[x]
    else mh.HashChildren(Tree(mh, m, b, t - 1, 2 * x), Tree(mh, m, b, t - 1, 2 * x + 1))
  }

  /** The root hash of a whole map. */
  function MapRoot(mh: MapHasher, m: map<nat, Hash>): Hash {
    Tree(mh, m, 0, mh.bits, 0)
  }

  /** `m` and `m'` have the same entries below node `x` at height `t`. */
  ghost predicate SameBelow(m: map<nat, Hash>, m': map<nat, Hash>, b: nat, t: nat, x: nat)
    requires b <= t
  {
    forall y: nat :: Shr(y, t - b) == x ==> (y in m <==> y in m') && (y in m ==> m[y] == m'[y])
  }

  lemma SameBelowChildren(m: map<nat, Hash>, m': map<nat, Hash>, b: nat, t: nat, x: nat)
    requires b < t && SameBelow(m, m', b, t, x)
    ensures SameBelow(m, m', b, t - 1, 2 * x) && SameBelow(m, m', b, t - 1, 2 * x + 1)
  {
    var n := t - 1 - b;
    forall y: nat | Shr(y, n) == 2 * x || Shr(y, n) == 2 * x + 1 ensures Shr(y, n + 1) == x {
      ShrStep(y, n);
    }
  }

  /** A node's hash depends on the entries below it only. */
  lemma {:induction false} TreeFrame(mh: MapHasher, m: map<nat, Hash>, m': map<nat, Hash>, b: nat, t: nat, x: nat)
    requires b <= t && SameBelow(m, m', b, t, x)
    ensures Vacant(m, b, t, x) <==> Vacant(m', b, t, x)
    ensures Tree(mh, m, b, t, x) == Tree(mh, m', b, t, x)
    decreases t
  {
    if t > b {
      SameBelowChildren(m, m', b, t, x);
      TreeFrame(mh, m, m', b, t - 1, 2 * x);
      TreeFrame(mh, m, m', b, t - 1, 2 * x + 1);
    }
  }

  lemma VacantChildren(m: map<nat, Hash>, b: nat, t: nat, x: nat)
    requires b < t
    ensures Vacant(m, b, t, x) <==> Vacant(m, b, t - 1, 2 * x) && Vacant(m, b, t - 1, 2 * x + 1)
  {
    forall y | y in m
      ensures Shr(y, t - b) == x <==> Shr(y, t - 1 - b) == 2 * x || Shr(y, t - 1 - b) == 2 * x + 1
    {
      ShrStep(y, t - 1 - b);
    }
  }

  lemma VacantEntry(m: map<nat, Hash>, b: nat, x: nat)
    ensures Vacant(m, b, b, x) <==> x !in m
  {
    forall y | y in m ensures Shr(y, 0) == y { ShiftNothing(y); }
  }

  // ---------- what was hashed ----------

  /** What was hashed. */
  datatype Preimage = OfLeaf(index: nat, value: Value) | OfEmpty(first: nat, height: nat) | OfNode(l: Hash, r: Hash)

  function HashOf(mh: MapHasher, p: Preimage): Hash {
    match p
    case OfLeaf(index, value) => mh.HashLeaf(index, value)
    case OfEmpty(first, height) => mh.HashEmpty(first, height)
    case OfNode(l, r) => mh.HashChildren(l, r)
  }

  datatype Preimages = Preimages(p: Preimage, q: Preimage) {
    predicate Collides(mh: MapHasher) {
      p != q && HashOf(mh, p) == HashOf(mh, q)
    }
  }

  /** Some hashers hash an empty branch as the node over its two empty halves (merkle/maphasher), so that the two
      preimages of an empty branch are no collision. */
  ghost predicate EmptiesAreNodes(mh: MapHasher) {
    forall t: nat, x: nat :: EmptyIsNode(mh, t, x)
  }

  predicate EmptyIsNode(mh: MapHasher, t: nat, x: nat) {
    mh.HashEmpty(Shl(x, t + 1), t + 1) ==
        mh.HashChildren(mh.HashEmpty(Shl(2 * x, t), t), mh.HashEmpty(Shl(2 * x + 1, t), t))
  }

  /** For these hashers every node above the leaves is hashed from its children. */
  lemma NodeHash(mh: MapHasher, m: map<nat, Hash>, t: nat, x: nat)
    requires EmptiesAreNodes(mh)
    ensures Tree(mh, m, 0, t + 1, x) == mh.HashChildren(Tree(mh, m, 0, t, 2 * x), Tree(mh, m, 0, t, 2 * x + 1))
  {
    hide Vacant, Shl;
    assert EmptyIsNode(mh, t, x);
    VacantChildren(m, 0, t + 1, x);
  }

  lemma EmptyIsNodeAt(mh: MapHasher, t: nat, x: nat)
    requires EmptiesAreNodes(mh)
    ensures EmptyIsNode(mh, t, x)
  {
  }

  // ---------- two maps, one root ----------

  /** What is hashed to give node `x` at height `t`, above the leaves. */
  function NodePreimage(mh: MapHasher, m: map<nat, Hash>, t: nat, x: nat): Preimage
    requires t > 0
  {
    if Vacant(m, 0, t, x) then OfEmpty(Shl(x, t), t)
    else OfNode(Tree(mh, m, 0, t - 1, 2 * x), Tree(mh, m, 0, t - 1, 2 * x + 1))
  }

  /** Two preimages of one hash, or a leaf of only one of the maps with the hash of an empty leaf. */
  datatype Clash = Nodes(pair: Preimages) | LeafAsEmpty(index: nat) {
    predicate Shows(mh: MapHasher, m1: map<nat, Hash>, m2: map<nat, Hash>) {
      match this
      case Nodes(pair) => pair.Collides(mh)
      case LeafAsEmpty(i) =>
        || (i in m1 && i !in m2 && m1[i] == mh.HashEmpty(i, 0))
        || (i in m2 && i !in m1 && m2[i] == mh.HashEmpty(i, 0))
    }
  }

  /** Walks down two trees to the first node that was hashed from different things. */
  function MapsClash(mh: MapHasher, m1: map<nat, Hash>, m2: map<nat, Hash>, t: nat, x: nat): Clash
    decreases t
  {
    if t == 0 then LeafAsEmpty(x)
    else
      var p, q := NodePreimage(mh, m1, t, x), NodePreimage(mh, m2, t, x);
      var left := MapsClash(mh, m1, m2, t - 1, 2 * x);
      if p != q then Nodes(Preimages(p, q))
      else if left.Shows(mh, m1, m2) then left
      else MapsClash(mh, m1, m2, t - 1, 2 * x + 1)
  }

  /** A root commits to the whole map: maps with one root are the same, or clash. */
  lemma {:induction false} RootBindsMap(mh: MapHasher, m1: map<nat, Hash>, m2: map<nat, Hash>, t: nat, x: nat)
    requires Tree(mh, m1, 0, t, x) == Tree(mh, m2, 0, t, x)
    ensures SameBelow(m1, m2, 0, t, x) || MapsClash(mh, m1, m2, t, x).Shows(mh, m1, m2)
    decreases t
  {
    hide Vacant, Shl, Shr;
    if t == 0 {
      VacantEntry(m1, 0, x);
      VacantEntry(m2, 0, x);
      ShiftNothing(x);
      forall y: nat ensures Shr(y, 0) == y { ShiftNothing(y); }
    } else if NodePreimage(mh, m1, t, x) == NodePreimage(mh, m2, t, x) {
      if Vacant(m1, 0, t, x) {
        BothVacant(m1, m2, t, x);
      } else {
        RootBindsMap(mh, m1, m2, t - 1, 2 * x);
        RootBindsMap(mh, m1, m2, t - 1, 2 * x + 1);
        SameBelowParent(m1, m2, t, x);
      }
    }
  }

  lemma BothVacant(m1: map<nat, Hash>, m2: map<nat, Hash>, t: nat, x: nat)
    requires Vacant(m1, 0, t, x) && Vacant(m2, 0, t, x)
    ensures SameBelow(m1, m2, 0, t, x)
  {
  }

  lemma SameBelowParent(m1: map<nat, Hash>, m2: map<nat, Hash>, t: nat, x: nat)
    requires t > 0
    ensures SameBelow(m1, m2, 0, t - 1, 2 * x) && SameBelow(m1, m2, 0, t - 1, 2 * x + 1) ==> SameBelow(m1, m2, 0, t, x)
  {
    hide Shr;
    forall y: nat | Shr(y, t) == x ensures Shr(y, t - 1) == 2 * x || Shr(y, t - 1) == 2 * x + 1 { ShrStep(y, t - 1); }
  }

  // ---------- splitting a tree at a height ----------

  /** The roots of the non-empty subtrees of height `b`. */
  function ShardRoots(mh: MapHasher, m: map<nat, Hash>, b: nat): map<nat, Hash> {
    map y | y in (set k | k in m :: Shr(k, b)) :: Tree(mh, m, 0, b, y)
  }

  lemma ShardRootKeys(mh: MapHasher, m: map<nat, Hash>, b: nat, y: nat)
    ensures y in ShardRoots(mh, m, b) <==> !Vacant(m, 0, b, y)
    ensures y in ShardRoots(mh, m, b) ==> ShardRoots(mh, m, b)[y] == Tree(mh, m, 0, b, y)
  {
  }

  /** A tree whose leaves are the roots of its subtrees has the same hashes above them. */
  lemma {:induction false} ShardedTree(mh: MapHasher, m: map<nat, Hash>, b: nat, t: nat, x: nat)
    requires b <= t
    ensures Vacant(ShardRoots(mh, m, b), b, t, x) <==> Vacant(m, 0, t, x)
    ensures Tree(mh, ShardRoots(mh, m, b), b, t, x) == Tree(mh, m, 0, t, x)
    decreases t
  {
    hide ShardRoots;
    var roots := ShardRoots(mh, m, b);
    if t == b {
      ShardRootKeys(mh, m, b, x);
      if !Vacant(roots, b, t, x) { var y :| y in roots && Shr(y, 0) == x; }
    } else {
      ShardedTree(mh, m, b, t - 1, 2 * x);
      ShardedTree(mh, m, b, t - 1, 2 * x + 1);
      VacantChildren(roots, b, t, x);
      VacantChildren(m, 0, t, x);
    }
  }

  // ---------- storage ----------

  /** Node `c` lies below, or is, node `x` at height `t`. */
  predicate Inside(c: Coord, t: nat, x: nat) {
    c.level <= t && Shr(c.index, t - c.level) == x
  }

  /** Storage holds a node exactly if it is not empty, with its hash. */
  ghost predicate NodeOk(mh: MapHasher, store: map<Coord, Hash>, m: map<nat, Hash>, b: nat, c: Coord)
    requires b <= c.level
  {
    && (c in store <==> !Vacant(m, b, c.level, c.index))
    && (c in store ==> store[c] == Tree(mh, m, b, c.level, c.index))
  }

  /** All nodes from height `b` up to node `x` at height `t` are stored as they should be. */
  ghost predicate StoreOk(mh: MapHasher, store: map<Coord, Hash>, m: map<nat, Hash>, b: nat, t: nat, x: nat) {
    forall c: Coord :: b <= c.level && Inside(c, t, x) ==> NodeOk(mh, store, m, b, c)
  }

  lemma NothingStored(mh: MapHasher, b: nat, t: nat, x: nat)
    ensures StoreOk(mh, map[], map[], b, t, x)
  {
  }

  lemma InsideChildren(c: Coord, t: nat, x: nat)
    requires t > 0
    ensures Inside(c, t, x) <==> c == Coord(t, x) || Inside(c, t - 1, 2 * x) || Inside(c, t - 1, 2 * x + 1)
  {
    if c.level < t { ShrStep(c.index, t - 1 - c.level); }
  }

  lemma InsideBelow(c: Coord, y: nat, b: nat, t: nat, x: nat)
    requires b <= c.level && Inside(c, t, x) && Shr(y, c.level - b) == c.index
    ensures Shr(y, t - b) == x
  {
    ShrCompose(y, c.level - b, t - c.level);
  }
}
