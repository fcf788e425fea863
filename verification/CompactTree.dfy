/** The compact log tree (merkle/compact_merkle_tree.go). The callback that receives node writes is the
    list `writes`; the callback that looks stored nodes up is a map. */
module CompactTree {
  import opened Bits
  import opened Hashing
  import opened Rfc6962
  import opened LogTree
  import opened CompactSpec

  datatype RestoreError = NodeMissing(coord: Coord) | RootHashMismatch(actual: Hash, expected: Hash)

  predicate IsPerfectTree(x: nat) {
    x != 0 && And(x, x - 1) == 0
  }

  /** `c` is a node that a set bit of the size asks for, and is not there. */
  predicate IsMissing(store: map<Coord, Hash>, size: nat, c: Coord) {
    c.level < BitLen(size) && BitSet(size, c.level) && c.index == Shr(size, c.level) - 1 && c !in store
  }

  class CompactMerkleTree {
    const hasher: LogHasher
    var root: Hash
    var nodes: seq<Option<Hash>>
    var size: nat

    /** This tree is the compact form of the tree over the leaf hashes `d`. */
    ghost predicate Represents(d: seq<Hash>)
      reads this
    {
      size == |d| && root == Root(hasher, d) && HoldsEdges(hasher, d, nodes)
    }

    constructor (hasher: LogHasher)
      ensures this.hasher == hasher && Represents([])
    {
      this.hasher := hasher;
      root := hasher.emptyRoot;
      nodes := [];
      size := 0;
    }

    constructor Blank(hasher: LogHasher, size: nat)
      ensures this.hasher == hasher && this.size == size && root == hasher.emptyRoot
      ensures nodes == seq(BitLen(size), _ => None)
    {
      this.hasher := hasher;
      root := hasher.emptyRoot;
      nodes := seq(BitLen(size), _ => None);
      this.size := size;
    }

    method RecalculateRoot() returns (writes: seq<Write>)
      requires Holds(nodes, size)
      modifies this`root
      ensures size == 0 ==> root == old(root) && writes == []
      ensures size > 0 ==> Some(root) == FoldRoot(hasher, nodes, size, |nodes|)
      ensures size > 0 ==> writes == FoldWrites(hasher, nodes, size, |nodes|)
    {
      writes := [];
      if size == 0 { return; }
      var index := size;
      var newRoot: Option<Hash> := None;
      var bit := 0;
      while bit < |nodes|
        invariant 0 <= bit <= |nodes| && root == old(root)
        invariant index == Shr(size, bit)
        invariant newRoot == FoldRoot(hasher, nodes, size, bit)
        invariant writes == FoldWrites(hasher, nodes, size, bit)
      {
        var isSet := index % 2 == 1;
        index := index / 2;
        if isSet {
          if newRoot.None? {
            newRoot := nodes[bit];
          } else {
            newRoot := Some(hasher.HashChildren(nodes[bit].value, newRoot.value));
            writes := writes + [Write(Coord(bit + 1, index), newRoot.value)];
          }
        }
        bit := bit + 1;
      }
      FoldRootSome(hasher, nodes, size, |nodes|);
      WholeTail(size);
      root := newRoot.value;
    }

    /** The carry: everything `AddLeafHash` does before its deferred step. */
    method Insert(leafHash: Hash, ghost d: seq<Hash>) returns (writes: seq<Write>)
      requires Represents(d)
      modifies this`nodes
      ensures HoldsEdges(hasher, d + [leafHash], nodes)
      ensures writes == CarryWrites(hasher, d + [leafHash], TrailingOnes(|d|))
    {
      hide Node, MTH, EdgeNode, Shl, Shr, Exists, BitLen, TrailingOnes;
      ghost var n, e, a := |d|, d + [leafHash], TrailingOnes(|d|);
      SuccBitLen(n);
      AncestorExists(n, n + 1, 0);
      LeafNode(hasher, e, n, n + 1);
      ShrStep(n, 0);
      BitLenLeast(n, 0);

      var index := size;
      writes := [Write(Coord(0, index), leafHash)];
      if size == 0 {
        nodes := nodes + [Some(leafHash)];
        CarryDone(hasher, d, leafHash, nodes);
        return;
      }
      var hash := leafHash;
      var bit := 0;
      var t := size;
      while t > 0
        invariant bit <= a && bit < BitLen(n) && t == Shr(n, bit) && t > 0 && index == t
        invariant bit > 0 ==> t % 2 == 1
        invariant |nodes| == BitLen(n)
        invariant forall b :: 0 <= b < bit ==> nodes[b] == None
        invariant forall b :: bit <= b < |nodes| ==> nodes[b] == EdgeNode(hasher, d, b)
        invariant Exists(bit, t, n + 1) && hash == Node(hasher, e, bit, t, n + 1)
        invariant writes == CarryWrites(hasher, e, bit)
        decreases a - bit
      {
        SuccBits(n, bit);
        ShrStep(n, bit);
        index := index / 2;
        if t % 2 == 0 {
          nodes := nodes[bit := Some(hash)];
          if bit > 0 {
            // A stored hash above the leaf would be written here, but only bit 0 can be found unset.
            assert false;
          }
          CarryDone(hasher, d, leafHash, nodes);
          return;
        }
        CarryStep(hasher, d, leafHash, bit);
        hash := hasher.HashChildren(nodes[bit].value, hash);
        writes := writes + [Write(Coord(bit + 1, index), hash)];
        nodes := nodes[bit := None];
        SuccBits(n, bit + 1);
        BitLenLeast(n, bit + 1);
        if bit + 1 >= |nodes| {
          nodes := nodes + [Some(hash)];
          CarryDone(hasher, d, leafHash, nodes);
          return;
        } else if (t / 2) % 2 == 0 {
          nodes := nodes[bit + 1 := Some(hash)];
          CarryDone(hasher, d, leafHash, nodes);
          return;
        }
        bit := bit + 1;
        t := t / 2;
      }
      // The code reports an error here; the loop never ends this way.
      assert false;
    }

    /** Appends a leaf hash and returns its position and the nodes to store. */
    method AddLeafHash(leafHash: Hash, ghost d: seq<Hash>) returns (assignedSeq: nat, writes: seq<Write>)
      requires Represents(d)
      modifies this
      ensures Represents(d + [leafHash]) && assignedSeq == |d|
      ensures Holds(nodes, |d| + 1) && writes == AddWrites(hasher, d + [leafHash], nodes)
      ensures forall s :: Canonical(hasher, d, s) ==> Canonical(hasher, d + [leafHash], Overlay(s, writes))
    {
      hide MTH, Node, Shl, Shr, Pow2, BitLen, Canonical, TrailingOnes;
      ghost var e := d + [leafHash];
      assignedSeq := size;
      writes := Insert(leafHash, d);
      size := size + 1;
      EdgesHold(hasher, e, nodes);
      var more := RecalculateRoot();
      writes := writes + more;
      FoldRootIsRoot(hasher, e, nodes);
      forall s | Canonical(hasher, d, s) ensures Canonical(hasher, e, Overlay(s, writes)) {
        AddWritesKeepCanonical(hasher, d, leafHash, nodes, s);
      }
    }

    /** Asks for the node of every set bit of the size, and gives up at the first that is missing. */
    static method FetchNodes(store: map<Coord, Hash>, size: nat) returns (r: Result<seq<Option<Hash>>, RestoreError>)
      ensures r.Ok? <==> forall b :: 0 <= b < BitLen(size) && BitSet(size, b) ==> Coord(b, Shr(size, b) - 1) in store
      ensures r.Ok? ==> Holds(r.value, size) && forall b :: 0 <= b < |r.value| ==> r.value[b] == Fetched(store, size, b)
      ensures r.Err? ==> r.error.NodeMissing? && IsMissing(store, size, r.error.coord)
    {
      hide Shr, BitLen;
      var sizeBits := BitLen(size);
      var nodes: seq<Option<Hash>>, rest := [], size;
      ShrStep(size, 0);
      for depth := 0 to sizeBits
        invariant |nodes| == depth && rest == Shr(size, depth)
        invariant forall b :: 0 <= b < depth ==>
                  nodes[b] == Fetched(store, size, b) && (nodes[b].Some? <==> BitSet(size, b))
        invariant forall b :: 0 <= b < depth && BitSet(size, b) ==> Coord(b, Shr(size, b) - 1) in store
      {
        ShrStep(size, depth);
        if rest % 2 == 1 {
          var c := Coord(depth, rest - 1);
          if c !in store {
            assert BitSet(size, depth);
            return Err(NodeMissing(c));
          }
          nodes := nodes + [Some(store[c])];
        } else {
          nodes := nodes + [None];
        }
        rest := rest / 2;
      }
      return Ok(nodes);
    }

    /** Rebuilds the tree of `size` leaves from stored nodes. With the canonical store of `d` and the root
        of `d` this succeeds and gives the tree over `d`; with any other store, a tree accepted for the
        root of `d` is still the tree over `d`, or the fetched nodes give away a collision. */
    static method WithState(hasher: LogHasher, size: nat, store: map<Coord, Hash>, expectedRoot: Hash,
                            ghost d: seq<Hash>)
        returns (r: Result<CompactMerkleTree, RestoreError>)
      ensures r.Ok? ==>
                fresh(r.value) && r.value.hasher == hasher && r.value.size == size && r.value.root == expectedRoot
      ensures r.Ok? ==> Holds(r.value.nodes, size)
      ensures |d| == size && expectedRoot == Root(hasher, d) && Canonical(hasher, d, store) ==>
                r.Ok? && r.value.Represents(d)
      ensures |d| == size && expectedRoot == Root(hasher, d) && r.Ok? ==>
                || r.value.Represents(d)
                || FoldCollision(hasher, d, r.value.nodes, |r.value.nodes|).Collides(hasher)
      ensures size > 0 && size == Pow2(BitLen(size) - 1) ==> r.Ok?
      ensures !(size > 0 && size == Pow2(BitLen(size) - 1)) ==>
                (r.Err? && r.error.NodeMissing? <==>
                   exists b :: 0 <= b < BitLen(size) && BitSet(size, b) && Coord(b, Shr(size, b) - 1) !in store)
      ensures r.Err? && r.error.NodeMissing? ==> IsMissing(store, size, r.error.coord)
      ensures r.Err? && r.error.RootHashMismatch? ==> r.error.actual != r.error.expected == expectedRoot
    {
      hide Shl, Shr, BitLen, Canonical, IsPerfectTree, Node, FoldRoot, FoldCollision, MTH, EdgeNode;
      var t := new CompactMerkleTree.Blank(hasher, size);
      var sizeBits := BitLen(size);
      PerfectIff(size);
      if IsPerfectTree(size) {
        PerfectBits(size);
        t.root := expectedRoot;
        t.nodes := t.nodes[sizeBits - 1 := Some(t.root)];
        if |d| == size && expectedRoot == Root(hasher, d) { PerfectEdges(hasher, d, t.nodes); }
      } else {
        var fetched := FetchNodes(store, size);
        if |d| == size && Canonical(hasher, d, store) { AllFetched(hasher, d, store); }
        if fetched.Err? { return Err(fetched.error); }
        t.nodes := fetched.value;
        var _ := t.RecalculateRoot();
        if |d| == size {
          if Canonical(hasher, d, store) { FetchedEdges(hasher, d, store, t.nodes); }
          if size > 0 { FoldMatches(hasher, d, t.nodes); } else { NoEdges(hasher, d); }
        }
      }
      if t.root != expectedRoot { return Err(RootHashMismatch(t.root, expectedRoot)); }
      return Ok(t);
    }
  }

  function Fetched(store: map<Coord, Hash>, n: nat, b: nat): Option<Hash> {
    if BitSet(n, b) && Coord(b, Shr(n, b) - 1) in store then Some(store[Coord(b, Shr(n, b) - 1)]) else None
  }

  /** The nodes that restoring asks for are complete, hence stored. */
  lemma EdgeIsStored(h: LogHasher, d: seq<Hash>, store: map<Coord, Hash>, b: nat)
    requires Canonical(h, d, store)
    ensures BitSet(|d|, b) ==> Coord(b, Shr(|d|, b) - 1) in store
    ensures Fetched(store, |d|, b) == EdgeNode(h, d, b)
  {
    hide MTH;
    if BitSet(|d|, b) {
      var c := Coord(b, Shr(|d|, b) - 1);
      TailStartStep(|d|, b);
      if b > 0 {
        ShlDouble(c.index, b - 1);
        ShlSucc(2 * c.index, b - 1);
      }
      assert Stored(c, |d|);
      assert StoredValue(h, d, c, store[c]);
    }
  }

  lemma AllFetched(h: LogHasher, d: seq<Hash>, store: map<Coord, Hash>)
    requires Canonical(h, d, store)
    ensures forall b :: 0 <= b < BitLen(|d|) && BitSet(|d|, b) ==> Coord(b, Shr(|d|, b) - 1) in store
  {
    hide Canonical, Shr, BitLen, EdgeNode;
    forall b | 0 <= b < BitLen(|d|) && BitSet(|d|, b) ensures Coord(b, Shr(|d|, b) - 1) in store {
      EdgeIsStored(h, d, store, b);
    }
  }

  lemma NoEdges(h: LogHasher, d: seq<Hash>)
    requires d == []
    ensures Root(h, d) == h.emptyRoot && HoldsEdges(h, d, []) && BitLen(0) == 0
  {
  }

  lemma FetchedEdges(h: LogHasher, d: seq<Hash>, store: map<Coord, Hash>, nodes: seq<Option<Hash>>)
    requires Canonical(h, d, store) && |nodes| == BitLen(|d|)
    requires forall b :: 0 <= b < |nodes| ==> nodes[b] == Fetched(store, |d|, b)
    ensures HoldsEdges(h, d, nodes)
  {
    forall b | 0 <= b < |nodes| ensures nodes[b] == EdgeNode(h, d, b) { EdgeIsStored(h, d, store, b); }
  }

  /** The check against the expected root, both ways. */
  lemma FoldMatches(h: LogHasher, d: seq<Hash>, nodes: seq<Option<Hash>>)
    requires d != [] && Holds(nodes, |d|)
    ensures HoldsEdges(h, d, nodes) ==> FoldRoot(h, nodes, |d|, |nodes|) == Some(Root(h, d))
    ensures FoldRoot(h, nodes, |d|, |nodes|) == Some(Root(h, d)) ==>
              HoldsEdges(h, d, nodes) || FoldCollision(h, d, nodes, |nodes|).Collides(h)
  {
    WholeTail(|d|);
    if HoldsEdges(h, d, nodes) { FoldRootIsRoot(h, d, nodes); }
    if FoldRoot(h, nodes, |d|, |nodes|) == Some(Root(h, d)) { FoldRootSound(h, d, nodes, |nodes|); }
  }

  lemma {:induction false} Pow2Bits(l: nat, b: nat)
    ensures BitSet(Pow2(l), b) <==> b == l
    ensures BitLen(Pow2(l)) == l + 1
  {
    hide BitLen;
    BitLenBounds(Pow2(l));
    BitLenLeast(Pow2(l), l);
    BitLenLeast(Pow2(l), l + 1);
    if b == 0 {
    } else if l == 0 {
      BitLenLeast(1, b);
    } else {
      ShrHalf(Pow2(l), b - 1);
      Pow2Bits(l - 1, b - 1);
    }
  }

  lemma PerfectIff(n: nat)
    ensures IsPerfectTree(n) <==> n > 0 && n == Pow2(BitLen(n) - 1)
  {
    if n > 0 { AndPredIsZero(n); }
  }

  lemma PerfectBits(n: nat)
    requires IsPerfectTree(n)
    ensures BitLen(n) > 0 && n == Pow2(BitLen(n) - 1)
    ensures forall b :: 0 <= b < BitLen(n) ==> (BitSet(n, b) <==> b == BitLen(n) - 1)
  {
    AndPredIsZero(n);
    forall b | 0 <= b < BitLen(n) ensures BitSet(n, b) <==> b == BitLen(n) - 1 { Pow2Bits(BitLen(n) - 1, b); }
  }

  /** A perfect tree keeps its root and nothing else. */
  lemma PerfectEdges(h: LogHasher, d: seq<Hash>, nodes: seq<Option<Hash>>)
    requires IsPerfectTree(|d|) && |nodes| == BitLen(|d|)
    requires forall b :: 0 <= b < |nodes| ==> nodes[b] == if b == |nodes| - 1 then Some(Root(h, d)) else None
    ensures HoldsEdges(h, d, nodes)
  {
    hide MTH, EdgeNode;
    PerfectBits(|d|);
    WholeTail(|d|);
    forall b | 0 <= b < |nodes| ensures nodes[b] == EdgeNode(h, d, b) {
      EdgeNodeRange(h, d, b);
    }
  }
}
