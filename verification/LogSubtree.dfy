/** Log subtrees in storage (storage/cache/log_subtree_cache.go, storage/cache/subtree_cache.go): eight levels
    of nodes packed together. A full subtree is stored without its internal nodes, which are rebuilt from
    its leaves with a compact tree when it is read back. */
module LogSubtree {
  import opened Bits
  import opened Hashing
  import opened Rfc6962
  import opened LogTree
  import opened CompactSpec
  import opened CompactTree
  import opened NodeIds

  const STRATA_DEPTH: nat := 8
  const MAX_LOG_DEPTH: nat := 64

  /** The suffix of the node `c.level` above the subtree's leaves: its path, padded with zeros, in one byte. */
  function SuffixOf(c: Coord): Suffix
    requires c.level <= STRATA_DEPTH
  {
    Suffix(STRATA_DEPTH - c.level, [Shl(c.index, c.level) % 256])
  }

  function FirstByte(k: Suffix): Byte {
    if k.path == [] then 0 else k.path[0]
  }

  function CoordOf(k: Suffix): Coord
    requires k.bits <= STRATA_DEPTH
  {
    Coord(STRATA_DEPTH - k.bits, Shr(FirstByte(k), STRATA_DEPTH - k.bits))
  }

  predicate InSubtree(c: Coord) {
    c.level <= STRATA_DEPTH && c.index < Pow2(STRATA_DEPTH - c.level)
  }

  lemma SuffixOfInverse(c: Coord)
    requires InSubtree(c)
    ensures CoordOf(SuffixOf(c)) == c && Shl(c.index, c.level) < 256
  {
    hide Shl, Shr;
    Pow2Small();
    ShlBelowPow2(c.index, c.level, STRATA_DEPTH);
    ShrUnique(Shl(c.index, c.level), c.level, c.index);
  }

  /** In the subtree under any prefix, this is the suffix that the code splits from the node's id. */
  lemma SuffixIsSplit(prefix: seq<Byte>, c: Coord)
    requires |prefix| < MAX_LOG_DEPTH / 8 && c.level < STRATA_DEPTH
    ensures
      var id := FromPrefix(prefix, STRATA_DEPTH - c.level, c.index, STRATA_DEPTH, MAX_LOG_DEPTH);
      id.Valid() && NodeIds.Split(id, |prefix|, STRATA_DEPTH) == (prefix, SuffixOf(c))
  {
    hide Shl, Pow2, BytesOf, NodeIds.Split, WellFormed;
    var id := FromPrefix(prefix, STRATA_DEPTH - c.level, c.index, STRATA_DEPTH, MAX_LOG_DEPTH);
    LowByte(Shl(c.index, c.level));
    SuffixWellFormed(c);
    SplitJoined(prefix, SuffixOf(c), id, STRATA_DEPTH);
  }

  lemma SuffixWellFormed(c: Coord)
    requires c.level < STRATA_DEPTH
    ensures WellFormed(SuffixOf(c))
  {
    hide Shl, Shr, Pow2, WellFormed, BytesOf;
    var r := LowBitsOf(c);
    SuffixForNumber(STRATA_DEPTH - c.level, r);
    OneByte(Shl(r, c.level));
  }

  /** Only the low bits of an index count in a suffix. */
  lemma LowBitsOf(c: Coord) returns (r: nat)
    requires c.level < STRATA_DEPTH
    ensures r < Pow2(STRATA_DEPTH - c.level) && Shl(c.index, c.level) % 256 == Shl(r, c.level) < 256
  {
    hide Shl, Shr, Pow2;
    var bits := STRATA_DEPTH - c.level;
    var k := Shr(c.index, bits);
    ShrBounds(c.index, bits);
    r := c.index - Shl(k, bits);
    ShlAdd(Shl(k, bits), r, c.level);
    ShlCompose(k, bits, c.level);
    ShlByte(k);
    Pow2Small();
    ShlBelowPow2(r, c.level, STRATA_DEPTH);
  }

  lemma OneByte(b: Byte)
    ensures BytesOf(b, 1) == [b]
  {
    assert BytesOf(b / 256, 0) == [];
  }

  /** `k` names a node below the subtree's root and above its leaves. */
  predicate InternalKey(k: Suffix) {
    1 <= k.bits < STRATA_DEPTH && SuffixOf(CoordOf(k)) == k
  }

  /** `m` holds exactly the internal nodes of the small store `s`, under their suffixes. */
  ghost predicate Mirrors(m: map<Suffix, Hash>, s: map<Coord, Hash>) {
    && (forall k :: k in m <==> InternalKey(k) && CoordOf(k) in s)
    && (forall k :: k in m ==> m[k] == s[CoordOf(k)])
  }

  lemma MirrorWrite(m: map<Suffix, Hash>, s: map<Coord, Hash>, w: Write)
    requires Mirrors(m, s) && InSubtree(w.coord)
    ensures 1 <= w.coord.level < STRATA_DEPTH ==> Mirrors(m[SuffixOf(w.coord) := w.hash], s[w.coord := w.hash])
    ensures w.coord.level == 0 || w.coord.level >= STRATA_DEPTH ==> Mirrors(m, s[w.coord := w.hash])
  {
    hide Shl, Shr;
    if 1 <= w.coord.level < STRATA_DEPTH { SuffixOfInverse(w.coord); }
  }

  lemma MirrorUnique(m: map<Suffix, Hash>, m': map<Suffix, Hash>, s: map<Coord, Hash>)
    requires Mirrors(m, s) && Mirrors(m', s)
    ensures m == m'
  {
  }

  // ---------- the leaves ----------

  function LeafKey(q: nat): Suffix {
    SuffixOf(Coord(0, q))
  }

  predicate IsLeafKey(k: Suffix) {
    k.bits == STRATA_DEPTH && |k.path| == 1
  }

  lemma LeafKeyIs(q: nat)
    requires q < 256
    ensures LeafKey(q) == Suffix(STRATA_DEPTH, [q])
  {
  }

  /** The leaves have the suffixes 0, 1, 2, ... without a gap. */
  ghost predicate Dense(leaves: map<Suffix, Hash>) {
    && |leaves| <= 256
    && forall k :: k in leaves <==> IsLeafKey(k) && FirstByte(k) < |leaves|
  }

  function LeafList(leaves: map<Suffix, Hash>, n: nat): seq<Hash>
    requires forall q :: 0 <= q < n ==> LeafKey(q) in leaves
  {
    seq(n, q requires 0 <= q < n => leaves[LeafKey(q)])
  }

  lemma DenseKeys(leaves: map<Suffix, Hash>)
    requires Dense(leaves)
    ensures |leaves| <= 256 && forall q :: 0 <= q < |leaves| ==> LeafKey(q) in leaves
  {
  }

  datatype SubtreeError = BadDepth | NilLeaf | NodeCountMismatch

  /** The nodes written for at most 256 leaves are at most eight levels up. */
  lemma WritesFit(h: LogHasher, e: seq<Hash>, w: Write)
    requires IsEdgeWrite(h, e, w) && |e| <= 256
    ensures InSubtree(w.coord)
  {
    var l, x := w.coord.level, w.coord.index;
    Pow2Small();
    if l > 0 {
      ShlMonotone(0, 2 * x + 1, l - 1);
      ShlZero(l - 1);
      if l > STRATA_DEPTH { Pow2Monotone(STRATA_DEPTH, l - 1); }
    }
    StoredExists(w.coord, |e|);
    if l <= STRATA_DEPTH { ShlBelowPow2(x, l, STRATA_DEPTH); }
  }

  lemma Pow2Small()
    ensures Pow2(7) == 128 && Pow2(8) == 256
  {
    assert Pow2(3) == 8;
    assert Pow2(5) == 32;
    assert Pow2(7) == 128;
  }

  class Subtree {
    var depth: int
    var leaves: map<Suffix, Hash>
    var internalNodes: Option<map<Suffix, Hash>>
    var rootHash: Option<Hash>
    var internalNodeCount: nat

    constructor (depth: int, leaves: map<Suffix, Hash>, internalNodes: Option<map<Suffix, Hash>>,
                 internalNodeCount: nat)
      ensures this.depth == depth && this.leaves == leaves && this.internalNodes == internalNodes
      ensures this.internalNodeCount == internalNodeCount && rootHash == None
    {
      this.depth, this.leaves, this.internalNodes := depth, leaves, internalNodes;
      this.rootHash, this.internalNodeCount := None, internalNodeCount;
    }

    /** `prepareLogSubtreeWrite`: a full subtree drops its internal nodes. */
    method Prepare() returns (ok: bool)
      requires internalNodes.Some?
      modifies this`internalNodes, this`internalNodeCount
      ensures internalNodeCount == |old(internalNodes.value)|
      ensures ok <==> depth >= 1
      ensures internalNodes == if ok && |leaves| == Pow2(depth) then None else old(internalNodes)
    {
      internalNodeCount := |internalNodes.value|;
      if depth < 1 { return false; }
      if |leaves| == Pow2(depth) { internalNodes := None; }
      return true;
    }

    /** The callback that receives the nodes of the compact tree: the root has no place in the subtree, and
        internal nodes are only rebuilt for a full subtree. */
    method SetNodes(writes: seq<Write>, full: bool, ghost s: map<Coord, Hash>)
      requires internalNodes.Some?
      modifies this`internalNodes
      ensures internalNodes.Some?
      ensures !full ==> internalNodes == old(internalNodes)
      ensures full && Mirrors(old(internalNodes.value), s)
              && (forall w :: w in writes ==> InSubtree(w.coord)) ==>
                Mirrors(internalNodes.value, Overlay(s, writes))
    {
      hide Mirrors;
      ghost var good := full && Mirrors(internalNodes.value, s)
                        && forall w :: w in writes ==> InSubtree(w.coord);
      for j := 0 to |writes|
        invariant internalNodes.Some?
        invariant good ==> Mirrors(internalNodes.value, Overlay(s, writes[..j]))
        invariant !full ==> internalNodes == old(internalNodes)
      {
        var w := writes[j];
        assert writes[..j + 1][..j] == writes[..j];
        if good { MirrorWrite(internalNodes.value, Overlay(s, writes[..j]), w); }
        if !(w.coord.level == STRATA_DEPTH && w.coord.index == 0) {
          if 0 < w.coord.level <= STRATA_DEPTH && full {
            internalNodes := Some(internalNodes.value[SuffixOf(w.coord) := w.hash]);
          }
        }
      }
      assert writes[..|writes|] == writes;
    }

    /** Feeds the leaves, in order, to a compact tree and returns its root. */
    method AddLeaves(h: LogHasher, full: bool) returns (r: Result<Hash, SubtreeError>)
      requires internalNodes.Some? && (full ==> internalNodes.value == map[])
      modifies this`internalNodes
      ensures internalNodes.Some?
      ensures !full ==> internalNodes == old(internalNodes)
      ensures (exists q :: 0 <= q < |leaves| && LeafKey(q) !in leaves) ==> r == Err(NilLeaf)
      ensures Dense(leaves) ==>
                && (forall q :: 0 <= q < |leaves| ==> LeafKey(q) in leaves)
                && r == Ok(Root(h, LeafList(leaves, |leaves|)))
                && (full ==> exists s :: Canonical(h, LeafList(leaves, |leaves|), s) && Mirrors(internalNodes.value, s))
    {
      hide MTH, Shl, BitLen, StoredValue, Canonical, AddWrites, Dense, Overlay;
      if Dense(leaves) { DenseKeys(leaves); }
      var cmt := new CompactMerkleTree(h);
      ghost var e: seq<Hash>, s: map<Coord, Hash> := [], map[];
      ghost var good := full && Dense(leaves);
      EmptyCanonical(h);
      NothingMirrored();
      for q := 0 to |leaves|
        invariant internalNodes.Some? && cmt.hasher == h && cmt.Represents(e) && fresh(cmt)
        invariant |e| == q && (forall j :: 0 <= j < q ==> LeafKey(j) in leaves && e[j] == leaves[LeafKey(j)])
        invariant good ==> Canonical(h, e, s) && Mirrors(internalNodes.value, s)
        invariant !full ==> internalNodes == old(internalNodes)
      {
        if LeafKey(q) !in leaves { return Err(NilLeaf); }
        var leaf := leaves[LeafKey(q)];
        var position, writes := cmt.AddLeafHash(leaf, e);
        e := e + [leaf];
        if good { AllWritesFit(h, e, cmt.nodes); }
        SetNodes(writes, full, s);
        s := Overlay(s, writes);
        if position != q { assert false; }
      }
      assert e == LeafList(leaves, |leaves|);
      return Ok(cmt.root);
    }

    /** `populateLogSubtreeNodes`. */
    method Populate(h: LogHasher) returns (r: Result<(), SubtreeError>)
      modifies this`internalNodes, this`rootHash
      ensures depth < 1 ==> r == Err(BadDepth)
      ensures depth >= 1 && (exists q :: 0 <= q < |leaves| && LeafKey(q) !in leaves) ==>
              r == Err(NilLeaf) && rootHash == old(rootHash)
      ensures depth == STRATA_DEPTH && Dense(leaves) ==>
                && (forall q :: 0 <= q < |leaves| ==> LeafKey(q) in leaves)
                && internalNodes.Some?
                && rootHash == Some(Root(h, LeafList(leaves, |leaves|)))
                && (|leaves| < 256 ==>
                      internalNodes.value == if old(internalNodes).Some? then old(internalNodes.value) else map[])
                && (|leaves| == 256 ==>
                      exists s :: Canonical(h, LeafList(leaves, 256), s) && Mirrors(internalNodes.value, s))
                && r == if |internalNodes.value| == internalNodeCount then Ok(()) else Err(NodeCountMismatch)
    {
      hide Mirrors, Canonical, MTH;
      if depth < 1 { return Err(BadDepth); }
      var maxLeaves := Pow2(depth);
      Pow2Small();
      if internalNodes == None || |leaves| == maxLeaves { internalNodes := Some(map[]); }
      var root := AddLeaves(h, |leaves| == maxLeaves);
      if root.Err? { return Err(root.error); }
      rootHash := Some(root.value);
      if |internalNodes.value| != internalNodeCount { return Err(NodeCountMismatch); }
      return Ok(());
    }
  }

  lemma AllWritesFit(h: LogHasher, e: seq<Hash>, nodes: seq<Option<Hash>>)
    requires e != [] && |e| <= 256 && HoldsEdges(h, e, nodes) && Holds(nodes, |e|)
    ensures forall w :: w in AddWrites(h, e, nodes) ==> InSubtree(w.coord)
  {
    hide IsEdgeWrite, AddWrites, HoldsEdges, Holds;
    AddWritesAreEdge(h, e, nodes);
    forall w | w in AddWrites(h, e, nodes) ensures InSubtree(w.coord) {
      WritesFit(h, e, w);
    }
  }

  lemma NothingMirrored()
    ensures Mirrors(map[], map[])
  {
  }

  lemma AddWritesAreEdge(h: LogHasher, e: seq<Hash>, nodes: seq<Option<Hash>>)
    requires e != [] && HoldsEdges(h, e, nodes) && Holds(nodes, |e|)
    ensures forall w :: w in AddWrites(h, e, nodes) ==> IsEdgeWrite(h, e, w)
  {
    hide IsEdgeWrite, CarryWrites, FoldWrites, HoldsEdges, Holds;
    CarryWritesAreEdge(h, e, TrailingOnes(|e| - 1));
    FoldWritesAreEdge(h, e, nodes, |nodes|);
  }

  // ---------- subtrees of a log ----------

  /** Where node `c` of the subtree with prefix `p` and leaves at level `base` is in the whole tree. */
  function Place(base: nat, p: nat, c: Coord): Coord
    requires c.level <= STRATA_DEPTH
  {
    Coord(base + c.level, Shl(p, STRATA_DEPTH - c.level) + c.index)
  }

  /** `m` holds the stored nodes of the tree over `d` that belong to the subtree and have a key in `keys`. */
  ghost predicate Packs(h: LogHasher, d: seq<Hash>, base: nat, p: nat, keys: Suffix -> bool, m: map<Suffix, Hash>) {
    && (forall k :: k in m <==>
          keys(k) && k.bits <= STRATA_DEPTH && InSubtree(CoordOf(k)) && Stored(Place(base, p, CoordOf(k)), |d|))
    && (forall k :: k in m ==> k.bits <= STRATA_DEPTH && StoredValue(h, d, Place(base, p, CoordOf(k)), m[k]))
  }

  /** The leaves and internal nodes of one subtree of the log over `d`. */
  ghost predicate IsSubtree(h: LogHasher, d: seq<Hash>, base: nat, p: nat, leaves: map<Suffix, Hash>,
                            internal: map<Suffix, Hash>) {
    Packs(h, d, base, p, IsLeafKey, leaves) && Packs(h, d, base, p, InternalKey, internal)
  }

  lemma LeafPlace(base: nat, p: nat, q: nat)
    requires q < 256
    ensures LeafKey(q) == Suffix(STRATA_DEPTH, [q]) && CoordOf(LeafKey(q)) == Coord(0, q) && InSubtree(Coord(0, q))
    ensures Place(base, p, Coord(0, q)) == Coord(base, Shl(p, 8) + q)
  {
    LeafKeyIs(q);
    Pow2Small();
  }

  /** Storage fills each level from the left. */
  lemma StoredLeftmost(l: nat, i: nat, j: nat, n: nat)
    requires i <= j && Stored(Coord(l, j), n)
    ensures Stored(Coord(l, i), n)
  {
    if i < j && l > 0 { ShlMonotone(2 * i + 1, 2 * j + 1, l - 1); }
  }

  lemma OneLeafKey(k: Suffix, q: Byte)
    ensures IsLeafKey(k) && FirstByte(k) == q <==> k == Suffix(STRATA_DEPTH, [q])
  {
  }

  lemma {:induction false} CountKeys(keys: set<Suffix>, n: nat)
    requires n <= 256 && forall k :: k in keys <==> IsLeafKey(k) && FirstByte(k) < n
    ensures |keys| == n
  {
    hide IsLeafKey, FirstByte;
    if n == 0 {
      assert keys == {};
    } else {
      var last := Suffix(STRATA_DEPTH, [n - 1]);
      var rest := keys - {last};
      OneLeafKey(last, n - 1);
      forall k ensures k in rest <==> IsLeafKey(k) && FirstByte(k) < n - 1 { OneLeafKey(k, n - 1); }
      CountKeys(rest, n - 1);
    }
  }

  /** The number of leaves of a subtree that are stored, searched for from `n` downwards. */
  lemma {:induction false} LeafCount(h: LogHasher, d: seq<Hash>, base: nat, p: nat, leaves: map<Suffix, Hash>,
                                     n: nat) returns (t: nat)
    requires Packs(h, d, base, p, IsLeafKey, leaves) && n <= 256
    requires forall q :: n <= q < 256 ==> LeafKey(q) !in leaves
    ensures t <= 256 && forall k :: k in leaves <==> IsLeafKey(k) && FirstByte(k) < t
  {
    hide Shr, StoredValue, Node, Stored, Place;
    if n == 0 || LeafKey(n - 1) in leaves {
      t := n;
      forall k: Suffix ensures k in leaves <==> IsLeafKey(k) && FirstByte(k) < n {
        if IsLeafKey(k) {
          var q := FirstByte(k);
          assert k.path == [q];
          LeafPlace(base, p, q);
          if q < n {
            LeafPlace(base, p, n - 1);
            StoredLeftmost(base, Shl(p, 8) + q, Shl(p, 8) + n - 1, |d|);
          }
        }
      }
    } else {
      t := LeafCount(h, d, base, p, leaves, n - 1);
    }
  }

  /** The leaves of every subtree are dense from the left. */
  lemma SubtreeLeavesDense(h: LogHasher, d: seq<Hash>, base: nat, p: nat, leaves: map<Suffix, Hash>)
    requires Packs(h, d, base, p, IsLeafKey, leaves)
    ensures Dense(leaves)
  {
    var t := LeafCount(h, d, base, p, leaves, 256);
    CountKeys(leaves.Keys, t);
    assert |leaves| == |leaves.Keys|;
  }

  /** Shifting a place down to the leaves of its subtree, and on to the leaves of the tree. */
  lemma PlaceStart(base: nat, p: nat, c: Coord)
    requires InSubtree(c)
    ensures Shl(c.index, c.level) < 256
    ensures Shl(Place(base, p, c).index, base + c.level) == Shl(Shl(p, 8) + Shl(c.index, c.level), base)
  {
    var l := c.level;
    Pow2Small();
    ShlCompose(p, 8 - l, l);
    ShlAdd(Shl(p, 8 - l), c.index, l);
    ShlCompose(Shl(p, 8 - l) + c.index, l, base);
    ShlBelowPow2(c.index, l, 8);
  }

  lemma PlaceChildren(base: nat, p: nat, c: Coord)
    requires InSubtree(c) && c.level > 0
    ensures
      var left, right := Coord(c.level - 1, 2 * c.index), Coord(c.level - 1, 2 * c.index + 1);
      && InSubtree(left) && InSubtree(right)
      && Place(base, p, left) == Coord(base + c.level - 1, 2 * Place(base, p, c).index)
      && Place(base, p, right) == Coord(base + c.level - 1, 2 * Place(base, p, c).index + 1)
  {
  }

  /** `list` holds the hashes of the 256 leaves of a full subtree. */
  ghost predicate FullLeaves(h: LogHasher, d: seq<Hash>, base: nat, p: nat, list: seq<Hash>) {
    |list| == 256 && forall q :: 0 <= q < 256 ==> StoredValue(h, d, Coord(base, Shl(p, 8) + q), list[q])
  }

  lemma FullLeavesOf(h: LogHasher, d: seq<Hash>, base: nat, p: nat, leaves: map<Suffix, Hash>)
    requires Packs(h, d, base, p, IsLeafKey, leaves)
    requires forall q :: 0 <= q < 256 ==> LeafKey(q) in leaves
    ensures FullLeaves(h, d, base, p, LeafList(leaves, 256))
  {
    hide StoredValue;
    var list := LeafList(leaves, 256);
    forall q | 0 <= q < 256 ensures StoredValue(h, d, Coord(base, Shl(p, 8) + q), list[q]) { LeafPlace(base, p, q); }
  }

  /** In a full subtree every node exists, and is made of the subtree's leaves alone. */
  lemma {:induction false} FullSubtreeNode(h: LogHasher, d: seq<Hash>, base: nat, p: nat, list: seq<Hash>, c: Coord)
    requires InSubtree(c) && FullLeaves(h, d, base, p, list)
    ensures |list| == 256
    ensures Exists(c.level, c.index, 256) && Exists(base + c.level, Place(base, p, c).index, |d|)
    ensures Node(h, list, c.level, c.index, 256) == Node(h, d, base + c.level, Place(base, p, c).index, |d|)
    decreases c.level
  {
    hide Node, Place, Shl, Pow2, Exists, FullLeaves;
    FullSubtreeExists(h, d, base, p, list, c);
    if c.level == 0 {
      LeafNode(h, list, c.index, 256);
    } else {
      var left, right := Coord(c.level - 1, 2 * c.index), Coord(c.level - 1, 2 * c.index + 1);
      PlaceChildren(base, p, c);
      FullSubtreeNode(h, d, base, p, list, left);
      FullSubtreeNode(h, d, base, p, list, right);
      FullSubtreeStep(h, d, list, base, c.level - 1, c.index, Place(base, p, c).index);
    }
  }

  lemma FullSubtreeStep(h: LogHasher, d: seq<Hash>, list: seq<Hash>, base: nat, l: nat, j: nat, x: nat)
    requires |list| == 256 && Exists(l + 1, j, 256) && Exists(base + l + 1, x, |d|)
    requires Exists(l, 2 * j, 256) && Exists(l, 2 * j + 1, 256)
    requires Exists(base + l, 2 * x, |d|) && Exists(base + l, 2 * x + 1, |d|)
    requires Node(h, list, l, 2 * j, 256) == Node(h, d, base + l, 2 * x, |d|)
    requires Node(h, list, l, 2 * j + 1, 256) == Node(h, d, base + l, 2 * x + 1, |d|)
    ensures Node(h, list, l + 1, j, 256) == Node(h, d, base + l + 1, x, |d|)
  {
    hide Node;
    NodeStep(h, list, l, j, 256);
    NodeStep(h, d, base + l, x, |d|);
  }

  lemma FullSubtreeExists(h: LogHasher, d: seq<Hash>, base: nat, p: nat, list: seq<Hash>, c: Coord)
    requires InSubtree(c) && FullLeaves(h, d, base, p, list)
    ensures |list| == 256 && (c.level == 0 ==> c.index < 256)
    ensures Exists(c.level, c.index, 256) && Exists(base + c.level, Place(base, p, c).index, |d|)
    ensures c.level == 0 ==> list[c.index] == Node(h, d, base, Place(base, p, c).index, |d|)
    ensures c.level > 0 ==> Stored(Place(base, p, c), |d|) && Stored(c, 256)
  {
    hide Node, Pow2, Shl;
    var q := Shl(c.index, c.level);
    ShiftNothing(c.index);
    PlaceStart(base, p, c);
    assert StoredValue(h, d, Coord(base, Shl(p, 8) + q), list[q]);
    if c.level > 0 {
      PlaceChildren(base, p, c);
      var right := Coord(c.level - 1, 2 * c.index + 1);
      PlaceStart(base, p, right);
      var q' := Shl(right.index, right.level);
      assert StoredValue(h, d, Coord(base, Shl(p, 8) + q'), list[q']);
    }
  }

  /** The internal nodes of a full subtree are those of the tree over its leaves, whatever follows it in the log. */
  lemma FullSubtreeMirrors(h: LogHasher, d: seq<Hash>, base: nat, p: nat, leaves: map<Suffix, Hash>,
                           internal: map<Suffix, Hash>,
                           s: map<Coord, Hash>)
    requires IsSubtree(h, d, base, p, leaves, internal) && |leaves| == 256
    requires (forall q :: 0 <= q < 256 ==> LeafKey(q) in leaves) && Canonical(h, LeafList(leaves, 256), s)
    ensures Mirrors(internal, s)
  {
    FullLeavesOf(h, d, base, p, leaves);
    hide Node, CoordOf, InSubtree, SuffixOf, Stored, Place, FullLeaves, StoredValue;
    var list := LeafList(leaves, 256);
    forall k: Suffix
      ensures k in internal <==> InternalKey(k) && CoordOf(k) in s
      ensures k in internal ==> internal[k] == s[CoordOf(k)]
    {
      if InternalKey(k) {
        FullSubtreeKey(h, d, base, p, list, k);
        if k in internal {
          SameStoredValue(h, d, list, Place(base, p, CoordOf(k)), CoordOf(k), internal[k], s[CoordOf(k)]);
        }
      }
    }
  }

  lemma SameStoredValue(h: LogHasher, d: seq<Hash>, list: seq<Hash>, c: Coord, c': Coord, v: Hash, v': Hash)
    requires StoredValue(h, d, c, v) && StoredValue(h, list, c', v')
    requires Node(h, d, c.level, c.index, |d|) == Node(h, list, c'.level, c'.index, |list|)
    ensures v == v'
  {
  }

  lemma FullSubtreeKey(h: LogHasher, d: seq<Hash>, base: nat, p: nat, list: seq<Hash>, k: Suffix)
    requires FullLeaves(h, d, base, p, list) && InternalKey(k)
    ensures
      var c := CoordOf(k);
      var place := Place(base, p, c);
      && (Stored(c, 256) <==> InSubtree(c) && Stored(place, |d|))
      && (Stored(c, 256) ==>
            && Exists(c.level, c.index, |list|) && Exists(place.level, place.index, |d|)
            && Node(h, d, place.level, place.index, |d|) == Node(h, list, c.level, c.index, |list|))
  {
    hide Node, FullLeaves;
    var c := CoordOf(k);
    if Stored(c, 256) { StoredInSubtree(c); }
    if InSubtree(c) {
      FullSubtreeExists(h, d, base, p, list, c);
      FullSubtreeNode(h, d, base, p, list, c);
    }
  }

  lemma StoredInSubtree(c: Coord)
    requires 1 <= c.level <= STRATA_DEPTH && Stored(c, 256)
    ensures InSubtree(c)
  {
    Pow2Small();
    StoredExists(c, 256);
    ShlBelowPow2(c.index, c.level, 8);
  }

  /** Under every internal node of a subtree there is a leaf of the subtree. */
  lemma InternalHasLeaf(h: LogHasher, d: seq<Hash>, base: nat, p: nat, leaves: map<Suffix, Hash>,
                        internal: map<Suffix, Hash>, k: Suffix)
    requires IsSubtree(h, d, base, p, leaves, internal) && k in internal
    ensures LeafKey(Shl(CoordOf(k).index, CoordOf(k).level)) in leaves
  {
    hide Shl, Shr, StoredValue, Node;
    var c := CoordOf(k);
    PlaceStart(base, p, c);
    LeafPlace(base, p, Shl(c.index, c.level));
    LeafBelowStored(base, p, c, |d|);
  }

  /** A subtree without leaves has no internal nodes: not writing it loses nothing. */
  lemma LeaflessIsEmpty(h: LogHasher, d: seq<Hash>, base: nat, p: nat, leaves: map<Suffix, Hash>,
                        internal: map<Suffix, Hash>)
    requires IsSubtree(h, d, base, p, leaves, internal) && leaves == map[]
    ensures internal == map[]
  {
    if internal != map[] {
      var k :| k in internal;
      InternalHasLeaf(h, d, base, p, leaves, internal, k);
      assert false;
    }
  }

  /** Below a stored internal node its leftmost leaf is stored. */
  lemma LeafBelowStored(base: nat, p: nat, c: Coord, n: nat)
    requires InSubtree(c) && c.level > 0 && Stored(Place(base, p, c), n)
    ensures Stored(Coord(base, Shl(p, 8) + Shl(c.index, c.level)), n)
  {
    hide Shl;
    PlaceStart(base, p, c);
    LeftmostStored(Place(base, p, c).index, Shl(p, 8) + Shl(c.index, c.level), base, c.level, n);
  }

  lemma LeftmostStored(x: nat, y: nat, base: nat, l: nat, n: nat)
    requires l > 0 && Shl(x, base + l) == Shl(y, base) && Shl(2 * x + 1, base + l - 1) < n
    ensures Stored(Coord(base, y), n)
  {
    hide Shl, Pow2;
    ShlSucc(2 * x, base + l - 1);
    ShlDouble(x, base + l - 1);
    if base == 0 {
      ShiftNothing(y);
    } else {
      ShlDouble(y, base - 1);
      ShlSucc(2 * y, base - 1);
      Pow2Monotone(base - 1, base + l - 1);
    }
  }

  /** An empty map is not kept apart from no map in storage. */
  function Marshalled(m: Option<map<Suffix, Hash>>): Option<map<Suffix, Hash>> {
    if m == Some(map[]) then None else m
  }

  /** Writing any subtree of any log and reading it back into a fresh cache restores every node, and the
      count check passes. */
  method StoreAndReload(h: LogHasher, st: Subtree, ghost d: seq<Hash>, ghost base: nat, ghost p: nat)
      returns (reloaded: Subtree, r: Result<(), SubtreeError>)
    requires st.depth == STRATA_DEPTH && st.internalNodes.Some?
    requires IsSubtree(h, d, base, p, st.leaves, st.internalNodes.value)
    modifies st
    ensures fresh(reloaded) && r.Ok? && reloaded.depth == STRATA_DEPTH
    ensures reloaded.leaves == old(st.leaves) && reloaded.internalNodes == old(st.internalNodes)
    ensures |st.leaves| == 256 ==>
              Exists(base + 8, p, |d|) && reloaded.rootHash == Some(Node(h, d, base + 8, p, |d|))
  {
    hide Canonical, Mirrors, Node, Root, LeafList, Packs;
    ghost var internal := st.internalNodes.value;
    SubtreeLeavesDense(h, d, base, p, st.leaves);
    Pow2Small();
    st.rootHash := None;
    var ok := st.Prepare();
    reloaded := new Subtree(st.depth, st.leaves, Marshalled(st.internalNodes), st.internalNodeCount);
    r := reloaded.Populate(h);
    if |st.leaves| == 256 {
      ghost var s :| Canonical(h, LeafList(st.leaves, 256), s) && Mirrors(reloaded.internalNodes.value, s);
      FullSubtreeMirrors(h, d, base, p, st.leaves, internal, s);
      MirrorUnique(internal, reloaded.internalNodes.value, s);
      FullSubtreeRoot(h, d, base, p, st.leaves);
    }
  }

  lemma FullSubtreeRoot(h: LogHasher, d: seq<Hash>, base: nat, p: nat, leaves: map<Suffix, Hash>)
    requires Packs(h, d, base, p, IsLeafKey, leaves)
    requires forall q :: 0 <= q < 256 ==> LeafKey(q) in leaves
    ensures Exists(base + 8, p, |d|) && Node(h, d, base + 8, p, |d|) == Root(h, LeafList(leaves, 256))
  {
    hide Node, FullLeaves, Packs, MTH;
    var list := LeafList(leaves, 256);
    FullLeavesOf(h, d, base, p, leaves);
    Pow2Small();
    assert Place(base, p, Coord(8, 0)) == Coord(base + 8, p);
    FullSubtreeNode(h, d, base, p, list, Coord(8, 0));
    RootNode(h, list, 8, 256);
  }
}
