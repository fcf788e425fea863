/** Map subtrees in storage (storage/cache/map_subtree_cache.go): they are written without any internal node, and
    these are recomputed from the leaves when the subtree is read back. */
module MapSubtree {
  import opened Bits
  import opened Hashing
  import opened LogTree
  import opened SparseTree
  import opened HStar2
  import opened NodeIds

  datatype PopulateError = NonLeafSuffix(bits: nat) | Failed(error: HStarError)

  const DEPTH_QUANTUM: nat := 8

  /** The node with suffix `k` in the subtree under node `x` at height `t`. */
  function NodeOf(t: nat, x: nat, k: Suffix): Coord
    requires k.bits <= t
  {
    Coord(t - k.bits, Shl(x, k.bits) + SuffixNumber(k))
  }

  /** The suffix of node `c`, which lies fewer than 256 levels below the root of the subtree. */
  function KeyOf(t: nat, x: nat, c: Coord): Suffix
    requires Inside(c, t, x) && t - c.level < 256
  {
    ShrBounds(c.index, t - c.level);
    SuffixFor(t - c.level, c.index - Shl(x, t - c.level))
  }

  /** `k` is the suffix of a node. */
  predicate IsKey(t: nat, k: Suffix) {
    k.bits <= t && WellFormed(k)
  }

  lemma KeyOfNode(t: nat, x: nat, k: Suffix)
    requires IsKey(t, k)
    ensures Inside(NodeOf(t, x, k), t, x) && KeyOf(t, x, NodeOf(t, x, k)) == k
  {
    hide Shl, Shr, WellFormed, SuffixNumber, SuffixFor, Pow2;
    NumberFitsSuffix(k);
    ShrUnique(Shl(x, k.bits) + SuffixNumber(k), k.bits, x);
  }

  lemma NodeOfKey(t: nat, x: nat, c: Coord)
    requires Inside(c, t, x) && t - c.level < 256
    ensures IsKey(t, KeyOf(t, x, c)) && NodeOf(t, x, KeyOf(t, x, c)) == c
  {
    hide Shl, Shr, WellFormed, SuffixNumber, Pow2;
    ShrBounds(c.index, t - c.level);
    SuffixForNumber(t - c.level, c.index - Shl(x, t - c.level));
  }

  // ---------- a subtree of the naive tree ----------

  /** Node `c` of the tree over `m`, in a map of nodes. */
  ghost predicate Holds(mh: MapHasher, nodes: map<Suffix, Hash>, m: map<nat, Hash>, t: nat, x: nat, k: Suffix)
    requires k.bits <= t
  {
    var c := NodeOf(t, x, k);
    && (k in nodes <==> !Vacant(m, 0, c.level, c.index))
    && (k in nodes ==> nodes[k] == Tree(mh, m, 0, c.level, c.index))
  }

  /** `leaves` are the non-empty nodes `depth` below the root of the subtree. */
  ghost predicate AreLeaves(mh: MapHasher, leaves: map<Suffix, Hash>, m: map<nat, Hash>, t: nat, x: nat, depth: nat) {
    && (forall k :: k in leaves ==> k.bits == depth && IsKey(t, k))
    && (forall k :: IsKey(t, k) && k.bits == depth ==> Holds(mh, leaves, m, t, x, k))
  }

  /** `k` is the suffix of an internal node; only the subtree at the top has room for its root. */
  predicate IsInternalKey(t: nat, depth: nat, top: bool, k: Suffix) {
    IsKey(t, k) && k.bits < depth && (top || k.bits > 0)
  }

  /** `nodes` are the non-empty nodes between the leaves and the root. */
  ghost predicate AreInternal(mh: MapHasher, nodes: map<Suffix, Hash>, m: map<nat, Hash>, t: nat, x: nat,
                              depth: nat, top: bool) {
    && (forall k :: k in nodes ==> IsInternalKey(t, depth, top, k))
    && (forall k :: IsInternalKey(t, depth, top, k) ==> Holds(mh, nodes, m, t, x, k))
  }

  lemma InternalUnique(mh: MapHasher, n1: map<Suffix, Hash>, n2: map<Suffix, Hash>, m: map<nat, Hash>, t: nat,
                       x: nat, depth: nat, top: bool)
    requires AreInternal(mh, n1, m, t, x, depth, top) && AreInternal(mh, n2, m, t, x, depth, top)
    ensures n1 == n2
  {
    hide Tree, Vacant, IsInternalKey, NodeOf;
    forall k ensures k in n1 <==> k in n2 ensures k in n1 ==> n1[k] == n2[k] {
      if k in n1 || k in n2 { assert IsInternalKey(t, depth, top, k); KeyFits(t, depth, top, k); }
    }
  }

  lemma KeyFits(t: nat, depth: nat, top: bool, k: Suffix)
    requires IsInternalKey(t, depth, top, k)
    ensures k.bits <= t
  {
  }

  // ---------- the leaves as values ----------

  /** The leaf with suffix `k` as a value for HStar2: its path, padded with zeros, as a number. */
  function ValueOf(t: nat, x: nat, k: Suffix, hash: Hash): LeafHash
    requires k.bits <= t
  {
    var c := NodeOf(t, x, k);
    LeafHash(Shl(c.index, c.level), hash)
  }

  /** `values` lists the entries of `leaves` with a key in `done`, once each. */
  ghost predicate Lists(values: seq<LeafHash>, keys: seq<Suffix>, leaves: map<Suffix, Hash>, t: nat, x: nat) {
    && |values| == |keys|
    && (forall i, j :: 0 <= i < j < |keys| ==> keys[i] != keys[j])
    && (forall i :: 0 <= i < |keys| ==>
         keys[i] in leaves && keys[i].bits <= t && values[i] == ValueOf(t, x, keys[i], leaves[keys[i]]))
  }

  lemma ValueKey(t: nat, x: nat, k: Suffix, hash: Hash)
    requires IsKey(t, k)
    ensures Shr(ValueOf(t, x, k, hash).index, t - k.bits) == NodeOf(t, x, k).index
    ensures Shr(ValueOf(t, x, k, hash).index, t) == x
  {
    hide Shl, Shr, WellFormed, SuffixNumber, KeyOf;
    var c := NodeOf(t, x, k);
    KeyOfNode(t, x, k);
    ShrUnique(Shl(c.index, c.level), c.level, c.index);
    ShrCompose(Shl(c.index, c.level), c.level, k.bits);
  }

  /** The leaves of a subtree are distinct values inside it. */
  lemma ListedFacts(values: seq<LeafHash>, keys: seq<Suffix>, leaves: map<Suffix, Hash>, t: nat, x: nat, depth: nat)
    requires depth <= t && Lists(values, keys, leaves, t, x)
    requires forall k :: k in leaves ==> k.bits == depth && IsKey(t, k)
    ensures Distinct(values, t - depth) && AllBelow(values, t, x)
    ensures forall i :: 0 <= i < |keys| ==> Shr(values[i].index, t - depth) == NodeOf(t, x, keys[i]).index
  {
    hide Shl, Shr, Inside, KeyOf;
    forall i | 0 <= i < |keys|
      ensures Shr(values[i].index, t) == x && Shr(values[i].index, t - depth) == NodeOf(t, x, keys[i]).index
    {
      ValueKey(t, x, keys[i], leaves[keys[i]]);
    }
    forall i, j | 0 <= i < j < |keys| ensures NodeOf(t, x, keys[i]).index != NodeOf(t, x, keys[j]).index {
      assert keys[i].bits == keys[j].bits == depth;
      KeyOfNode(t, x, keys[i]);
      KeyOfNode(t, x, keys[j]);
    }
  }

  /** As a map, they are the roots of the smaller subtrees of the naive tree, as far as this subtree goes. */
  lemma ListedMap(mh: MapHasher, values: seq<LeafHash>, keys: seq<Suffix>, leaves: map<Suffix, Hash>,
                  m: map<nat, Hash>, t: nat, x: nat, depth: nat)
    requires depth <= t && depth < 256 && Lists(values, keys, leaves, t, x) && AreLeaves(mh, leaves, m, t, x, depth)
    requires forall k :: k in leaves <==> k in keys
    ensures SameBelow(Updated(map[], values, t - depth), ShardRoots(mh, m, t - depth), t - depth, t, x)
  {
    hide Shl, Shr, Tree, Vacant, ShardRoots, ValueMap, Distinct, AllBelow, Lists;
    var b := t - depth;
    ListedFacts(values, keys, leaves, t, x, depth);
    forall y: nat | Shr(y, depth) == x
      ensures SameEntry(Updated(map[], values, b), ShardRoots(mh, m, b), y)
    {
      ListedEntry(mh, values, keys, leaves, m, t, x, depth, y);
    }
  }

  lemma ListedEntry(mh: MapHasher, values: seq<LeafHash>, keys: seq<Suffix>, leaves: map<Suffix, Hash>,
                    m: map<nat, Hash>, t: nat, x: nat, depth: nat, y: nat)
    requires depth <= t && depth < 256 && Lists(values, keys, leaves, t, x) && AreLeaves(mh, leaves, m, t, x, depth)
    requires forall k :: k in leaves <==> k in keys
    requires Shr(y, depth) == x
    ensures SameEntry(Updated(map[], values, t - depth), ShardRoots(mh, m, t - depth), y)
  {
    hide Shl, Shr, Tree, Vacant, ShardRoots, ValueMap, Distinct, AllBelow, KeyOf;
    var b, c := t - depth, Coord(t - depth, y);
    ListedFacts(values, keys, leaves, t, x, depth);
    ValueMapKeys(values, b, y);
    ShardRootKeys(mh, m, b, y);
    var k := KeyOf(t, x, c);
    NodeOfKey(t, x, c);
    assert Holds(mh, leaves, m, t, x, k);
    if k in leaves {
      var i :| 0 <= i < |keys| && keys[i] == k;
      assert Shr(values[i].index, b) == y && values[i].hash == leaves[k];
    }
    if i :| 0 <= i < |values| && Shr(values[i].index, b) == y {
      assert NodeOf(t, x, keys[i]) == c;
      KeyOfNode(t, x, keys[i]);
    }
  }

  // ---------- what HStar2 rebuilds ----------

  lemma TouchedIff(mh: MapHasher, values: seq<LeafHash>, b: nat, c: Coord)
    requires b <= c.level && Distinct(values, b)
    ensures Touched(values, c) <==> !Vacant(Updated(map[], values, b), b, c.level, c.index)
  {
    hide ValueMap, Touched, Distinct, SameBelow, Updated, Shr;
    UpdatedEntry(mh, map[], values, b, c);
    if !Touched(values, c) { TreeFrame(mh, map[], Updated(map[], values, b), b, c.level, c.index); }
  }

  /** From its leaves, HStar2 computes the subtree's root and sets exactly its non-empty nodes. */
  lemma Rebuilt(mh: MapHasher, values: seq<LeafHash>, keys: seq<Suffix>, leaves: map<Suffix, Hash>,
                m: map<nat, Hash>, prefixBytes: nat, x: nat, depth: nat)
    requires 8 * prefixBytes + depth <= mh.bits && depth < 256
    requires Lists(values, keys, leaves, mh.bits - 8 * prefixBytes, x)
             && AreLeaves(mh, leaves, m, mh.bits - 8 * prefixBytes, x, depth)
    requires forall k :: k in leaves <==> k in keys
    ensures
      var t, b := mh.bits - 8 * prefixBytes, mh.bits - 8 * prefixBytes - depth;
      var out := HStar2Nodes(mh, map[], prefixBytes, x, depth, values);
      && out.root == Ok(Tree(mh, m, 0, t, x))
      && SetAll(mh, out.sets, m, t, x, b)
  {
    hide HStar2Nodes, StoreOk, Tree, Vacant, Lists, AreLeaves, Distinct, AllBelow, Updated, ShardRoots, SameBelow, Shl,
         Shr, Written, SetOk, SetNode, Inside;
    var t, b := mh.bits - 8 * prefixBytes, mh.bits - 8 * prefixBytes - depth;
    LeavesFacts(mh, values, keys, leaves, m, t, x, depth);
    NothingStored(mh, b, t, x);
    HStar2NodesCorrect(mh, map[], map[], prefixBytes, x, depth, values);
    ListedMap(mh, values, keys, leaves, m, t, x, depth);
    TreeFrame(mh, Updated(map[], values, b), ShardRoots(mh, m, b), b, t, x);
    ShardedTree(mh, m, b, t, x);
    var out := HStar2Nodes(mh, map[], prefixBytes, x, depth, values);
    forall c: Coord ensures SetNode(mh, out.sets, m, t, x, b, c) {
      RebuiltNode(mh, out.sets, values, m, t, x, b, c);
    }
  }

  lemma LeavesFacts(mh: MapHasher, values: seq<LeafHash>, keys: seq<Suffix>, leaves: map<Suffix, Hash>,
                    m: map<nat, Hash>, t: nat, x: nat, depth: nat)
    requires depth <= t && Lists(values, keys, leaves, t, x) && AreLeaves(mh, leaves, m, t, x, depth)
    ensures Distinct(values, t - depth) && AllBelow(values, t, x)
  {
    hide Shl, Shr, Tree, Vacant, Distinct, AllBelow, Lists, Holds;
    ListedFacts(values, keys, leaves, t, x, depth);
  }

  ghost predicate SetNode(mh: MapHasher, sets: map<Coord, Hash>, m: map<nat, Hash>, t: nat, x: nat, b: nat, c: Coord) {
    && (c in sets <==> b < c.level && Inside(c, t, x) && !Vacant(m, 0, c.level, c.index))
    && (c in sets ==> sets[c] == Tree(mh, m, 0, c.level, c.index))
  }

  ghost predicate SetAll(mh: MapHasher, sets: map<Coord, Hash>, m: map<nat, Hash>, t: nat, x: nat, b: nat) {
    forall c: Coord :: SetNode(mh, sets, m, t, x, b, c)
  }

  lemma RebuiltNode(mh: MapHasher, sets: map<Coord, Hash>, values: seq<LeafHash>, m: map<nat, Hash>, t: nat, x: nat,
                    b: nat, c: Coord)
    requires b <= t && Distinct(values, b) && SetOk(mh, sets, Updated(map[], values, b), values, t, x, b, c)
    requires SameBelow(Updated(map[], values, b), ShardRoots(mh, m, b), b, t, x)
    ensures SetNode(mh, sets, m, t, x, b, c)
  {
    hide Tree, Vacant, Distinct, Updated, ShardRoots, SameBelow, Shl, Shr, Inside, Touched;
    if b < c.level && Inside(c, t, x) {
      TouchedIff(mh, values, b, c);
      FrameInside(mh, Updated(map[], values, b), ShardRoots(mh, m, b), b, t, x, c);
      TreeFrame(mh, Updated(map[], values, b), ShardRoots(mh, m, b), b, c.level, c.index);
      ShardedTree(mh, m, b, c.level, c.index);
    }
  }

  // ---------- reading and writing ----------

  /** The internal nodes taken from the nodes `sets`. */
  ghost predicate Taken(nodes: map<Suffix, Hash>, sets: map<Coord, Hash>, t: nat, x: nat, depth: nat, top: bool) {
    && (forall k :: k in nodes <==> IsInternalKey(t, depth, top, k) && NodeOf(t, x, k) in sets)
    && (forall k :: k in nodes ==> nodes[k] == sets[NodeOf(t, x, k)])
  }

  lemma TakenIsInternal(mh: MapHasher, nodes: map<Suffix, Hash>, sets: map<Coord, Hash>, m: map<nat, Hash>,
                        t: nat, x: nat, depth: nat, top: bool)
    requires depth <= t && Taken(nodes, sets, t, x, depth, top)
    requires SetAll(mh, sets, m, t, x, t - depth)
    ensures AreInternal(mh, nodes, m, t, x, depth, top)
  {
    hide Tree, Vacant, Inside, Shl, Pow2, KeyOf;
    forall k | IsInternalKey(t, depth, top, k) ensures Holds(mh, nodes, m, t, x, k) {
      KeyOfNode(t, x, k);
      assert SetNode(mh, sets, m, t, x, t - depth, NodeOf(t, x, k));
    }
  }

  /** Storing node `c` under its suffix. */
  lemma TakeStep(nodes: map<Suffix, Hash>, sets: map<Coord, Hash>, c: Coord, hash: Hash, t: nat, x: nat, depth: nat,
                 top: bool)
    requires depth <= 256 && Taken(nodes, sets, t, x, depth, top) && Inside(c, t, x) && t - depth < c.level
    ensures top || c != Coord(t, x) ==> Taken(nodes[KeyOf(t, x, c) := hash], sets[c := hash], t, x, depth, top)
    ensures !top && c == Coord(t, x) ==> Taken(nodes, sets[c := hash], t, x, depth, top)
  {
    hide Shl, Pow2, KeyOf, Inside;
    NodeOfKey(t, x, c);
    InsideRoot(c, t, x);
    forall k | IsKey(t, k) && NodeOf(t, x, k) == c ensures k == KeyOf(t, x, c) { KeyOfNode(t, x, k); }
  }

  lemma InsideRoot(c: Coord, t: nat, x: nat)
    requires Inside(c, t, x) && t - c.level < 256
    ensures KeyOf(t, x, c).bits == t - c.level && (c.level == t <==> c == Coord(t, x))
  {
  }

  lemma NoneTaken(t: nat, x: nat, depth: nat, top: bool)
    ensures Taken(map[], map[], t, x, depth, top)
  {
  }

  /** The setter is only called for nodes of the subtree, above its leaves. */
  lemma {:induction false} SetsInside(mh: MapHasher, store: map<Coord, Hash>, values: seq<LeafHash>, t: nat, x: nat,
                                      b: nat, c: Coord)
    requires b <= t && c in HStar2b(mh, store, values, Shl(x, t), t, b).sets
    ensures Inside(c, t, x) && b < c.level
    decreases t
  {
    hide HStar2b, Shl, Shr, Inside, FirstAtLeast, Pow2;
    if t == b || values == [] {
      HStarBase(mh, store, values, t, x, b);
    } else {
      var split := Shl(2 * x + 1, t - 1);
      ShlDouble(x, t - 1);
      ShlSucc(2 * x, t - 1);
      ShrUnique(Shl(x, t), t, x);
      var i := FirstAtLeast(values, split);
      HStarUnfold(mh, store, values, Shl(x, t), split, t, b, i);
      InsideChildren(c, t, x);
      if c in HStar2b(mh, store, values[..i], Shl(2 * x, t - 1), t - 1, b).sets {
        SetsInside(mh, store, values[..i], t - 1, 2 * x, b, c);
      }
      if c in HStar2b(mh, store, values[i..], split, t - 1, b).sets {
        SetsInside(mh, store, values[i..], t - 1, 2 * x + 1, b, c);
      }
    }
  }

  lemma SetsBelow(mh: MapHasher, values: seq<LeafHash>, prefixBytes: nat, x: nat, depth: nat)
    requires DEPTH_QUANTUM * prefixBytes + depth <= mh.bits
    ensures
      var t, sets := mh.bits - DEPTH_QUANTUM * prefixBytes, HStar2Nodes(mh, map[], prefixBytes, x, depth, values).sets;
      forall c: Coord :: c in sets ==> Inside(c, t, x) && t - depth < c.level
  {
    hide HStar2b, Inside, Sort;
    var t, sets := mh.bits - DEPTH_QUANTUM * prefixBytes, HStar2Nodes(mh, map[], prefixBytes, x, depth, values).sets;
    forall c: Coord | c in sets ensures Inside(c, t, x) && t - depth < c.level {
      SetsInside(mh, map[], Sort(values), t, x, t - depth, c);
    }
  }

  lemma Overrun(mh: MapHasher, prefixBytes: nat, x: nat, depth: nat, values: seq<LeafHash>)
    requires DEPTH_QUANTUM * prefixBytes + depth > mh.bits
    ensures HStar2Nodes(mh, map[], prefixBytes, x, depth, values) == Outcome(Err(SubtreeOverrun), map[])
  {
  }

  lemma LeafDepths(mh: MapHasher, leaves: map<Suffix, Hash>, m: map<nat, Hash>, t: nat, x: nat, depth: nat)
    requires AreLeaves(mh, leaves, m, t, x, depth)
    ensures forall k :: k in leaves ==> k.bits == depth
  {
  }

  class MapSubtreeProto {
    const prefixBytes: nat
    const prefix: nat
    const depth: nat
    var leaves: map<Suffix, Hash>
    var internalNodes: Option<map<Suffix, Hash>>
    var rootHash: Option<Hash>
    var internalNodeCount: nat

    constructor (prefixBytes: nat, prefix: nat, depth: nat, leaves: map<Suffix, Hash>)
      ensures this.prefixBytes == prefixBytes && this.prefix == prefix && this.depth == depth
      ensures this.leaves == leaves && internalNodes == None
    {
      this.prefixBytes, this.prefix, this.depth, this.leaves := prefixBytes, prefix, depth, leaves;
      internalNodes, rootHash, internalNodeCount := None, None, 0;
    }

    /** `prepareMapSubtreeWrite` */
    method Prepare()
      modifies this`internalNodes, this`internalNodeCount
      ensures internalNodes == None && internalNodeCount == 0
    {
      internalNodes, internalNodeCount := None, 0;
    }

    /** The leaves, in whatever order the map gives them. */
    method LeafValues(t: nat) returns (r: Result<seq<LeafHash>, PopulateError>, ghost keys: seq<Suffix>)
      requires forall k :: k in leaves ==> k.bits <= t
      ensures r.Err? <==> exists k :: k in leaves && k.bits % DEPTH_QUANTUM != 0
      ensures r.Err? ==> exists k :: k in leaves && k.bits % DEPTH_QUANTUM != 0 && r == Err(NonLeafSuffix(k.bits))
      ensures r.Ok? ==> Lists(r.value, keys, leaves, t, prefix) && forall k :: k in leaves <==> k in keys
    {
      hide Shl, ValueOf;
      var values: seq<LeafHash>, left := [], leaves.Keys;
      keys := [];
      while left != {}
        invariant left <= leaves.Keys
        invariant forall k :: k in leaves <==> k in left || k in keys
        invariant forall k :: k in keys ==> k !in left && k.bits % DEPTH_QUANTUM == 0
        invariant Lists(values, keys, leaves, t, prefix)
      {
        var k :| k in left;
        if k.bits % DEPTH_QUANTUM != 0 {
          assert k in leaves;
          return Err(NonLeafSuffix(k.bits)), keys;
        }
        left := left - {k};
        values, keys := values + [ValueOf(t, prefix, k, leaves[k])], keys + [k];
      }
      return Ok(values), keys;
    }

    /** What the setter does with the nodes it is given, in whatever order. */
    method SetNodes(sets: map<Coord, Hash>, t: nat)
      requires internalNodes == Some(map[]) && depth <= t && depth <= MAX_TREE_DEPTH
      requires forall c: Coord :: c in sets ==> Inside(c, t, prefix) && t - depth < c.level
      modifies this`internalNodes
      ensures internalNodes.Some? && Taken(internalNodes.value, sets, t, prefix, depth, prefixBytes == 0)
    {
      hide Taken, Shr, Shl, KeyOf;
      var left := sets.Keys;
      ghost var done: map<Coord, Hash> := map[];
      NoneTaken(t, prefix, depth, prefixBytes == 0);
      while left != {}
        invariant left <= sets.Keys && internalNodes.Some?
        invariant done == map c | c in sets && c !in left :: sets[c]
        invariant Taken(internalNodes.value, done, t, prefix, depth, prefixBytes == 0)
      {
        var c :| c in left;
        TakeStep(internalNodes.value, done, c, sets[c], t, prefix, depth, prefixBytes == 0);
        if !(c == Coord(t, prefix) && prefixBytes > 0) {
          internalNodes := Some(internalNodes.value[KeyOf(t, prefix, c) := sets[c]]);
        }
        left, done := left - {c}, done[c := sets[c]];
      }
      assert done == sets;
    }

    /** `populateMapSubtreeNodes`: whatever the order, a subtree of the naive tree over `m` gets back exactly its
        internal nodes and its root. */
    method Populate(mh: MapHasher, ghost m: map<nat, Hash>) returns (r: Result<(), PopulateError>)
      requires DEPTH_QUANTUM * prefixBytes <= mh.bits && depth <= MAX_TREE_DEPTH
      requires forall k :: k in leaves ==> k.bits <= mh.bits - DEPTH_QUANTUM * prefixBytes
      modifies this`internalNodes, this`rootHash
      ensures (exists k :: k in leaves && k.bits % DEPTH_QUANTUM != 0) ==>
                exists k :: k in leaves && k.bits % DEPTH_QUANTUM != 0 && r == Err(NonLeafSuffix(k.bits))
      ensures (forall k :: k in leaves ==> k.bits % DEPTH_QUANTUM == 0)
              && DEPTH_QUANTUM * prefixBytes + depth > mh.bits ==>
                r == Err(Failed(SubtreeOverrun))
      ensures
        var t := mh.bits - DEPTH_QUANTUM * prefixBytes;
        depth <= t && depth < 256 && depth % DEPTH_QUANTUM == 0 && AreLeaves(mh, leaves, m, t, prefix, depth) ==>
          && r.Ok? && rootHash == Some(Tree(mh, m, 0, t, prefix))
          && internalNodes.Some? && AreInternal(mh, internalNodes.value, m, t, prefix, depth, prefixBytes == 0)
    {
      hide Shl, Shr, Tree, Vacant, HStar2Nodes, Lists, AreLeaves, AreInternal, Taken, SetAll;
      var t := mh.bits - DEPTH_QUANTUM * prefixBytes;
      ghost var isSubtree := depth <= t && depth < 256 && depth % DEPTH_QUANTUM == 0
          && AreLeaves(mh, leaves, m, t, prefix, depth);
      if isSubtree { LeafDepths(mh, leaves, m, t, prefix, depth); }
      internalNodes := Some(map[]);
      var values, keys := LeafValues(t);
      if values.Err? { return Err(values.error); }
      var out := HStar2Nodes(mh, map[], prefixBytes, prefix, depth, values.value);
      if depth > t {
        Overrun(mh, prefixBytes, prefix, depth, values.value);
        return Err(Failed(out.root.error));
      }
      if isSubtree {
        Rebuilt(mh, values.value, keys, leaves, m, prefixBytes, prefix, depth);
      }
      SetsBelow(mh, values.value, prefixBytes, prefix, depth);
      SetNodes(out.sets, t);
      if isSubtree {
        TakenIsInternal(mh, internalNodes.value, out.sets, m, t, prefix, depth, prefixBytes == 0);
      }
      if out.root.Err? { return Err(Failed(out.root.error)); }
      rootHash := Some(out.root.value);
      return Ok(());
    }
  }

  /** What is written: the prefix, the depth and the leaves. */
  method Marshalled(st: MapSubtreeProto) returns (copy: MapSubtreeProto)
    requires st.internalNodes == None
    ensures fresh(copy) && copy.prefixBytes == st.prefixBytes && copy.prefix == st.prefix && copy.depth == st.depth
    ensures copy.leaves == st.leaves && copy.internalNodes == None
  {
    copy := new MapSubtreeProto(st.prefixBytes, st.prefix, st.depth, st.leaves);
  }

  /** Writing a subtree of the naive tree over `m` and reading it back returns every node it held. */
  method StoreAndReload(mh: MapHasher, st: MapSubtreeProto, ghost m: map<nat, Hash>)
      returns (copy: MapSubtreeProto, r: Result<(), PopulateError>)
    requires DEPTH_QUANTUM * st.prefixBytes + st.depth <= mh.bits && st.depth < 256 && st.depth % DEPTH_QUANTUM == 0
    requires
      var t := mh.bits - DEPTH_QUANTUM * st.prefixBytes;
      && AreLeaves(mh, st.leaves, m, t, st.prefix, st.depth)
      && st.internalNodes.Some?
      && AreInternal(mh, st.internalNodes.value, m, t, st.prefix, st.depth, st.prefixBytes == 0)
    modifies st
    ensures r.Ok? && fresh(copy) && copy.depth == st.depth
    ensures copy.leaves == old(st.leaves) && copy.internalNodes == old(st.internalNodes)
    ensures copy.rootHash == Some(Tree(mh, m, 0, mh.bits - DEPTH_QUANTUM * st.prefixBytes, st.prefix))
  {
    hide Tree, Vacant, AreLeaves, AreInternal;
    ghost var t, before := mh.bits - DEPTH_QUANTUM * st.prefixBytes, st.internalNodes;
    LeafDepths(mh, st.leaves, m, t, st.prefix, st.depth);
    st.Prepare();
    copy := Marshalled(st);
    r := copy.Populate(mh, m);
    InternalUnique(mh, copy.internalNodes.value, before.value, m, t, st.prefix, st.depth, st.prefixBytes == 0);
  }
}
