/** The sparse tree writer (merkle/sparse_merkle_tree.go): leaves are handed to one child subtree per first byte
    of the index, each child computes its root, and a top subtree of eight levels takes those roots as leaves.
    Children run one after the other here and the channel of futures is a queue of prefixes. */
module SparseWriter {
  import opened Bits
  import opened Hashing
  import opened LogTree
  import opened SparseTree
  import opened HStar2
  import opened EmptyBranches

  const TOP_DEPTH: nat := 8

  /** The leaves whose index starts with `prefix`, in the order they were set. */
  function WithPrefix(leaves: seq<LeafHash>, base: nat, prefix: nat): seq<LeafHash> {
    if leaves == [] then []
    else
      var rest, last := WithPrefix(leaves[..|leaves| - 1], base, prefix), leaves[|leaves| - 1];
      if Shr(last.index, base) == prefix then rest + [last] else rest
  }

  lemma {:induction false} WithPrefixFacts(leaves: seq<LeafHash>, base: nat, prefix: nat)
    ensures forall v :: v in WithPrefix(leaves, base, prefix) <==> v in leaves && Shr(v.index, base) == prefix
    ensures AllBelow(WithPrefix(leaves, base, prefix), base, prefix)
  {
    if leaves != [] {
      WithPrefixFacts(leaves[..|leaves| - 1], base, prefix);
      assert leaves == leaves[..|leaves| - 1] + [leaves[|leaves| - 1]];
    }
  }

  /** One more leaf: it goes with its own prefix only. */
  lemma PrefixStep(rest: seq<LeafHash>, last: LeafHash, base: nat, prefix: nat)
    ensures var own := WithPrefix(rest, base, prefix);
            && (Shr(last.index, base) != prefix ==> WithPrefix(rest + [last], base, prefix) == own)
            && (Shr(last.index, base) == prefix ==>
                  && (Distinct(WithPrefix(rest + [last], base, prefix), 0) <==> Distinct(own, 0) && Apart(own, last, 0))
                  && (Apart(own, last, 0) <==> Apart(rest, last, 0)))
    ensures Distinct(rest + [last], 0) <==> Distinct(rest, 0) && Apart(rest, last, 0)
  {
    hide Distinct, Apart;
    var own := WithPrefix(rest, base, prefix);
    assert (rest + [last])[..|rest|] == rest;
    assert rest[..|rest|] + [last] + rest[|rest|..] == rest + [last];
    assert own[..|own|] + [last] + own[|own|..] == own + [last];
    DistinctInsert(rest, |rest|, last, 0);
    DistinctInsert(own, |own|, last, 0);
    ApartByPrefix(rest, last, base);
  }

  /** Leaves with different prefixes never share an index. */
  lemma {:induction false} DistinctByPrefix(leaves: seq<LeafHash>, base: nat)
    ensures Distinct(leaves, 0) <==> AllDistinct(leaves, base)
  {
    if leaves == [] {
      forall prefix: nat ensures Distinct(WithPrefix(leaves, base, prefix), 0) {}
    } else {
      var rest, last := leaves[..|leaves| - 1], leaves[|leaves| - 1];
      assert leaves == rest + [last];
      DistinctByPrefix(rest, base);
      DistinctByPrefixStep(rest, last, leaves, base);
    }
  }

  ghost predicate AllDistinct(leaves: seq<LeafHash>, base: nat) {
    forall prefix: nat :: Distinct(WithPrefix(leaves, base, prefix), 0)
  }

  lemma DistinctByPrefixStep(rest: seq<LeafHash>, last: LeafHash, leaves: seq<LeafHash>, base: nat)
    requires leaves == rest + [last]
    requires Distinct(rest, 0) <==> AllDistinct(rest, base)
    ensures Distinct(leaves, 0) <==> AllDistinct(leaves, base)
  {
    hide Distinct, Apart, Shr, WithPrefix;
    var p := Shr(last.index, base);
    PrefixStep(rest, last, base, p);
    if Distinct(leaves, 0) {
      forall prefix: nat ensures Distinct(WithPrefix(leaves, base, prefix), 0) {
        assert Distinct(WithPrefix(rest, base, prefix), 0);
        PrefixStep(rest, last, base, prefix);
      }
    }
    if AllDistinct(leaves, base) {
      assert Distinct(WithPrefix(leaves, base, p), 0);
      forall prefix: nat ensures Distinct(WithPrefix(rest, base, prefix), 0) {
        assert Distinct(WithPrefix(leaves, base, prefix), 0);
        PrefixStep(rest, last, base, prefix);
      }
    }
  }

  lemma ApartByPrefix(leaves: seq<LeafHash>, v: LeafHash, base: nat)
    ensures Apart(leaves, v, 0) <==> Apart(WithPrefix(leaves, base, Shr(v.index, base)), v, 0)
  {
    var own := WithPrefix(leaves, base, Shr(v.index, base));
    WithPrefixFacts(leaves, base, Shr(v.index, base));
    forall j | 0 <= j < |leaves| && leaves[j].index == v.index ensures leaves[j] in own {}
    forall j | 0 <= j < |own| ensures own[j] in leaves {}
  }

  /** Below a prefix, the map is updated by the leaves with that prefix only. */
  lemma UpdatedBelowPrefix(m: map<nat, Hash>, leaves: seq<LeafHash>, base: nat, prefix: nat)
    requires Distinct(leaves, 0) && Distinct(WithPrefix(leaves, base, prefix), 0)
    ensures SameBelow(Updated(m, leaves, 0), Updated(m, WithPrefix(leaves, base, prefix), 0), 0, base, prefix)
  {
    hide ValueMap, Distinct;
    var own := WithPrefix(leaves, base, prefix);
    WithPrefixFacts(leaves, base, prefix);
    forall y: nat | Shr(y, base) == prefix ensures SameEntry(ValueMap(leaves, 0), ValueMap(own, 0), y) {
      ValueMapKeys(leaves, 0, y);
      ValueMapKeys(own, 0, y);
      if i :| 0 <= i < |leaves| && Shr(leaves[i].index, 0) == y {
        assert leaves[i] in own;
        var j :| 0 <= j < |own| && own[j] == leaves[i];
      }
      if j :| 0 <= j < |own| && Shr(own[j].index, 0) == y {
        assert own[j] in leaves;
        var i :| 0 <= i < |leaves| && leaves[i] == own[j];
      }
    }
  }

  lemma TouchedByPrefix(leaves: seq<LeafHash>, base: nat, prefix: nat, c: Coord)
    requires Inside(c, base, prefix)
    ensures Touched(leaves, c) <==> Touched(WithPrefix(leaves, base, prefix), c)
  {
    var own := WithPrefix(leaves, base, prefix);
    WithPrefixFacts(leaves, base, prefix);
    if i :| 0 <= i < |leaves| && Shr(leaves[i].index, c.level) == c.index {
      ShrCompose(leaves[i].index, c.level, base - c.level);
      assert leaves[i] in own;
      var j :| 0 <= j < |own| && own[j] == leaves[i];
    }
    if j :| 0 <= j < |own| && Shr(own[j].index, c.level) == c.index {
      assert own[j] in leaves;
      var i :| 0 <= i < |leaves| && leaves[i] == own[j];
    }
  }

  // ---------- one child ----------

  /** What a child stores: its leaves and the nodes it set, except its own root. */
  function ChildNodes(values: seq<LeafHash>, sets: map<Coord, Hash>, base: nat, prefix: nat): map<Coord, Hash> {
    BaseNodes(ValueMap(values, 0), 0) + (sets - {Coord(base, prefix)})
  }

  /** `nodes` holds exactly the touched nodes selected by `which`, with their hashes in the new tree. */
  ghost predicate HoldsTouched(mh: MapHasher, nodes: map<Coord, Hash>, m': map<nat, Hash>, leaves: seq<LeafHash>,
                               which: iset<Coord>) {
    && (forall c: Coord :: c in nodes <==> c in which && Touched(leaves, c))
    && (forall c: Coord :: c in nodes ==> nodes[c] == Tree(mh, m', 0, c.level, c.index))
  }

  ghost function BelowPrefix(base: nat, prefix: nat): iset<Coord> {
    iset c: Coord | c.level < base && Inside(c, base, prefix)
  }

  lemma ChildCorrect(mh: MapHasher, store: map<Coord, Hash>, m: map<nat, Hash>, leaves: seq<LeafHash>, prefix: nat)
    requires mh.bits > TOP_DEPTH && StoreOk(mh, store, m, 0, mh.bits - TOP_DEPTH, prefix)
    ensures
      var base := mh.bits - TOP_DEPTH;
      var values := WithPrefix(leaves, base, prefix);
      var out := HStar2Nodes(mh, store, 1, prefix, base, values);
      && (out.root.Err? <==> !Distinct(values, 0))
      && (Distinct(leaves, 0) && Distinct(values, 0) ==>
            && out.root == Ok(Tree(mh, Updated(m, leaves, 0), 0, base, prefix))
            && HoldsTouched(mh, ChildNodes(values, out.sets, base, prefix), Updated(m, leaves, 0), leaves,
                 BelowPrefix(base, prefix)))
  {
    hide HStar2Nodes, StoreOk, Distinct, Shr, WithPrefix, Updated, Touched, SameBelow, Inside, Tree, ValueMap, SetOk,
         ChildNodes, BelowPrefix, Written;
    var base := mh.bits - TOP_DEPTH;
    var values := WithPrefix(leaves, base, prefix);
    var out := HStar2Nodes(mh, store, 1, prefix, base, values);
    WithPrefixFacts(leaves, base, prefix);
    HStar2NodesCorrect(mh, store, m, 1, prefix, base, values);
    if Distinct(leaves, 0) && Distinct(values, 0) {
      var m', mv := Updated(m, leaves, 0), Updated(m, values, 0);
      UpdatedBelowPrefix(m, leaves, base, prefix);
      TreeFrame(mh, m', mv, 0, base, prefix);
      var nodes := ChildNodes(values, out.sets, base, prefix);
      forall c: Coord
        ensures c in nodes <==> c in BelowPrefix(base, prefix) && Touched(leaves, c)
        ensures c in nodes ==> nodes[c] == Tree(mh, m', 0, c.level, c.index)
      {
        assert SetOk(mh, out.sets, mv, values, base, prefix, 0, c);
        ChildNode(mh, m, m', leaves, values, out.sets, base, prefix, c);
      }
    }
  }

  lemma ChildNode(mh: MapHasher, m: map<nat, Hash>, m': map<nat, Hash>, leaves: seq<LeafHash>, values: seq<LeafHash>,
                  sets: map<Coord, Hash>, base: nat, prefix: nat, c: Coord)
    requires base > 0 && values == WithPrefix(leaves, base, prefix) && Distinct(values, 0)
    requires SetOk(mh, sets, Updated(m, values, 0), values, base, prefix, 0, c)
    requires SameBelow(m', Updated(m, values, 0), 0, base, prefix)
    ensures
      var nodes := ChildNodes(values, sets, base, prefix);
      && (c in nodes <==> c in BelowPrefix(base, prefix) && Touched(leaves, c))
      && (c in nodes ==> nodes[c] == Tree(mh, m', 0, c.level, c.index))
  {
    hide Distinct, Shr, WithPrefix, Updated, Touched, SameBelow, Tree, ValueMap, BaseNodes;
    BaseNodesEntry(ValueMap(values, 0), 0, c);
    UpdatedEntry(mh, m, values, 0, c);
    InsideTop(c, base, prefix);
    WithPrefixFacts(leaves, base, prefix);
    if c.level == 0 && Touched(values, c) { TouchedInside(values, base, prefix, c); }
    if Inside(c, base, prefix) {
      TouchedByPrefix(leaves, base, prefix, c);
      FrameInside(mh, m', Updated(m, values, 0), 0, base, prefix, c);
    }
  }

  lemma InsideTop(c: Coord, t: nat, x: nat)
    ensures Inside(c, t, x) && c.level == t <==> c == Coord(t, x)
  {
  }

  lemma TouchedInside(values: seq<LeafHash>, t: nat, x: nat, c: Coord)
    requires AllBelow(values, t, x) && Touched(values, c) && c.level <= t
    ensures Inside(c, t, x)
  {
    var i :| 0 <= i < |values| && Shr(values[i].index, c.level) == c.index;
    ShrCompose(values[i].index, c.level, t - c.level);
  }

  // ---------- what storage holds ----------

  /** `queue` lists every prefix that occurs, and none twice. */
  ghost predicate CoversPrefixes(queue: seq<nat>, leaves: seq<LeafHash>, base: nat) {
    && (forall j, k :: 0 <= j < k < |queue| ==> queue[j] != queue[k])
    && (forall c: nat :: Touched(leaves, Coord(base, c)) ==> c in queue)
  }

  /** And no other. */
  ghost predicate ListsPrefixes(queue: seq<nat>, leaves: seq<LeafHash>, base: nat) {
    CoversPrefixes(queue, leaves, base) && forall c: nat :: c in queue ==> Touched(leaves, Coord(base, c))
  }

  /** The prefixes in `queue` are nodes `depth` below the root. */
  predicate FitsTop(queue: seq<nat>, depth: nat) {
    forall j :: 0 <= j < |queue| ==> Shr(queue[j], depth) == 0
  }

  /** Below the roots of the children, storage holds the tree over `m`. */
  ghost predicate HeldBelow(mh: MapHasher, store: map<Coord, Hash>, m: map<nat, Hash>) {
    forall c: Coord :: c.level < mh.bits - TOP_DEPTH && Inside(c, mh.bits, 0) ==> NodeOk(mh, store, m, 0, c)
  }

  /** From these roots up, it holds the tree over `roots`. After a batch that failed, or with leaves that were
      rejected, these need not be the roots of the tree below them. */
  ghost predicate Held(mh: MapHasher, store: map<Coord, Hash>, m: map<nat, Hash>, roots: map<nat, Hash>)
    requires mh.bits > TOP_DEPTH
  {
    HeldBelow(mh, store, m) && StoreOk(mh, store, roots, mh.bits - TOP_DEPTH, mh.bits, 0)
  }

  lemma ShardStoreOk(mh: MapHasher, store: map<Coord, Hash>, m: map<nat, Hash>, base: nat, t: nat, x: nat)
    requires StoreOk(mh, store, m, 0, t, x)
    ensures StoreOk(mh, store, ShardRoots(mh, m, base), base, t, x)
  {
    hide Tree, Vacant, ShardRoots, Inside;
    forall c: Coord | base <= c.level && Inside(c, t, x) ensures NodeOk(mh, store, ShardRoots(mh, m, base), base, c) {
      assert NodeOk(mh, store, m, 0, c);
      ShardedTree(mh, m, base, c.level, c.index);
    }
  }

  /** If they are, storage holds one tree. */
  lemma WholeIsHeld(mh: MapHasher, store: map<Coord, Hash>, m: map<nat, Hash>)
    requires mh.bits > TOP_DEPTH
    ensures StoreOk(mh, store, m, 0, mh.bits, 0) <==> Held(mh, store, m, ShardRoots(mh, m, mh.bits - TOP_DEPTH))
  {
    hide Tree, Vacant, ShardRoots, Inside;
    var base := mh.bits - TOP_DEPTH;
    if StoreOk(mh, store, m, 0, mh.bits, 0) { ShardStoreOk(mh, store, m, base, mh.bits, 0); }
    if Held(mh, store, m, ShardRoots(mh, m, base)) {
      forall c: Coord | 0 <= c.level && Inside(c, mh.bits, 0) ensures NodeOk(mh, store, m, 0, c) {
        if c.level >= base {
          assert NodeOk(mh, store, ShardRoots(mh, m, base), base, c);
          ShardedTree(mh, m, base, c.level, c.index);
        }
      }
    }
  }

  // ---------- one subtree worker ----------

  /** One subtree worker: its root and the nodes it writes. The root of a child is left to the top subtree. */
  function BuildSubtree(mh: MapHasher, store: map<Coord, Hash>, prefixBytes: nat, x: nat, depth: nat,
                        values: seq<LeafHash>): Outcome {
    var out := HStar2Nodes(mh, store, prefixBytes, x, depth, values);
    if out.root.Err? || 8 * prefixBytes + depth > mh.bits then Outcome(out.root, map[])
    else
      var t := mh.bits - 8 * prefixBytes;
      var leafNodes := BaseNodes(ValueMap(values, t - depth), t - depth);
      Outcome(out.root, leafNodes + if prefixBytes > 0 then out.sets - {Coord(t, x)} else out.sets)
  }

  lemma SubtreeError(mh: MapHasher, store: map<Coord, Hash>, prefixBytes: nat, x: nat, depth: nat,
                     values: seq<LeafHash>)
    requires 8 * prefixBytes + depth <= mh.bits
    ensures
      var out := BuildSubtree(mh, store, prefixBytes, x, depth, values);
      out.root.Err? ==> out.root == Err(SharedIndex)
  {
    hide HStar2Nodes;
    NodesError(mh, store, prefixBytes, x, depth, values);
  }

  ghost predicate OnlyBelow(nodes: map<Coord, Hash>, base: nat, done: seq<nat>) {
    forall c: Coord :: c in nodes ==> c in BelowPrefixes(base, done)
  }

  ghost function BelowPrefixes(base: nat, done: seq<nat>): iset<Coord> {
    iset c: Coord | c.level < base && Shr(c.index, base - c.level) in done
  }

  lemma {:induction false} PrefixTwice(leaves: seq<LeafHash>, base: nat, prefix: nat)
    ensures WithPrefix(WithPrefix(leaves, base, prefix), base, prefix) == WithPrefix(leaves, base, prefix)
  {
    if leaves != [] {
      var rest, last := leaves[..|leaves| - 1], leaves[|leaves| - 1];
      PrefixTwice(rest, base, prefix);
      var own := WithPrefix(rest, base, prefix);
      assert (own + [last])[..|own|] == own;
    }
  }

  /** A child over storage that holds its old tree, root included. */
  lemma ChildWhole(mh: MapHasher, store: map<Coord, Hash>, m: map<nat, Hash>, leaves: seq<LeafHash>, prefix: nat)
    requires mh.bits > TOP_DEPTH && StoreOk(mh, store, m, 0, mh.bits - TOP_DEPTH, prefix)
    ensures
      var base := mh.bits - TOP_DEPTH;
      var values := WithPrefix(leaves, base, prefix);
      var out := BuildSubtree(mh, store, 1, prefix, base, values);
      && (out.root.Err? <==> !Distinct(values, 0))
      && (forall c: Coord :: c in out.sets ==> c in BelowPrefix(base, prefix))
      && (Distinct(leaves, 0) ==>
            && out.root == Ok(Tree(mh, Updated(m, leaves, 0), 0, base, prefix))
            && HoldsTouched(mh, out.sets, Updated(m, leaves, 0), leaves, BelowPrefix(base, prefix)))
  {
    hide HStar2Nodes, StoreOk, Distinct, Shr, WithPrefix, Updated, Touched, Tree, BelowPrefix, ValueMap, BaseNodes;
    var base := mh.bits - TOP_DEPTH;
    var values := WithPrefix(leaves, base, prefix);
    ChildCorrect(mh, store, m, leaves, prefix);
    ChildCorrect(mh, store, m, values, prefix);
    PrefixTwice(leaves, base, prefix);
    DistinctByPrefix(leaves, base);
  }

  /** Below `prefix` storage holds the tree over `m`; what it has for the root of that child is open. */
  ghost predicate HeldUnder(mh: MapHasher, store: map<Coord, Hash>, m: map<nat, Hash>, base: nat, prefix: nat) {
    forall c: Coord :: c in BelowPrefix(base, prefix) ==> NodeOk(mh, store, m, 0, c)
  }

  /** What storage has for the root of a child. */
  function StoredRoot(mh: MapHasher, store: map<Coord, Hash>, base: nat, prefix: nat): Hash {
    if Coord(base, prefix) in store then store[Coord(base, prefix)] else mh.HashEmpty(Shl(prefix, base), base)
  }

  /** The same storage with the root that belongs there. */
  function Mended(mh: MapHasher, store: map<Coord, Hash>, m: map<nat, Hash>, base: nat, prefix: nat): map<Coord, Hash> {
    if Vacant(m, 0, base, prefix) then store - {Coord(base, prefix)}
    else store[Coord(base, prefix) := Tree(mh, m, 0, base, prefix)]
  }

  lemma MendedOk(mh: MapHasher, store: map<Coord, Hash>, m: map<nat, Hash>, base: nat, prefix: nat)
    requires HeldUnder(mh, store, m, base, prefix)
    ensures StoreOk(mh, Mended(mh, store, m, base, prefix), m, 0, base, prefix)
    ensures AgreeUpTo(store, Mended(mh, store, m, base, prefix), base - 1)
  {
    hide Tree, Vacant, Inside;
    var mended := Mended(mh, store, m, base, prefix);
    forall c: Coord | 0 <= c.level && Inside(c, base, prefix) ensures NodeOk(mh, mended, m, 0, c) {
      InsideTop(c, base, prefix);
      InsideLevel(c, base, prefix);
      if c.level < base { assert NodeOk(mh, store, m, 0, c); }
    }
  }

  lemma InsideLevel(c: Coord, t: nat, x: nat)
    requires Inside(c, t, x)
    ensures c.level <= t
  {
  }

  /** A child without leaves hands on what is stored for it, and writes nothing. */
  lemma IdleChild(mh: MapHasher, store: map<Coord, Hash>, prefix: nat)
    requires mh.bits > TOP_DEPTH
    ensures BuildSubtree(mh, store, 1, prefix, mh.bits - TOP_DEPTH, []) ==
            Outcome(Ok(StoredRoot(mh, store, mh.bits - TOP_DEPTH, prefix)), map[])
  {
    hide HStar2b, Shl, Sort, ValueMap, BaseNodes;
    NothingToSort();
    NoBaseNodes();
    HStarBase(mh, store, [], mh.bits - TOP_DEPTH, prefix, 0);
  }

  lemma NoBaseNodes()
    ensures BaseNodes(ValueMap([], 0), 0) == map[]
  {
  }

  lemma PrefixTouched(leaves: seq<LeafHash>, base: nat, prefix: nat)
    ensures Touched(leaves, Coord(base, prefix)) <==> WithPrefix(leaves, base, prefix) != []
  {
    WithPrefixFacts(leaves, base, prefix);
    var own := WithPrefix(leaves, base, prefix);
    if own != [] { assert own[0] in leaves; }
    if i :| 0 <= i < |leaves| && Shr(leaves[i].index, base) == prefix { assert leaves[i] in own; }
  }

  /** A child fails exactly on a shared index, writes only below its root, and hands on the root of its new tree, or
      what is stored for it if it has no leaves. */
  lemma ChildBuilt(mh: MapHasher, store: map<Coord, Hash>, m: map<nat, Hash>, leaves: seq<LeafHash>, prefix: nat)
    requires mh.bits > TOP_DEPTH && HeldUnder(mh, store, m, mh.bits - TOP_DEPTH, prefix)
    ensures
      var base := mh.bits - TOP_DEPTH;
      var values := WithPrefix(leaves, base, prefix);
      var out := BuildSubtree(mh, store, 1, prefix, base, values);
      && (out.root.Err? <==> !Distinct(values, 0))
      && (forall c: Coord :: c in out.sets ==> c in BelowPrefix(base, prefix))
      && (Distinct(leaves, 0) ==>
            && out.root == Ok(if !Touched(leaves, Coord(base, prefix)) then StoredRoot(mh, store, base, prefix)
                              else Tree(mh, Updated(m, leaves, 0), 0, base, prefix))
            && HoldsTouched(mh, out.sets, Updated(m, leaves, 0), leaves, BelowPrefix(base, prefix)))
  {
    hide HStar2Nodes, StoreOk, Distinct, Shr, WithPrefix, Updated, Touched, Tree, BelowPrefix, ValueMap, BaseNodes,
         StoredRoot, HoldsTouched, Mended;
    var base := mh.bits - TOP_DEPTH;
    var values := WithPrefix(leaves, base, prefix);
    PrefixTouched(leaves, base, prefix);
    if values == [] {
      IdleChild(mh, store, prefix);
      NothingShared();
      NoneTouched(mh, leaves, Updated(m, leaves, 0), base, prefix);
    } else {
      var mended := Mended(mh, store, m, base, prefix);
      MendedOk(mh, store, m, base, prefix);
      RootNotRead(mh, store, mended, 1, prefix, base, values);
      ChildWhole(mh, mended, m, leaves, prefix);
    }
  }

  // ---------- the top subtree ----------

  /** What a child hands to the top subtree. */
  function ChildHash(mh: MapHasher, m': map<nat, Hash>, roots: map<nat, Hash>, leaves: seq<LeafHash>, base: nat,
                     c: nat): Hash {
    if Touched(leaves, Coord(base, c)) then Tree(mh, m', 0, base, c) else Tree(mh, roots, base, base, c)
  }

  /** The roots of the children in `queue`, as leaves of the top subtree. */
  function TopLeaves(mh: MapHasher, m': map<nat, Hash>, roots: map<nat, Hash>, leaves: seq<LeafHash>, base: nat,
                     queue: seq<nat>): (r: seq<LeafHash>)
    ensures |r| == |queue|
    ensures forall j :: 0 <= j < |queue| ==>
              r[j] == LeafHash(Shl(queue[j], base), ChildHash(mh, m', roots, leaves, base, queue[j]))
  {
    seq(|queue|, j requires 0 <= j < |queue| =>
      LeafHash(Shl(queue[j], base), ChildHash(mh, m', roots, leaves, base, queue[j])))
  }

  lemma PaddedKey(c: nat, base: nat, l: nat)
    requires base <= l
    ensures Shr(Shl(c, base), l) == Shr(c, l - base)
  {
    ShrUnique(Shl(c, base), base, c);
    ShrCompose(Shl(c, base), base, l - base);
  }

  lemma TopLeavesFacts(mh: MapHasher, m': map<nat, Hash>, roots: map<nat, Hash>, leaves: seq<LeafHash>, base: nat,
                       t: nat, queue: seq<nat>)
    requires base <= t && CoversPrefixes(queue, leaves, base)
    ensures
      var top := TopLeaves(mh, m', roots, leaves, base, queue);
      && Distinct(top, base) && (FitsTop(queue, t - base) ==> AllBelow(top, t, 0))
      && forall j :: 0 <= j < |top| ==> Shr(top[j].index, base) == queue[j]
  {
    hide ChildHash, Shl, Touched;
    var top := TopLeaves(mh, m', roots, leaves, base, queue);
    forall j | 0 <= j < |queue|
      ensures Shr(top[j].index, base) == queue[j] && Shr(top[j].index, t) == Shr(queue[j], t - base)
    {
      PaddedKey(queue[j], base, base);
      PaddedKey(queue[j], base, t);
      ShiftNothing(queue[j]);
    }
  }

  lemma TopLeavesStep(mh: MapHasher, m': map<nat, Hash>, roots: map<nat, Hash>, leaves: seq<LeafHash>, base: nat,
                      queue: seq<nat>, prefix: nat)
    ensures TopLeaves(mh, m', roots, leaves, base, queue + [prefix]) ==
            TopLeaves(mh, m', roots, leaves, base, queue)
            + [LeafHash(Shl(prefix, base), ChildHash(mh, m', roots, leaves, base, prefix))]
  {
    hide ChildHash, Shl;
  }

  /** One more child is done. */
  lemma ChildrenStep(mh: MapHasher, nodes: map<Coord, Hash>, more: map<Coord, Hash>, m': map<nat, Hash>,
                     leaves: seq<LeafHash>, base: nat, done: seq<nat>, prefix: nat)
    ensures OnlyBelow(nodes, base, done) && (forall c: Coord :: c in more ==> c in BelowPrefix(base, prefix)) ==>
              OnlyBelow(nodes + more, base, done + [prefix])
    ensures HoldsTouched(mh, nodes, m', leaves, BelowPrefixes(base, done))
            && HoldsTouched(mh, more, m', leaves, BelowPrefix(base, prefix)) ==>
              HoldsTouched(mh, nodes + more, m', leaves, BelowPrefixes(base, done + [prefix]))
  {
    hide Touched, Tree, Shr;
  }

  lemma TouchedPrefix(leaves: seq<LeafHash>, base: nat, queue: seq<nat>, c: Coord)
    requires CoversPrefixes(queue, leaves, base) && c.level < base && Touched(leaves, c)
    ensures Shr(c.index, base - c.level) in queue
  {
    hide Shr;
    var i :| 0 <= i < |leaves| && Shr(leaves[i].index, c.level) == c.index;
    ShrCompose(leaves[i].index, c.level, base - c.level);
    assert Touched(leaves, Coord(base, Shr(leaves[i].index, base)));
  }

  /** What the top subtree reads is not written by the children. */
  lemma UnseenAbove(mh: MapHasher, store: map<Coord, Hash>, nodes: map<Coord, Hash>, m: map<nat, Hash>, base: nat,
                    t: nat, done: seq<nat>)
    requires StoreOk(mh, store, m, base, t, 0) && OnlyBelow(nodes, base, done)
    ensures StoreOk(mh, store + nodes, m, base, t, 0)
  {
    hide Tree, Vacant, Shr, Inside;
    forall c: Coord | base <= c.level && Inside(c, t, 0) ensures NodeOk(mh, store + nodes, m, base, c) {
      assert NodeOk(mh, store, m, base, c);
      assert c !in nodes;
    }
  }

  /** Whatever the values of the top subtree, it computes the tree over the updated roots, and stores it. */
  lemma TopBuilt(mh: MapHasher, store: map<Coord, Hash>, roots: map<nat, Hash>, values: seq<LeafHash>)
    requires mh.bits > TOP_DEPTH && AllBelow(values, mh.bits, 0)
    requires StoreOk(mh, store, roots, mh.bits - TOP_DEPTH, mh.bits, 0)
    ensures
      var base, out := mh.bits - TOP_DEPTH, BuildSubtree(mh, store, 0, 0, TOP_DEPTH, values);
      && (out.root.Err? <==> !Distinct(values, base))
      && (out.root.Err? ==> out.sets == map[])
      && (forall c: Coord :: c in out.sets ==> base <= c.level)
      && (Distinct(values, base) ==>
            && out.root == Ok(Tree(mh, Updated(roots, values, base), base, mh.bits, 0))
            && StoreOk(mh, store + out.sets, Updated(roots, values, base), base, mh.bits, 0))
  {
    hide HStar2Nodes, StoreOk, Distinct, Shr, Updated, Tree, ValueMap, AllBelow, BaseNodes, Touched, Inside;
    var base, out := mh.bits - TOP_DEPTH, HStar2Nodes(mh, store, 0, 0, TOP_DEPTH, values);
    HStar2NodesCorrect(mh, store, roots, 0, 0, TOP_DEPTH, values);
    if Distinct(values, base) {
      var leafNodes := BaseNodes(ValueMap(values, base), base);
      assert Written(store, values, out.sets, base) == store + (leafNodes + out.sets);
      forall c: Coord | c in leafNodes + out.sets ensures base <= c.level {
        BaseNodesEntry(ValueMap(values, base), base, c);
        assert SetOk(mh, out.sets, Updated(roots, values, base), values, mh.bits, 0, base, c);
      }
    }
  }

  /** The children have written below their roots, and the top subtree above: storage holds the new tree below. */
  lemma BelowUpdated(mh: MapHasher, store: map<Coord, Hash>, m: map<nat, Hash>, leaves: seq<LeafHash>,
                     queue: seq<nat>, below: map<Coord, Hash>, above: map<Coord, Hash>)
    requires mh.bits > TOP_DEPTH && HeldBelow(mh, store, m) && CoversPrefixes(queue, leaves, mh.bits - TOP_DEPTH)
    requires var built := Built(leaves, leaves, mh.bits - TOP_DEPTH);
             HoldsTouched(mh, below, Updated(m, built, 0), built, BelowPrefixes(mh.bits - TOP_DEPTH, queue))
    requires forall c: Coord :: c in above ==> mh.bits - TOP_DEPTH <= c.level
    ensures HeldBelow(mh, store + (below + above), Updated(m, Built(leaves, leaves, mh.bits - TOP_DEPTH), 0))
  {
    hide Shr, Distinct, Vacant, Tree, Touched, Updated, Inside, SameBelow, Built, CoversPrefixes;
    var base := mh.bits - TOP_DEPTH;
    var built := Built(leaves, leaves, base);
    var m' := Updated(m, built, 0);
    BuiltDistinct(leaves, base);
    forall c: Coord | c.level < base && Inside(c, mh.bits, 0) ensures NodeOk(mh, store + (below + above), m', 0, c) {
      assert NodeOk(mh, store, m, 0, c);
      UpdatedEntry(mh, m, built, 0, c);
      if Touched(built, c) {
        BuiltTouches(leaves, base, c);
        TouchedPrefix(leaves, base, queue, c);
      } else {
        TreeFrame(mh, m, m', 0, c.level, c.index);
      }
    }
  }

  lemma BuiltTouches(leaves: seq<LeafHash>, base: nat, c: Coord)
    requires Touched(Built(leaves, leaves, base), c)
    ensures Touched(leaves, c)
  {
    hide Shr, Built;
    var built := Built(leaves, leaves, base);
    BuiltIn(leaves, leaves, base);
    var i :| 0 <= i < |built| && Shr(built[i].index, c.level) == c.index;
    assert built[i] in leaves;
  }

  // ---------- the map that the new roots are for ----------

  /** Below the prefixes that `leaves` touch the entries of `m'`, and elsewhere those of `m`. */
  function Mixed(m: map<nat, Hash>, m': map<nat, Hash>, leaves: seq<LeafHash>, base: nat): map<nat, Hash> {
    map y | y in m.Keys + m'.Keys && y in (if Touched(leaves, Coord(base, Shr(y, base))) then m' else m) ::
      (if Touched(leaves, Coord(base, Shr(y, base))) then m' else m)[y]
  }

  lemma MixedBelow(m: map<nat, Hash>, m': map<nat, Hash>, leaves: seq<LeafHash>, base: nat, x: nat)
    ensures SameBelow(if Touched(leaves, Coord(base, x)) then m' else m, Mixed(m, m', leaves, base), 0, base, x)
  {
    hide Touched, Shr;
  }

  /** If all was well before, this is the updated map. */
  lemma MixedWhole(m: map<nat, Hash>, leaves: seq<LeafHash>, base: nat)
    requires Distinct(leaves, 0)
    ensures Mixed(m, Updated(m, leaves, 0), leaves, base) == Updated(m, leaves, 0)
  {
    hide Touched, Shr, Distinct, ValueMap;
    var m' := Updated(m, leaves, 0);
    var mixed := Mixed(m, m', leaves, base);
    forall y: nat ensures SameEntry(mixed, m', y) {
      var c := Coord(base, Shr(y, base));
      MixedBelow(m, m', leaves, base, c.index);
      if !Touched(leaves, c) { UntouchedEntry(leaves, 0, c, y); }
    }
    SameEntries(mixed, m');
  }

  /** When below the children's roots there is the tree over `hidden`, and above them that over `shown`, the new roots
      are those of the mixed map, and of the children without anything below them. */
  lemma NextRoots(mh: MapHasher, hidden: map<nat, Hash>, shown: map<nat, Hash>, leaves: seq<LeafHash>, base: nat,
                  queue: seq<nat>)
    requires CoversPrefixes(queue, leaves, base)
    ensures
      var m', roots := Updated(hidden, leaves, 0), ShardRoots(mh, shown, base);
      var top := TopLeaves(mh, m', roots, leaves, base, queue);
      Opens(mh, Mixed(shown, m', leaves, base), Updated(roots, top, base), base, queue)
  {
    hide OpensAt, CoversPrefixes, TopLeaves, ShardRoots, Mixed, Touched;
    forall y: nat
      ensures OpensAt(mh, Mixed(shown, Updated(hidden, leaves, 0), leaves, base),
                Updated(ShardRoots(mh, shown, base),
                  TopLeaves(mh, Updated(hidden, leaves, 0), ShardRoots(mh, shown, base), leaves, base, queue), base),
                base, queue, y)
    {
      NextRoot(mh, hidden, shown, leaves, base, queue, y);
    }
  }

  lemma NextRoot(mh: MapHasher, hidden: map<nat, Hash>, shown: map<nat, Hash>, leaves: seq<LeafHash>, base: nat,
                 queue: seq<nat>, y: nat)
    requires CoversPrefixes(queue, leaves, base)
    ensures
      var m', roots := Updated(hidden, leaves, 0), ShardRoots(mh, shown, base);
      var top := TopLeaves(mh, m', roots, leaves, base, queue);
      OpensAt(mh, Mixed(shown, m', leaves, base), Updated(roots, top, base), base, queue, y)
  {
    hide Tree, ShardRoots, ValueMap, Shr, Shl, Distinct, Vacant, SameBelow, Touched, Mixed;
    var m', roots := Updated(hidden, leaves, 0), ShardRoots(mh, shown, base);
    var top, mixed := TopLeaves(mh, m', roots, leaves, base, queue), Mixed(shown, m', leaves, base);
    TopLeavesFacts(mh, m', roots, leaves, base, base, queue);
    ValueMapKeys(top, base, y);
    ShardRootKeys(mh, shown, base, y);
    ShardedTree(mh, shown, base, base, y);
    MixedBelow(shown, m', leaves, base, y);
    TreeFrame(mh, if Touched(leaves, Coord(base, y)) then m' else shown, mixed, 0, base, y);
    if y in queue {
      var j :| 0 <= j < |queue| && queue[j] == y;
      assert top[j].hash == ChildHash(mh, m', roots, leaves, base, y);
    }
  }

  /** Every child has something below it. */
  ghost predicate NoneEmpty(m: map<nat, Hash>, base: nat, queue: seq<nat>) {
    forall c: nat :: c in queue ==> !Vacant(m, 0, base, c)
  }

  lemma OpensNone(mh: MapHasher, m: map<nat, Hash>, roots: map<nat, Hash>, base: nat, queue: seq<nat>)
    requires Opens(mh, m, roots, base, queue) && NoneEmpty(m, base, queue)
    ensures roots == ShardRoots(mh, m, base)
  {
    hide Tree, Vacant, ShardRoots;
    forall y: nat ensures SameEntry(roots, ShardRoots(mh, m, base), y) {
      assert OpensAt(mh, m, roots, base, queue, y);
      ShardRootKeys(mh, m, base, y);
    }
    SameEntries(roots, ShardRoots(mh, m, base));
  }

  /** Storage holds the tree of the map exactly if no child is empty. */
  lemma WholeIffNoneEmpty(mh: MapHasher, store: map<Coord, Hash>, m: map<nat, Hash>, roots: map<nat, Hash>,
                          queue: seq<nat>)
    requires mh.bits > TOP_DEPTH && FitsTop(queue, TOP_DEPTH) && Held(mh, store, m, roots)
    requires Opens(mh, m, roots, mh.bits - TOP_DEPTH, queue)
    ensures StoreOk(mh, store, m, 0, mh.bits, 0) <==> NoneEmpty(m, mh.bits - TOP_DEPTH, queue)
  {
    hide Tree, Vacant, ShardRoots, Shr, HeldBelow;
    var base := mh.bits - TOP_DEPTH;
    if NoneEmpty(m, base, queue) {
      OpensNone(mh, m, roots, base, queue);
      WholeIsHeld(mh, store, m);
    }
    if StoreOk(mh, store, m, 0, mh.bits, 0) {
      forall c: nat | c in queue ensures !Vacant(m, 0, base, c) {
        assert OpensAt(mh, m, roots, base, queue, c);
        VacantEntry(roots, base, c);
        assert Inside(Coord(base, c), mh.bits, 0);
        assert NodeOk(mh, store, roots, base, Coord(base, c)) && NodeOk(mh, store, m, 0, Coord(base, c));
      }
    }
  }

  lemma ListedNotEmpty(mh: MapHasher, hidden: map<nat, Hash>, shown: map<nat, Hash>, leaves: seq<LeafHash>, base: nat,
                       queue: seq<nat>)
    requires Distinct(leaves, 0) && ListsPrefixes(queue, leaves, base)
    ensures NoneEmpty(Mixed(shown, Updated(hidden, leaves, 0), leaves, base), base, queue)
  {
    hide Distinct, Updated, Vacant, Touched, Mixed, Tree, SameBelow;
    var m' := Updated(hidden, leaves, 0);
    forall c: nat | c in queue ensures !Vacant(Mixed(shown, m', leaves, base), 0, base, c) {
      UpdatedEntry(mh, hidden, leaves, 0, Coord(base, c));
      MixedBelow(shown, m', leaves, base, c);
      TreeFrame(mh, m', Mixed(shown, m', leaves, base), 0, base, c);
    }
  }

  lemma NoneEmptyParents(m: map<nat, Hash>, base: nat, queue: seq<nat>)
    requires NoneEmpty(m, base, queue)
    ensures ParentsHeld(m, base, queue)
  {
    hide Vacant;
    forall c: nat | c in queue ensures !Vacant(m, 0, base + 1, c / 2) {
      VacantChildren(m, 0, base + 1, c / 2);
      assert c == 2 * (c / 2) || c == 2 * (c / 2) + 1;
    }
  }

  // ---------- the queue of children ----------

  /** One more leaf joins its prefix; a prefix seen for the first time joins the queue. */
  lemma QueueStep(leaves: seq<LeafHash>, v: LeafHash, base: nat, queue: seq<nat>)
    requires CoversPrefixes(queue, leaves, base)
    ensures
      var p := Shr(v.index, base);
      var queue' := if p in queue then queue else queue + [p];
      && CoversPrefixes(queue', leaves + [v], base)
      && (ListsPrefixes(queue, leaves, base) ==> ListsPrefixes(queue', leaves + [v], base))
  {
    hide Shr;
    var p := Shr(v.index, base);
    var queue' := if p in queue then queue else queue + [p];
    forall c: nat
      ensures Touched(leaves + [v], Coord(base, c)) ==> c in queue'
      ensures c in queue' && (c in queue ==> Touched(leaves, Coord(base, c))) ==> Touched(leaves + [v], Coord(base, c))
    {
      TouchedStep(leaves, v, Coord(base, c));
    }
  }

  /** A child without a leaf of its own may be in the queue. */
  lemma QueueGrows(leaves: seq<LeafHash>, base: nat, queue: seq<nat>, p: nat)
    requires CoversPrefixes(queue, leaves, base) && p !in queue
    ensures CoversPrefixes(queue + [p], leaves, base)
  {
    hide Touched;
  }

  lemma FitsTopStep(queue: seq<nat>, p: nat, depth: nat)
    requires FitsTop(queue, depth) && Shr(p, depth) == 0
    ensures FitsTop(queue + [p], depth)
  {
    hide Shr;
  }

  lemma TouchedStep(leaves: seq<LeafHash>, v: LeafHash, c: Coord)
    ensures Touched(leaves + [v], c) <==> Touched(leaves, c) || Shr(v.index, c.level) == c.index
  {
    hide Shr;
    var all := leaves + [v];
    if i :| 0 <= i < |leaves| && Shr(leaves[i].index, c.level) == c.index { assert all[i] == leaves[i]; }
    assert all[|leaves|] == v;
  }

  datatype SetLeafError = TooShort(depth: nat)

  class SparseMerkleTreeWriter {
    const hasher: MapHasher
    /** The leaves queued for each child, by prefix. */
    var children: map<nat, seq<LeafHash>>
    /** The children in the order they were created. */
    var leafQueue: seq<nat>
    /** Leaves with an index of one byte, which take the place of a child's root. */
    var topLeaves: seq<LeafHash>
    /** No more leaves are accepted once the root is being calculated. */
    var closed: bool
    /** All leaves set so far with an index of full length. */
    ghost var Leaves: seq<LeafHash>

    ghost predicate Valid()
      reads this
    {
      && hasher.bits > TOP_DEPTH
      && AllBelow(Leaves, hasher.bits, 0) && AllBelow(topLeaves, hasher.bits, 0)
      && CoversPrefixes(leafQueue, Leaves, Base()) && FitsTop(leafQueue, TOP_DEPTH)
      && (forall c: nat :: c in children <==> c in leafQueue)
      && (forall c: nat :: c in children ==> children[c] == WithPrefix(Leaves, Base(), c))
    }

    /** All indices had full length: there are no other leaves and every child has one. */
    ghost predicate Plain()
      requires Valid()
      reads this
    {
      topLeaves == [] && ListsPrefixes(leafQueue, Leaves, Base())
    }

    function Base(): int {
      hasher.bits - TOP_DEPTH
    }

    /** The values of the top subtree when the children are done. */
    ghost function TopValues(m: map<nat, Hash>, roots: map<nat, Hash>): seq<LeafHash>
      requires hasher.bits > TOP_DEPTH
      reads this
    {
      TopLeaves(hasher, Updated(m, Leaves, 0), roots, Leaves, Base(), leafQueue) + topLeaves
    }

    /** The roots of the children once they are put in. */
    ghost function NewRoots(m: map<nat, Hash>, roots: map<nat, Hash>): map<nat, Hash>
      requires hasher.bits > TOP_DEPTH
      reads this
    {
      Updated(roots, TopValues(m, roots), Base())
    }

    constructor (mh: MapHasher)
      requires mh.bits > TOP_DEPTH
      ensures Valid() && Plain() && hasher == mh && Leaves == [] && !closed
    {
      hasher, children, leafQueue, topLeaves, closed, Leaves := mh, map[], [], [], false, [];
    }

    /** `getOrCreateChildSubtree` */
    method OpenChild(childPrefix: nat)
      requires Valid() && !closed && Shr(childPrefix, TOP_DEPTH) == 0
      modifies this`children, this`leafQueue
      ensures Valid() && leafQueue ==
                if childPrefix in old(leafQueue) then old(leafQueue) else old(leafQueue) + [childPrefix]
    {
      hide Shr, AllBelow, CoversPrefixes, FitsTop;
      if childPrefix !in children {
        NoneWithPrefix(Leaves, Base(), leafQueue, childPrefix);
        QueueGrows(Leaves, Base(), leafQueue, childPrefix);
        FitsTopStep(leafQueue, childPrefix, TOP_DEPTH);
        children := children[childPrefix := []];
        leafQueue := leafQueue + [childPrefix];
      }
    }

    /** Sets a leaf whose index has `indexBits` bits. An index that is too short is rejected, but not before the child
        for its first byte has been created. One byte is taken for the root of a child. */
    method SetLeaf(indexBits: nat, index: nat, hash: Hash) returns (r: Result<(), SetLeafError>)
      requires Valid() && !closed && indexBits <= hasher.bits && indexBits % 8 == 0 && Shr(index, indexBits) == 0
      modifies this
      ensures Valid() && !closed
      ensures r == if indexBits < hasher.bits && indexBits != TOP_DEPTH then Err(TooShort(indexBits)) else Ok(())
      ensures Leaves == old(Leaves) + if indexBits == hasher.bits then [LeafHash(index, hash)] else []
      ensures topLeaves == old(topLeaves) + if indexBits == TOP_DEPTH then [LeafHash(Shl(index, Base()), hash)] else []
      ensures indexBits <= TOP_DEPTH ==> leafQueue == old(leafQueue)
      ensures indexBits > TOP_DEPTH ==>
                var p := Shr(index, indexBits - TOP_DEPTH);
                leafQueue == if p in old(leafQueue) then old(leafQueue) else old(leafQueue) + [p]
      ensures old(Plain()) && (indexBits == hasher.bits || indexBits < TOP_DEPTH) ==> Plain()
    {
      hide Shr, Shl, AllBelow, ListsPrefixes, CoversPrefixes, FitsTop, WithPrefix;
      if indexBits < TOP_DEPTH { return Err(TooShort(indexBits)); }
      if indexBits == TOP_DEPTH {
        PaddedPrefix(index, Base(), hasher.bits);
        AllBelowStep(topLeaves, LeafHash(Shl(index, Base()), hash), hasher.bits);
        topLeaves := topLeaves + [LeafHash(Shl(index, Base()), hash)];
        return Ok(());
      }
      var v, childPrefix := LeafHash(index, hash), Shr(index, indexBits - TOP_DEPTH);
      ShrCompose(index, indexBits - TOP_DEPTH, TOP_DEPTH);
      QueueStep(Leaves, v, Base(), leafQueue);
      ghost var plain := Plain();
      OpenChild(childPrefix);
      if indexBits < hasher.bits { return Err(TooShort(indexBits)); }
      AddToPrefix(Leaves, v, Base());
      AllBelowStep(Leaves, v, hasher.bits);
      children := children[childPrefix := children[childPrefix] + [v]];
      Leaves := Leaves + [v];
      return Ok(());
    }

    method SetLeaves(leaves: seq<LeafHash>)
      requires Valid() && !closed && AllBelow(leaves, hasher.bits, 0) && hasher.bits % 8 == 0
      modifies this
      ensures Valid() && !closed && Leaves == old(Leaves) + leaves && (old(Plain()) ==> Plain())
    {
      hide Valid, Plain, Shr, Shl, AllBelow;
      for k := 0 to |leaves|
        invariant Valid() && !closed && Leaves == old(Leaves) + leaves[..k] && (old(Plain()) ==> Plain())
      {
        BelowAt(leaves, hasher.bits, k);
        ValidBits();
        var _ := SetLeaf(hasher.bits, leaves[k].index, leaves[k].hash);
        assert leaves[..k + 1] == leaves[..k] + [leaves[k]];
      }
    }

    lemma ValidBits()
      requires Valid()
      ensures hasher.bits > TOP_DEPTH
    {
    }

    /** Runs the children; each sees what the ones before it wrote. A child that fails writes nothing, and its
        error is what the top subtree gets in place of its root. */
    method BuildChildren(store: map<Coord, Hash>, ghost m: map<nat, Hash>, ghost roots: map<nat, Hash>)
      returns (r: Result<seq<LeafHash>, HStarError>, nodes: map<Coord, Hash>)
      requires Valid() && Held(hasher, store, m, roots)
      ensures OnlyBelow(nodes, Base(), leafQueue)
      ensures r.Err? <==> !Distinct(Leaves, 0)
      ensures r.Err? ==> r == Err(SharedIndex)
      ensures Distinct(Leaves, 0) ==>
                r == Ok(TopLeaves(hasher, Updated(m, Leaves, 0), roots, Leaves, Base(), leafQueue))
      ensures var built := Built(Leaves, Leaves, Base());
              HoldsTouched(hasher, nodes, Updated(m, built, 0), built, BelowPrefixes(Base(), leafQueue))
    {
      hide Shr, Shl, AllBelow, CoversPrefixes, FitsTop, Held, Distinct, Updated, Touched, Tree, BelowPrefix,
           BelowPrefixes, WithPrefix, BuildSubtree, OnlyBelow, HoldsTouched, Built, HeldUnder, StoredRoot;
      ghost var m', base: nat, built := Updated(m, Leaves, 0), Base(), Built(Leaves, Leaves, Base());
      var k := 0;
      r, nodes := Ok([]), map[];
      NoChildren(hasher, Updated(m, built, 0), built, base);
      assert leafQueue[..0] == [];
      while k < |leafQueue|
        invariant k <= |leafQueue|
        invariant OnlyBelow(nodes, base, leafQueue[..k])
        invariant r.Ok? <==> forall j :: 0 <= j < k ==> Distinct(WithPrefix(Leaves, base, leafQueue[j]), 0)
        invariant r.Err? ==> r == Err(SharedIndex)
        invariant Distinct(Leaves, 0) ==> r == Ok(TopLeaves(hasher, m', roots, Leaves, base, leafQueue[..k]))
        invariant HoldsTouched(hasher, nodes, Updated(m, built, 0), built, BelowPrefixes(base, leafQueue[..k]))
      {
        var prefix := leafQueue[k];
        var out := BuildSubtree(hasher, store + nodes, 1, prefix, Base(), children[prefix]);
        SubtreeError(hasher, store + nodes, 1, prefix, Base(), children[prefix]);
        ChildReads(hasher, store, nodes, m, roots, Leaves, leafQueue, k);
        ChildBuilt(hasher, store + nodes, m, Leaves, prefix);
        ChildKept(hasher, store + nodes, m, Leaves, prefix);
        ChildrenStep(hasher, nodes, out.sets, Updated(m, built, 0), built, base, leafQueue[..k], prefix);
        TopLeavesStep(hasher, m', roots, Leaves, base, leafQueue[..k], prefix);
        assert leafQueue[..k + 1] == leafQueue[..k] + [prefix];
        nodes := nodes + out.sets;
        if r.Ok? {
          r :=
            if out.root.Ok? then Ok(r.value + [LeafHash(Shl(prefix, Base()), out.root.value)])
            else Err(out.root.error);
        }
        k := k + 1;
      }
      assert leafQueue[..k] == leafQueue;
      DistinctInQueue(Leaves, base, leafQueue);
    }

    /** The whole update, from whatever storage holds: below the children's roots the tree over `m`, and from them up
        that over `roots`. It fails exactly if two leaves share an index or a place in the top subtree. Then children
        that did not fail have stored their leaves. Otherwise the root is that of the tree over the new roots, and
        storage holds the new trees. */
    method CalculateRoot(store: map<Coord, Hash>, ghost m: map<nat, Hash>, ghost roots: map<nat, Hash>)
      returns (root: Result<Hash, HStarError>, nodes: map<Coord, Hash>)
      requires Valid() && !closed && Held(hasher, store, m, roots)
      modifies this`closed
      ensures Valid() && closed
      ensures root.Err? <==> !Distinct(Leaves, 0) || !Distinct(TopValues(m, roots), Base())
      ensures root.Err? ==> root == Err(SharedIndex)
      ensures topLeaves == [] ==> Distinct(TopValues(m, roots), Base())
      ensures root.Ok? ==>
                && root.value == Tree(hasher, NewRoots(m, roots), Base(), hasher.bits, 0)
                && Held(hasher, store + nodes, Updated(m, Leaves, 0), NewRoots(m, roots))
      ensures root.Err? ==>
                && (forall c: Coord :: c in nodes ==> c.level < Base())
                && Held(hasher, store + nodes, Updated(m, Built(Leaves, Leaves, Base()), 0), roots)
      ensures roots == ShardRoots(hasher, m, Base()) ==> FromWhole(m, root, store + nodes)
    {
      hide Shr, Shl, AllBelow, ListsPrefixes, CoversPrefixes, FitsTop, StoreOk, Distinct, Updated, Touched, Tree,
           BelowPrefixes, WithPrefix, BuildSubtree, OnlyBelow, TopLeaves, HoldsTouched, Built, HeldBelow, FromWhole,
           ShardRoots;
      closed := true;
      TopFacts(m, roots);
      var r, below := BuildChildren(store, m, roots);
      OnlyBelowTop(below, Base(), leafQueue);
      UnseenAbove(hasher, store, below, roots, Base(), hasher.bits, leafQueue);
      if r.Err? {
        BelowUpdated(hasher, store, m, Leaves, leafQueue, below, map[]);
        assert below + map[] == below;
        root, nodes := Err(r.error), below;
        if roots == ShardRoots(hasher, m, Base()) { WholeFails(m, root, store + nodes); }
        return;
      }
      var out := BuildSubtree(hasher, store + below, 0, 0, TOP_DEPTH, r.value + topLeaves);
      root, nodes := out.root, below + out.sets;
      SubtreeError(hasher, store + below, 0, 0, TOP_DEPTH, r.value + topLeaves);
      TopBuilt(hasher, store + below, roots, TopValues(m, roots));
      BelowUpdated(hasher, store, m, Leaves, leafQueue, below, out.sets);
      BuiltAll(Leaves, Leaves, Base());
      assert store + nodes == store + below + out.sets;
      if root.Err? { assert nodes == below; }
      if roots == ShardRoots(hasher, m, Base()) {
        if root.Err? { WholeFails(m, root, store + nodes); } else { WholeUpdated(m, root, store + nodes); }
      }
    }

    /** What the update does if storage held the tree of the map `m` before, and no leaf was put in place of a child's
        root. If all leaves are distinct it succeeds. The root is the map's if every child has something in it or
        beside it, or if empty branches are hashed as nodes; in no other case, unless two preimages of one hash can be
        read off the tree. Storage holds the tree of the map exactly if every child has something in it. After a
        failure it holds the old one exactly if the leaves that were stored had been there. */
    ghost predicate FromWhole(m: map<nat, Hash>, root: Result<Hash, HStarError>, store': map<Coord, Hash>)
      requires Valid()
      reads this
    {
      var m' := Updated(m, Leaves, 0);
      && (topLeaves == [] && Distinct(Leaves, 0) ==>
            && root.Ok?
            && (ParentsHeld(m', Base(), leafQueue) || EmptiesAreNodes(hasher) ==> root.value == MapRoot(hasher, m'))
            && (root.value == MapRoot(hasher, m') ==>
                  ParentsHeld(m', Base(), leafQueue) || EmptyShows(m', NewRoots(m, ShardRoots(hasher, m, Base()))))
            && (StoreOk(hasher, store', m', 0, hasher.bits, 0) <==> NoneEmpty(m', Base(), leafQueue)))
      && (Plain() && Distinct(Leaves, 0) ==>
            && root == Ok(MapRoot(hasher, m'))
            && StoreOk(hasher, store', m', 0, hasher.bits, 0))
      && (root.Err? ==>
            (StoreOk(hasher, store', m, 0, hasher.bits, 0) <==> AllPresent(m, Built(Leaves, Leaves, Base()))))
    }

    /** Towards an empty child, two preimages of one hash. */
    ghost predicate EmptyShows(m: map<nat, Hash>, roots: map<nat, Hash>)
      requires hasher.bits > TOP_DEPTH
      reads this
    {
      exists c: nat :: c in leafQueue && OpenedWitness(hasher, m, roots, Base(), hasher.bits, c).Collides(hasher)
    }

    /** The map that the new root is for, when the trees below and above the children's roots were different. */
    ghost function Shown(hidden: map<nat, Hash>, shown: map<nat, Hash>): map<nat, Hash>
      requires hasher.bits > TOP_DEPTH
      reads this
    {
      Mixed(shown, Updated(hidden, Leaves, 0), Leaves, Base())
    }

    lemma RootShown(hidden: map<nat, Hash>, shown: map<nat, Hash>)
      requires Valid() && topLeaves == []
      ensures
        var m', roots := Shown(hidden, shown), NewRoots(hidden, ShardRoots(hasher, shown, Base()));
        var root := Tree(hasher, roots, Base(), hasher.bits, 0);
        && Opens(hasher, m', roots, Base(), leafQueue)
        && (ParentsHeld(m', Base(), leafQueue) || EmptiesAreNodes(hasher) ==> root == MapRoot(hasher, m'))
        && (root == MapRoot(hasher, m') ==> ParentsHeld(m', Base(), leafQueue) || EmptyShows(m', roots))
    {
      hide CoversPrefixes, Updated, Distinct, TopLeaves, ShardRoots, Tree, Vacant, Mixed, Opens, EmptiesAreNodes, Shr,
           OpenedWitness;
      var m', roots := Shown(hidden, shown), NewRoots(hidden, ShardRoots(hasher, shown, Base()));
      TopFacts(hidden, ShardRoots(hasher, shown, Base()));
      NextRoots(hasher, hidden, shown, Leaves, Base(), leafQueue);
      if ParentsHeld(m', Base(), leafQueue) {
        OpenedTree(hasher, m', roots, Base(), leafQueue, hasher.bits, 0);
      } else {
        var c: nat :| c in leafQueue && Vacant(m', 0, Base() + 1, c / 2);
        assert Shr(c, hasher.bits - Base()) == 0;
        if Tree(hasher, roots, Base(), hasher.bits, 0) == MapRoot(hasher, m') {
          OpenedShows(hasher, m', roots, Base(), leafQueue, hasher.bits, c);
        }
        if EmptiesAreNodes(hasher) { OpenedTreePlain(hasher, m', roots, Base(), leafQueue, hasher.bits, 0); }
      }
    }

    lemma WholeUpdated(m: map<nat, Hash>, root: Result<Hash, HStarError>, store': map<Coord, Hash>)
      requires Valid() && root.Ok? && Distinct(Leaves, 0)
      requires var roots := NewRoots(m, ShardRoots(hasher, m, Base()));
               && root.value == Tree(hasher, roots, Base(), hasher.bits, 0)
               && Held(hasher, store', Updated(m, Leaves, 0), roots)
      ensures FromWhole(m, root, store')
    {
      hide CoversPrefixes, FitsTop, Updated, Distinct, TopLeaves, ShardRoots, Tree, Vacant, Mixed, Opens, Touched,
           EmptiesAreNodes, Held, StoreOk, NewRoots, EmptyShows, ParentsHeld, NoneEmpty;
      if topLeaves == [] {
        MixedWhole(m, Leaves, Base());
        RootShown(m, m);
        WholeIffNoneEmpty(hasher, store', Updated(m, Leaves, 0), NewRoots(m, ShardRoots(hasher, m, Base())), leafQueue);
        if Plain() {
          ListedNotEmpty(hasher, m, m, Leaves, Base(), leafQueue);
          NoneEmptyParents(Updated(m, Leaves, 0), Base(), leafQueue);
        }
      }
    }

    lemma WholeFails(m: map<nat, Hash>, root: Result<Hash, HStarError>, store': map<Coord, Hash>)
      requires Valid() && root.Err? && (topLeaves == [] ==> !Distinct(Leaves, 0))
      requires Held(hasher, store', Updated(m, Built(Leaves, Leaves, Base()), 0), ShardRoots(hasher, m, Base()))
      ensures FromWhole(m, root, store')
    {
      hide CoversPrefixes, FitsTop, Updated, Distinct, ShardRoots, Held, StoreOk, AllPresent, Built, AllBelow;
      FailedBatch(hasher, store', m, Leaves);
    }

    lemma TopFacts(m: map<nat, Hash>, roots: map<nat, Hash>)
      requires Valid()
      ensures AllBelow(TopValues(m, roots), hasher.bits, 0)
      ensures topLeaves == [] ==> Distinct(TopValues(m, roots), Base())
      ensures topLeaves == [] ==>
                TopValues(m, roots) == TopLeaves(hasher, Updated(m, Leaves, 0), roots, Leaves, Base(), leafQueue)
    {
      hide CoversPrefixes, FitsTop, Updated, Distinct, Shr, TopLeaves;
      var top := TopLeaves(hasher, Updated(m, Leaves, 0), roots, Leaves, Base(), leafQueue);
      assert top + [] == top;
      TopLeavesFacts(hasher, Updated(m, Leaves, 0), roots, Leaves, Base(), hasher.bits, leafQueue);
      AllBelowConcat(top, topLeaves, hasher.bits);
    }
  }

  lemma BelowAt(leaves: seq<LeafHash>, t: nat, k: nat)
    requires AllBelow(leaves, t, 0) && k < |leaves|
    ensures Shr(leaves[k].index, t) == 0
  {
  }

  lemma AllBelowConcat(a: seq<LeafHash>, b: seq<LeafHash>, t: nat)
    requires AllBelow(a, t, 0) && AllBelow(b, t, 0)
    ensures AllBelow(a + b, t, 0)
  {
    hide Shr;
  }

  /** A prefix padded with zeros. */
  lemma PaddedPrefix(prefix: nat, base: nat, t: nat)
    requires base <= t && Shr(prefix, t - base) == 0
    ensures Shr(Shl(prefix, base), t) == 0
  {
    hide Shr, Shl;
    ShrUnique(Shl(prefix, base), base, prefix);
    ShrCompose(Shl(prefix, base), base, t - base);
  }

  lemma AddToPrefix(leaves: seq<LeafHash>, v: LeafHash, base: nat)
    ensures forall c: nat :: WithPrefix(leaves + [v], base, c) ==
                             WithPrefix(leaves, base, c) + if Shr(v.index, base) == c then [v] else []
  {
    forall c: nat ensures WithPrefix(leaves + [v], base, c) ==
                          WithPrefix(leaves, base, c) + if Shr(v.index, base) == c then [v] else []
    {
      PrefixAdd(leaves, v, leaves + [v], base, c);
    }
  }

  lemma AllBelowStep(leaves: seq<LeafHash>, v: LeafHash, t: nat)
    requires AllBelow(leaves, t, 0) && Shr(v.index, t) == 0
    ensures AllBelow(leaves + [v], t, 0)
  {
  }

  lemma NoneWithPrefix(leaves: seq<LeafHash>, base: nat, queue: seq<nat>, prefix: nat)
    requires CoversPrefixes(queue, leaves, base) && prefix !in queue
    ensures WithPrefix(leaves, base, prefix) == []
  {
    WithPrefixFacts(leaves, base, prefix);
    var own := WithPrefix(leaves, base, prefix);
    if own != [] {
      assert own[0] in leaves;
      assert Touched(leaves, Coord(base, prefix));
    }
  }

  /** What a child reads was not written by the ones before it. */
  lemma ChildReads(mh: MapHasher, store: map<Coord, Hash>, nodes: map<Coord, Hash>, m: map<nat, Hash>,
                   roots: map<nat, Hash>, leaves: seq<LeafHash>, queue: seq<nat>, k: nat)
    requires mh.bits > TOP_DEPTH && CoversPrefixes(queue, leaves, mh.bits - TOP_DEPTH) && FitsTop(queue, TOP_DEPTH)
    requires Held(mh, store, m, roots) && k < |queue| && OnlyBelow(nodes, mh.bits - TOP_DEPTH, queue[..k])
    ensures
      var base := mh.bits - TOP_DEPTH;
      && HeldUnder(mh, store + nodes, m, base, queue[k])
      && StoredRoot(mh, store + nodes, base, queue[k]) == Tree(mh, roots, base, base, queue[k])
  {
    hide Shr, Tree, Vacant, Touched;
    var base, prefix := mh.bits - TOP_DEPTH, queue[k];
    forall c: Coord | c in BelowPrefix(base, prefix) ensures NodeOk(mh, store + nodes, m, 0, c) {
      ShrCompose(c.index, base - c.level, TOP_DEPTH);
      assert NodeOk(mh, store, m, 0, c);
      assert c !in nodes;
    }
    var c := Coord(base, prefix);
    assert Inside(c, mh.bits, 0) && c !in nodes;
    StoreOkAt(mh, store, roots, base, mh.bits, 0, c);
  }

  lemma StoreOkAt(mh: MapHasher, store: map<Coord, Hash>, m: map<nat, Hash>, b: nat, t: nat, x: nat, c: Coord)
    requires StoreOk(mh, store, m, b, t, x) && b <= c.level && Inside(c, t, x)
    ensures Tree(mh, m, b, c.level, c.index) ==
            if c in store then store[c] else mh.HashEmpty(Shl(c.index, c.level), c.level)
  {
    assert NodeOk(mh, store, m, b, c);
  }

  /** Leaves are distinct if they are within every child. */
  lemma DistinctInQueue(leaves: seq<LeafHash>, base: nat, queue: seq<nat>)
    requires CoversPrefixes(queue, leaves, base)
    ensures Distinct(leaves, 0) <==> forall j :: 0 <= j < |queue| ==> Distinct(WithPrefix(leaves, base, queue[j]), 0)
  {
    hide Shr, Distinct, WithPrefix, CoversPrefixes;
    DistinctByPrefix(leaves, base);
    if forall j :: 0 <= j < |queue| ==> Distinct(WithPrefix(leaves, base, queue[j]), 0) {
      forall prefix: nat ensures Distinct(WithPrefix(leaves, base, prefix), 0) {
        if prefix !in queue {
          NoneWithPrefix(leaves, base, queue, prefix);
          NothingShared();
        }
      }
    }
  }

  lemma NothingShared()
    ensures Distinct([], 0)
  {
  }

  lemma NoChildren(mh: MapHasher, m': map<nat, Hash>, leaves: seq<LeafHash>, base: nat)
    ensures OnlyBelow(map[], base, [])
    ensures HoldsTouched(mh, map[], m', leaves, BelowPrefixes(base, []))
  {
  }

  lemma OnlyBelowTop(nodes: map<Coord, Hash>, base: nat, queue: seq<nat>)
    requires OnlyBelow(nodes, base, queue)
    ensures forall c: Coord :: c in nodes ==> c.level < base
  {
  }

  // ---------- a batch that fails ----------

  /** The leaves of `part` that are set in a child that does not fail. */
  function Built(leaves: seq<LeafHash>, part: seq<LeafHash>, base: nat): seq<LeafHash> {
    if part == [] then []
    else
      var rest, last := Built(leaves, part[..|part| - 1], base), part[|part| - 1];
      if Distinct(WithPrefix(leaves, base, Shr(last.index, base)), 0) then rest + [last] else rest
  }

  predicate AllPresent(m: map<nat, Hash>, leaves: seq<LeafHash>) {
    forall j :: 0 <= j < |leaves| ==> leaves[j].index in m && m[leaves[j].index] == leaves[j].hash
  }

  lemma {:induction false} BuiltIn(leaves: seq<LeafHash>, part: seq<LeafHash>, base: nat)
    ensures forall v :: v in Built(leaves, part, base) ==> v in part
  {
    hide Distinct, Shr, WithPrefix;
    if part != [] {
      BuiltIn(leaves, part[..|part| - 1], base);
      assert part == part[..|part| - 1] + [part[|part| - 1]];
    }
  }

  /** Leaf by leaf, either a whole child is kept or nothing of it. */
  lemma {:induction false} BuiltPrefix(leaves: seq<LeafHash>, part: seq<LeafHash>, base: nat, prefix: nat)
    ensures WithPrefix(Built(leaves, part, base), base, prefix)
            == if Distinct(WithPrefix(leaves, base, prefix), 0) then WithPrefix(part, base, prefix) else []
  {
    hide Distinct, Shr;
    if part != [] {
      var rest, last := part[..|part| - 1], part[|part| - 1];
      BuiltPrefix(leaves, rest, base, prefix);
      var kept := Built(leaves, rest, base);
      assert (kept + [last])[..|kept|] == kept;
    }
  }

  lemma BuiltDistinct(leaves: seq<LeafHash>, base: nat)
    ensures Distinct(Built(leaves, leaves, base), 0)
  {
    hide Distinct, Shr, WithPrefix, Built;
    var kept := Built(leaves, leaves, base);
    forall prefix: nat ensures Distinct(WithPrefix(kept, base, prefix), 0) {
      BuiltPrefix(leaves, leaves, base, prefix);
      NothingShared();
    }
    DistinctByPrefix(kept, base);
  }

  lemma {:induction false} BuiltAll(leaves: seq<LeafHash>, part: seq<LeafHash>, base: nat)
    requires Distinct(leaves, 0)
    ensures Built(leaves, part, base) == part
  {
    hide Distinct, Shr, WithPrefix;
    DistinctByPrefix(leaves, base);
    if part != [] {
      BuiltAll(leaves, part[..|part| - 1], base);
      assert part == part[..|part| - 1] + [part[|part| - 1]];
    }
  }

  /** A child stores exactly the nodes touched by the leaves that are built below its prefix. */
  lemma ChildKept(mh: MapHasher, store: map<Coord, Hash>, m: map<nat, Hash>, leaves: seq<LeafHash>, prefix: nat)
    requires mh.bits > TOP_DEPTH && HeldUnder(mh, store, m, mh.bits - TOP_DEPTH, prefix)
    ensures
      var base := mh.bits - TOP_DEPTH;
      var out := BuildSubtree(mh, store, 1, prefix, base, WithPrefix(leaves, base, prefix));
      var built := Built(leaves, leaves, base);
      HoldsTouched(mh, out.sets, Updated(m, built, 0), built, BelowPrefix(base, prefix))
  {
    hide StoreOk, Distinct, Shr, WithPrefix, Updated, Touched, Tree, BelowPrefix, BuildSubtree, HoldsTouched, Built;
    var base := mh.bits - TOP_DEPTH;
    var built := Built(leaves, leaves, base);
    BuiltDistinct(leaves, base);
    BuiltPrefix(leaves, leaves, base, prefix);
    if Distinct(WithPrefix(leaves, base, prefix), 0) {
      ChildBuilt(mh, store, m, built, prefix);
    } else {
      ChildBuilt(mh, store, m, leaves, prefix);
      FailureStoresNothing(mh, store, 1, prefix, base, WithPrefix(leaves, base, prefix));
      NoneTouched(mh, built, Updated(m, built, 0), base, prefix);
    }
  }

  lemma FailureStoresNothing(mh: MapHasher, store: map<Coord, Hash>, prefixBytes: nat, x: nat, depth: nat,
                             values: seq<LeafHash>)
    ensures BuildSubtree(mh, store, prefixBytes, x, depth, values).root.Err? ==>
              BuildSubtree(mh, store, prefixBytes, x, depth, values).sets == map[]
  {
    hide HStar2Nodes;
  }

  lemma NoneTouched(mh: MapHasher, leaves: seq<LeafHash>, m': map<nat, Hash>, base: nat, prefix: nat)
    requires WithPrefix(leaves, base, prefix) == []
    ensures HoldsTouched(mh, map[], m', leaves, BelowPrefix(base, prefix))
  {
    hide Tree, Inside, WithPrefix;
    forall c: Coord | c in BelowPrefix(base, prefix) ensures !Touched(leaves, c) {
      TouchedByPrefix(leaves, base, prefix, c);
    }
  }

  /** After a failure storage holds the old tree exactly if everything that was built was there before. */
  lemma FailedBatch(mh: MapHasher, store: map<Coord, Hash>, m: map<nat, Hash>, leaves: seq<LeafHash>)
    requires mh.bits > TOP_DEPTH && AllBelow(leaves, mh.bits, 0)
    requires var base := mh.bits - TOP_DEPTH;
             Held(mh, store, Updated(m, Built(leaves, leaves, base), 0), ShardRoots(mh, m, base))
    ensures StoreOk(mh, store, m, 0, mh.bits, 0) <==> AllPresent(m, Built(leaves, leaves, mh.bits - TOP_DEPTH))
  {
    hide Distinct, Shr, Built, Tree, Vacant, Updated, AllBelow, Inside, ShardRoots;
    var built := Built(leaves, leaves, mh.bits - TOP_DEPTH);
    BuiltDistinct(leaves, mh.bits - TOP_DEPTH);
    if AllPresent(m, built) {
      PresentChangesNothing(m, built);
      WholeIsHeld(mh, store, m);
    }
    if StoreOk(mh, store, m, 0, mh.bits, 0) {
      forall j | 0 <= j < |built| ensures built[j].index in m && m[built[j].index] == built[j].hash {
        BuiltIn(leaves, leaves, mh.bits - TOP_DEPTH);
        BuiltLeafStored(mh, store, m, leaves, built, built[j]);
      }
    }
  }

  lemma PresentChangesNothing(m: map<nat, Hash>, leaves: seq<LeafHash>)
    requires AllPresent(m, leaves) && Distinct(leaves, 0)
    ensures Updated(m, leaves, 0) == m
  {
    hide ValueMap, Distinct, Shr;
    var u := Updated(m, leaves, 0);
    forall y: nat ensures y in u ==> y in m && u[y] == m[y] ensures y in m ==> y in u {
      ValueMapKeys(leaves, 0, y);
      forall i | 0 <= i < |leaves| ensures Shr(leaves[i].index, 0) == leaves[i].index { ShiftNothing(leaves[i].index); }
    }
    assert u.Keys == m.Keys;
  }

  lemma BuiltLeafStored(mh: MapHasher, store: map<Coord, Hash>, m: map<nat, Hash>, leaves: seq<LeafHash>,
                        built: seq<LeafHash>, v: LeafHash)
    requires mh.bits > TOP_DEPTH && AllBelow(leaves, mh.bits, 0) && v in leaves && v in built && Distinct(built, 0)
    requires StoreOk(mh, store, m, 0, mh.bits, 0) && HeldBelow(mh, store, Updated(m, built, 0))
    ensures v.index in m && m[v.index] == v.hash
  {
    hide Distinct, AllBelow, ValueMap, Shr, Inside;
    var c := Coord(0, v.index);
    LeafTouches(leaves, v);
    TouchedInside(leaves, mh.bits, 0, c);
    assert NodeOk(mh, store, m, 0, c) && NodeOk(mh, store, Updated(m, built, 0), 0, c);
    LeafValue(built, v);
    VacantEntry(m, 0, v.index);
    VacantEntry(Updated(m, built, 0), 0, v.index);
  }

  lemma LeafTouches(leaves: seq<LeafHash>, v: LeafHash)
    requires v in leaves
    ensures Touched(leaves, Coord(0, v.index))
  {
    var i :| 0 <= i < |leaves| && leaves[i] == v;
    ShiftNothing(v.index);
  }

  lemma LeafValue(leaves: seq<LeafHash>, v: LeafHash)
    requires v in leaves && Distinct(leaves, 0)
    ensures v.index in ValueMap(leaves, 0) && ValueMap(leaves, 0)[v.index] == v.hash
  {
    hide ValueMap, Distinct;
    var i :| 0 <= i < |leaves| && leaves[i] == v;
    ShiftNothing(v.index);
    ValueMapKeys(leaves, 0, v.index);
  }

  lemma PrefixAdd(rest: seq<LeafHash>, last: LeafHash, leaves: seq<LeafHash>, base: nat, prefix: nat)
    requires leaves == rest + [last]
    ensures WithPrefix(leaves, base, prefix) == WithPrefix(rest, base, prefix) +
              if Shr(last.index, base) == prefix then [last] else []
  {
    assert leaves[..|rest|] == rest;
  }

  /** For example: a leaf for one child and the same index twice for another. The first child stores a leaf that
      the map never had. */
  lemma FailedBatchStores(base: nat, a: Hash, b: Hash)
    ensures
      var leaves := [LeafHash(0, a), LeafHash(Shl(1, base), b), LeafHash(Shl(1, base), b)];
      !Distinct(leaves, 0) && Built(leaves, leaves, base) == [leaves[0]]
          && !AllPresent(map[], Built(leaves, leaves, base))
  {
    hide Shl, Shr;
    var leaves := [LeafHash(0, a), LeafHash(Shl(1, base), b), LeafHash(Shl(1, base), b)];
    ShrZero(base);
    ShrUnique(Shl(1, base), base, 1);
    assert Shr(leaves[1].index, 0) == Shr(leaves[2].index, 0);
    var v, w := leaves[0], leaves[1];
    assert WithPrefix([], base, 0) == [] == WithPrefix([], base, 1);
    PrefixAdd([], v, [v], base, 0);
    PrefixAdd([v], w, [v, w], base, 0);
    PrefixAdd([v, w], w, leaves, base, 0);
    PrefixAdd([], v, [v], base, 1);
    PrefixAdd([v], w, [v, w], base, 1);
    PrefixAdd([v, w], w, leaves, base, 1);
    var twice := WithPrefix(leaves, base, 1);
    assert twice == [w, w];
    assert Shr(twice[0].index, 0) == Shr(twice[1].index, 0);
    assert leaves[..2] == [v, w] && [v, w][..1] == [v] && [v][..0] == [];
    assert Built(leaves, [v], base) == [v];
    assert Built(leaves, [v, w], base) == [v];
  }
}
