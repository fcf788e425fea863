/** Batches of leaves written one after the other (server/map_rpc_server.go with merkle/sparse_merkle_tree.go), each by
    a writer of its own, some of which fail. Every writer reads what the ones before it left in storage. */
module SparseBatches {
  import opened Bits
  import opened Hashing
  import opened LogTree
  import opened SparseTree
  import opened HStar2
  import opened EmptyBranches
  import opened SparseWriter

  /** What storage holds: the tree over `hidden` below the roots of the children, and that over `shown` above them. */
  datatype MapState = MapState(hidden: map<nat, Hash>, shown: map<nat, Hash>)

  /** A batch that succeeds shows all that is below the children it has leaves for; one that fails shows nothing, but
      leaves behind what it built. */
  function After(s: MapState, leaves: seq<LeafHash>, base: nat): MapState {
    if Distinct(leaves, 0) then
      var hidden := Updated(s.hidden, leaves, 0);
      MapState(hidden, Mixed(s.shown, hidden, leaves, base))
    else MapState(Updated(s.hidden, Built(leaves, leaves, base), 0), s.shown)
  }

  function AfterAll(batches: seq<seq<LeafHash>>, base: nat): MapState {
    if batches == [] then MapState(map[], map[])
    else After(AfterAll(batches[..|batches| - 1], base), batches[|batches| - 1], base)
  }

  ghost predicate InState(mh: MapHasher, store: map<Coord, Hash>, s: MapState)
    requires mh.bits > TOP_DEPTH
  {
    Held(mh, store, s.hidden, ShardRoots(mh, s.shown, mh.bits - TOP_DEPTH))
  }

  lemma EmptyState(mh: MapHasher)
    requires mh.bits > TOP_DEPTH
    ensures InState(mh, map[], MapState(map[], map[]))
  {
    NothingStored(mh, 0, mh.bits, 0);
    WholeIsHeld(mh, map[], map[]);
  }

  /** One batch. */
  method SetBatch(mh: MapHasher, store: map<Coord, Hash>, leaves: seq<LeafHash>, ghost s: MapState)
      returns (root: Result<Hash, HStarError>, store': map<Coord, Hash>)
    requires mh.bits > TOP_DEPTH && mh.bits % 8 == 0 && AllBelow(leaves, mh.bits, 0) && InState(mh, store, s)
    ensures
      var s' := After(s, leaves, mh.bits - TOP_DEPTH);
      && InState(mh, store', s')
      && (root.Err? <==> !Distinct(leaves, 0))
      && (root.Ok? ==> root.value == MapRoot(mh, s'.shown))
  {
    hide StoreOk, Distinct, Updated, Touched, Tree, AllBelow, ShardRoots, Held, Mixed, Built, Vacant, Opens,
         EmptiesAreNodes, ParentsHeld, NoneEmpty, SparseMerkleTreeWriter.FromWhole, SparseMerkleTreeWriter.NewRoots,
         SparseMerkleTreeWriter.TopValues, SparseMerkleTreeWriter.EmptyShows;
    var writer := new SparseMerkleTreeWriter(mh);
    writer.SetLeaves(leaves);
    ghost var base: nat, roots := mh.bits - TOP_DEPTH, ShardRoots(mh, s.shown, mh.bits - TOP_DEPTH);
    var r, nodes := writer.CalculateRoot(store, s.hidden, roots);
    root, store' := r, store + nodes;
    assert writer.Leaves == leaves;
    if Distinct(leaves, 0) {
      ghost var shown := writer.Shown(s.hidden, s.shown);
      writer.RootShown(s.hidden, s.shown);
      ListedNotEmpty(mh, s.hidden, s.shown, leaves, base, writer.leafQueue);
      NoneEmptyParents(shown, base, writer.leafQueue);
      OpensNone(mh, shown, writer.NewRoots(s.hidden, roots), base, writer.leafQueue);
    }
  }

  /** Any number of batches: each root is that of the map shown then, and each batch fails exactly on a shared index. */
  method SetBatches(mh: MapHasher, batches: seq<seq<LeafHash>>)
      returns (roots: seq<Result<Hash, HStarError>>, store: map<Coord, Hash>)
    requires mh.bits > TOP_DEPTH && mh.bits % 8 == 0
    requires forall k :: 0 <= k < |batches| ==> AllBelow(batches[k], mh.bits, 0)
    ensures |roots| == |batches| && InState(mh, store, AfterAll(batches, mh.bits - TOP_DEPTH))
    ensures forall k :: 0 <= k < |batches| ==> (roots[k].Err? <==> !Distinct(batches[k], 0))
    ensures forall k :: 0 <= k < |batches| && roots[k].Ok? ==>
              roots[k].value == MapRoot(mh, AfterAll(batches[..k + 1], mh.bits - TOP_DEPTH).shown)
  {
    hide Distinct, AllBelow, InState, After, MapRoot;
    ghost var base: nat := mh.bits - TOP_DEPTH;
    roots, store := [], map[];
    EmptyState(mh);
    for n := 0 to |batches|
      invariant |roots| == n && InState(mh, store, AfterAll(batches[..n], base))
      invariant forall k :: 0 <= k < n ==> (roots[k].Err? <==> !Distinct(batches[k], 0))
      invariant forall k :: 0 <= k < n && roots[k].Ok? ==>
                  roots[k].value == MapRoot(mh, AfterAll(batches[..k + 1], base).shown)
    {
      assert batches[..n + 1][..n] == batches[..n];
      var root;
      root, store := SetBatch(mh, store, batches[n], AfterAll(batches[..n], base));
      roots := roots + [root];
    }
    assert batches[..|batches|] == batches;
  }

  // ---------- when nothing fails ----------

  function UpdatedAll(batches: seq<seq<LeafHash>>): map<nat, Hash> {
    if batches == [] then map[] else Updated(UpdatedAll(batches[..|batches| - 1]), batches[|batches| - 1], 0)
  }

  /** Then what is shown, and all that there is, is the map after all batches. */
  lemma {:induction false} NoneFails(batches: seq<seq<LeafHash>>, base: nat)
    requires forall k :: 0 <= k < |batches| ==> Distinct(batches[k], 0)
    ensures AfterAll(batches, base) == MapState(UpdatedAll(batches), UpdatedAll(batches))
  {
    hide Distinct, Updated, Mixed;
    if batches != [] {
      var rest, last := batches[..|batches| - 1], batches[|batches| - 1];
      NoneFails(rest, base);
      MixedWhole(UpdatedAll(rest), last, base);
    }
  }

  // ---------- what a failed batch leaves behind ----------

  /** Below the children that the batch has leaves for, nothing is hidden that the batch does not replace. */
  ghost predicate NothingHidden(s: MapState, leaves: seq<LeafHash>, base: nat) {
    forall y: nat :: Touched(leaves, Coord(base, Shr(y, base))) && y !in ValueMap(leaves, 0) ==>
                       SameEntry(s.hidden, s.shown, y)
  }

  /** Exactly then the next batch shows what was shown before, and its leaves. */
  lemma ShownIff(s: MapState, leaves: seq<LeafHash>, base: nat)
    requires Distinct(leaves, 0)
    ensures After(s, leaves, base).shown == Updated(s.shown, leaves, 0) <==> NothingHidden(s, leaves, base)
  {
    hide Distinct, Touched, Shr, ValueMap;
    var hidden, wanted := Updated(s.hidden, leaves, 0), Updated(s.shown, leaves, 0);
    var shown := Mixed(s.shown, hidden, leaves, base);
    forall y: nat
      ensures SameEntry(shown, wanted, y) <==>
              (Touched(leaves, Coord(base, Shr(y, base))) && y !in ValueMap(leaves, 0) ==>
                 SameEntry(s.hidden, s.shown, y))
    {
      var c := Coord(base, Shr(y, base));
      MixedBelow(s.shown, hidden, leaves, base, c.index);
      if !Touched(leaves, c) { UntouchedEntry(leaves, 0, c, y); }
    }
    if NothingHidden(s, leaves, base) { SameEntries(shown, wanted); }
  }

  /** After any run of batches, exactly then the next root is that of what was shown before and the leaves of the next
      batch, or two maps clash. */
  lemma NextRootIff(mh: MapHasher, batches: seq<seq<LeafHash>>, leaves: seq<LeafHash>, base: nat)
    requires forall k :: 0 <= k < |batches| ==> AllBelow(batches[k], mh.bits, 0)
    requires Distinct(leaves, 0) && AllBelow(leaves, mh.bits, 0)
    ensures
      var s := AfterAll(batches, base);
      var shown, wanted := After(s, leaves, base).shown, Updated(s.shown, leaves, 0);
      && (NothingHidden(s, leaves, base) ==> MapRoot(mh, shown) == MapRoot(mh, wanted))
      && (MapRoot(mh, shown) == MapRoot(mh, wanted) ==>
            NothingHidden(s, leaves, base) || MapsClash(mh, shown, wanted, mh.bits, 0).Shows(mh, shown, wanted))
  {
    hide Distinct, Touched, Shr, ValueMap, Tree, AllBelow, NothingHidden, Mixed;
    var s := AfterAll(batches, base);
    StateInside(batches, base, mh.bits);
    var shown, wanted := After(s, leaves, base).shown, Updated(s.shown, leaves, 0);
    ShownIff(s, leaves, base);
    if MapRoot(mh, shown) == MapRoot(mh, wanted) {
      RootBindsMap(mh, shown, wanted, mh.bits, 0);
      if SameBelow(shown, wanted, 0, mh.bits, 0) {
        UpdatedInside(s.hidden, leaves, mh.bits);
        UpdatedInside(s.shown, leaves, mh.bits);
        MixedInside(s.shown, Updated(s.hidden, leaves, 0), leaves, base, mh.bits);
        forall y: nat ensures SameEntry(shown, wanted, y) {}
        SameEntries(shown, wanted);
      }
    }
  }

  /** All indices fit. */
  predicate AllInside(m: map<nat, Hash>, bits: nat) {
    forall y :: y in m ==> Shr(y, bits) == 0
  }

  lemma UpdatedInside(m: map<nat, Hash>, leaves: seq<LeafHash>, bits: nat)
    requires AllInside(m, bits) && AllBelow(leaves, bits, 0)
    ensures AllInside(Updated(m, leaves, 0), bits)
  {
    hide Shr, ValueMap;
    forall y | y in ValueMap(leaves, 0) ensures Shr(y, bits) == 0 {
      ValueMapKeys(leaves, 0, y);
      var i :| 0 <= i < |leaves| && Shr(leaves[i].index, 0) == y;
      ShiftNothing(leaves[i].index);
    }
  }

  lemma MixedInside(m: map<nat, Hash>, m': map<nat, Hash>, leaves: seq<LeafHash>, base: nat, bits: nat)
    requires AllInside(m, bits) && AllInside(m', bits)
    ensures AllInside(Mixed(m, m', leaves, base), bits)
  {
    hide Shr, Touched;
  }

  /** In every run all indices fit. */
  lemma {:induction false} StateInside(batches: seq<seq<LeafHash>>, base: nat, bits: nat)
    requires forall k :: 0 <= k < |batches| ==> AllBelow(batches[k], bits, 0)
    ensures AllInside(AfterAll(batches, base).hidden, bits) && AllInside(AfterAll(batches, base).shown, bits)
  {
    hide AllBelow, AllInside, Distinct, Updated, Mixed, Built;
    if batches == [] {
      NoneInside(bits);
    } else {
      var rest, last := batches[..|batches| - 1], batches[|batches| - 1];
      StateInside(rest, base, bits);
      var s := AfterAll(rest, base);
      UpdatedInside(s.hidden, last, bits);
      MixedInside(s.shown, Updated(s.hidden, last, 0), last, base, bits);
      BuiltInside(last, base, bits);
      UpdatedInside(s.hidden, Built(last, last, base), bits);
    }
  }

  lemma NoneInside(bits: nat)
    ensures AllInside(map[], bits)
  {
  }

  lemma BuiltInside(leaves: seq<LeafHash>, base: nat, bits: nat)
    requires AllBelow(leaves, bits, 0)
    ensures AllBelow(Built(leaves, leaves, base), bits, 0)
  {
    hide Built, Shr;
    BuiltIn(leaves, leaves, base);
    var built := Built(leaves, leaves, base);
    forall j | 0 <= j < |built| ensures Shr(built[j].index, bits) == 0 { assert built[j] in leaves; }
  }

  /** Batch `k` failed and left a leaf at `y` behind, and no later batch showed it. */
  ghost predicate LeftBehind(batches: seq<seq<LeafHash>>, base: nat, k: nat, y: nat)
    requires k < |batches|
  {
    && !Distinct(batches[k], 0) && y in ValueMap(Built(batches[k], batches[k], base), 0)
    && forall j :: k < j < |batches| && Distinct(batches[j], 0) ==> !Touched(batches[j], Coord(base, Shr(y, base)))
  }

  /** Over every run, nothing is hidden that was not left behind. */
  lemma {:induction false} HiddenWasLeft(batches: seq<seq<LeafHash>>, base: nat, y: nat)
    requires forall k :: 0 <= k < |batches| ==> !LeftBehind(batches, base, k, y)
    ensures SameEntry(AfterAll(batches, base).hidden, AfterAll(batches, base).shown, y)
  {
    hide Distinct, Touched, Shr, ValueMap, Built, Mixed;
    if batches != [] {
      var n := |batches| - 1;
      var rest, last, c := batches[..n], batches[n], Coord(base, Shr(y, base));
      var s := AfterAll(rest, base);
      if Distinct(last, 0) {
        MixedBelow(s.shown, Updated(s.hidden, last, 0), last, base, c.index);
        if !Touched(last, c) { UntouchedEntry(last, 0, c, y); }
      } else {
        assert !LeftBehind(batches, base, n, y);
      }
      if !Distinct(last, 0) || !Touched(last, c) {
        forall k | 0 <= k < n ensures !LeftBehind(rest, base, k, y) {
          assert !LeftBehind(batches, base, k, y);
        }
        HiddenWasLeft(rest, base, y);
      }
    }
  }

  lemma TwoBatches(first: seq<LeafHash>, second: seq<LeafHash>, base: nat)
    ensures AfterAll([first], base) == After(MapState(map[], map[]), first, base)
    ensures AfterAll([first, second], base) == After(AfterAll([first], base), second, base)
  {
    hide After;
    assert [first, second][..1] == [first] && [first][..0] == [];
  }

  /** For example: a batch with a leaf for one child and one index twice for another fails; a second batch with another
      leaf for the first child then shows the leaf of the first. */
  lemma LeftoverShown(base: nat, a: Hash, b: Hash, c: Hash)
    requires base > 0
    ensures
      var first := [LeafHash(0, a), LeafHash(Shl(1, base), b), LeafHash(Shl(1, base), b)];
      var second := [LeafHash(1, c)];
      var s := AfterAll([first, second], base);
      && !Distinct(first, 0) && Distinct(second, 0)
      && 0 in s.shown && s.shown[0] == a && !NothingHidden(AfterAll([first], base), second, base)
  {
    hide Shl, Shr, Built, Mixed;
    var first := [LeafHash(0, a), LeafHash(Shl(1, base), b), LeafHash(Shl(1, base), b)];
    var second := [LeafHash(1, c)];
    FailedBatchStores(base, a, b);
    TwoBatches(first, second, base);
    ShrZero(base);
    ShrZero(0);
    var built := [LeafHash(0, a)];
    LeafValue(built, built[0]);
    ShiftNothing(1);
    ShrIsZero(1, base);
    Pow2Monotone(1, base);
    assert Pow2(1) == 2;
    assert Shr(second[0].index, base) == 0;
    assert Touched(second, Coord(base, 0));
    ValueMapKeys(second, 0, 0);
    var s := AfterAll([first], base);
    assert s == MapState(Updated(map[], built, 0), map[]);
    MixedBelow(s.shown, Updated(s.hidden, second, 0), second, base, 0);
    assert !SameEntry(s.hidden, s.shown, 0);
  }

  // ---------- a leaf that is rejected ----------

  /** A hasher that gives one hash to all leaves and empty branches and another to all nodes. */
  function TwoHashes(bits: nat, empty: Hash, node: Hash): MapHasher {
    MapHasher(bits, (index: nat, height: nat) => empty, (index: nat, value: Value) => empty, (l: Hash, r: Hash) => node)
  }

  /** For example: a single leaf with an index of two bytes is rejected, and the root of the empty map is not that of
      the empty map. */
  method RejectedLeafCounts(bits: nat, a: Hash, b: Hash, hash: Hash)
      returns (rejected: Result<(), SetLeafError>, root: Result<Hash, HStarError>)
    requires bits > 16 && a != b
    ensures rejected.Err? && root == Ok(b) && root != Ok(MapRoot(TwoHashes(bits, a, b), map[]))
  {
    hide StoreOk, Updated, ShardRoots, Held, Mixed, Built, Vacant, Opens, EmptiesAreNodes, ParentsHeld, NoneEmpty,
         SparseMerkleTreeWriter.FromWhole, SparseMerkleTreeWriter.NewRoots, SparseMerkleTreeWriter.EmptyShows, Shr;
    var mh := TwoHashes(bits, a, b);
    var writer := new SparseMerkleTreeWriter(mh);
    ShrZero(16);
    ShrZero(8);
    rejected := writer.SetLeaf(16, 0, hash);
    EmptyState(mh);
    ghost var roots := ShardRoots(mh, map[], bits - TOP_DEPTH);
    var nodes;
    root, nodes := writer.CalculateRoot(map[], map[], roots);
    writer.RootShown(map[], map[]);
    ghost var shown, newRoots := writer.Shown(map[], map[]), writer.NewRoots(map[], roots);
    OpenedNotVacant(mh, shown, newRoots, bits - TOP_DEPTH, writer.leafQueue, bits, 0);
    NothingBelow(bits);
  }

  lemma NothingBelow(bits: nat)
    ensures Vacant(map[], 0, bits, 0)
  {
  }
}
