/** A cache that is flushed, and a new one that reads back what was written (storage/cache/subtree_cache.go with
    map_subtree_cache.go and log_subtree_cache.go): the nodes of a map or of a log are all found again. */
module CacheReload {
  import opened Bits
  import opened Hashing
  import opened Rfc6962
  import opened LogTree
  import opened SparseTree
  import opened NodeIds
  import opened MerklePath
  import opened SubtreeCache
  import MapSubtree
  import LogSubtree
  import ProofFetcher
  import Sequencer

  function Lookup(store: map<Coord, Hash>, c: Coord): Option<Hash> {
    if c in store then Some(store[c]) else None
  }

  /** Every node is found in the cache as it is in `store`, under its tree coordinates. */
  ghost predicate Represents(c: Cache, store: map<Coord, Hash>)
    requires c.Sound()
    reads c
  {
    forall n | c.Fits(n) :: c.View(n) == Lookup(store, CoordOfId(n))
  }

  /** The node that suffix `k` names under prefix `px`, in a tree of height `bits`. */
  function KeyCoord(bits: nat, px: Prefix, k: Suffix): Coord
    requires 8 * |px| + k.bits <= bits
  {
    Coord(bits - 8 * |px| - k.bits, Shl(BigInt(px), k.bits) + SuffixNumber(k))
  }

  /** So is every key of a subtree. */
  lemma KeyHeld(c: Cache, store: map<Coord, Hash>, px: Prefix, k: Suffix)
    requires c.Sound() && c.Tidy() && Represents(c, store) && IsPrefix(c.stratumInfo, c.pathBytes, px)
    requires IsSlotKey(c.pathBytes, px, k) && k.bits <= c.stratumInfo[|px|].depth
    ensures c.Current(px).Get(k) == Lookup(store, KeyCoord(8 * c.pathBytes, px, k))
  {
    hide Slot, Shl, BigInt, SuffixNumber, NodeIds.WellFormed, CachedSubtree.Get, Layered;
    var n := KeyIsSlot(c.stratumInfo, c.pathBytes, px, k);
    SlotIsKey(c.stratumInfo, n);
    assert c.Fits(n);
  }

  /** Setting the hash of a node sets it at the node's coordinates, and nowhere else. */
  method SetNode(c: Cache, id: NodeID, hash: Hash, ghost store: map<Coord, Hash>)
    requires c.Valid() && c.Fits(id) && Represents(c, store)
    modifies c
    ensures c.Valid() && Represents(c, store[CoordOfId(id) := hash])
    ensures (old(c.Tidy()) ==> c.Tidy()) && (old(c.Deep()) ==> c.Deep())
  {
    hide Cache.Sound, Cache.View, CoordOfId, Cache.IsTidyCache, Cache.IsDeepCache, NodeID.Bits;
    c.SetNodeHash(id, hash);
    forall n | c.Fits(n) ensures c.View(n) == Lookup(store[CoordOfId(id) := hash], CoordOfId(n)) {
      SameCoordIff(n, id);
    }
  }

  /** All nodes of a tree of 64 levels, under the ids that are made for their coordinates. */
  method WriteNodes(c: Cache, nodes: map<Coord, Hash>, ghost store: map<Coord, Hash>) returns (ok: bool)
    requires c.Valid() && c.pathBytes == 8 && Represents(c, store)
    modifies c
    ensures c.Valid() && (old(c.Tidy()) ==> c.Tidy())
    ensures ok <==> forall at: Coord :: at in nodes ==> Representable(at, 64)
    ensures ok ==> Represents(c, store + nodes)
  {
    hide Layered, Cache.View, CoordOfId, Cache.IsTidyCache, NodeID.Bits, Represents, Representable, Shl, Shr, Pow2;
    var left := nodes.Keys;
    ghost var written: map<Coord, Hash> := store;
    while left != {}
      invariant left <= nodes.Keys
      invariant c.Valid() && Represents(c, written) && (old(c.Tidy()) ==> c.Tidy())
      invariant forall at :: at in nodes && at !in left ==> Representable(at, 64)
      invariant forall at :: at in written <==> at in store || (at in nodes && at !in left)
      invariant forall at :: at in written ==>
                  written[at] == if at in nodes && at !in left then nodes[at] else store[at]
    {
      var at :| at in left;
      var id := NewNodeIDForTreeCoords(at.level, at.index, 64);
      if id.Err? { return false; }
      SetNode(c, id.value, nodes[at], written);
      written, left := written[at := nodes[at]], left - {at};
    }
    assert written == store + nodes;
    return true;
  }

  /** A node is read under the id that is made for its coordinates. */
  method ReadNode(c: Cache, at: Coord, ghost store: map<Coord, Hash>) returns (r: Result<Option<Hash>, CoordError>)
    requires c.Valid() && c.pathBytes == 8 && Represents(c, store)
    modifies c`subtrees
    ensures c.Valid() && Represents(c, store) && (old(c.Tidy()) ==> c.Tidy())
    ensures r == if Representable(at, 64) then Ok(Lookup(store, at)) else Err(OutOfRange)
  {
    hide Layered, Cache.View, CoordOfId, Cache.IsTidyCache, Cache.IsDeepCache, NodeID.Bits, Representable, Shl, Shr,
         Pow2;
    var id := NewNodeIDForTreeCoords(at.level, at.index, 64);
    if id.Err? { return Err(OutOfRange); }
    var hash := c.GetNodeHash(id.value);
    return Ok(hash);
  }

  /** `fetchNodes` over a cache: the ids of all fetches in one request, and the checks of what comes back. */
  method FetchCached(c: Cache, fetches: seq<NodeFetch>, ghost store: map<Coord, Hash>)
      returns (r: Result<seq<Hash>, ProofFetcher.FetchError>)
    requires c.Valid() && c.pathBytes == 8 && Represents(c, store) && AllRepresentable(fetches, 64)
    modifies c`subtrees
    ensures c.Valid() && Represents(c, store) && (old(c.Tidy()) ==> c.Tidy())
    ensures r.Ok? <==> ProofFetcher.InStore(store, fetches)
    ensures r.Err? ==> r == Err(ProofFetcher.WrongNodeCount)
    ensures r.Ok? ==> |r.value| == |fetches| && forall j :: 0 <= j < |fetches| ==> r.value[j] == store[fetches[j].id]
  {
    hide Cache.Valid, Cache.Sound, Cache.IsTidyCache, CoordOfId, Representable, Represents, Lookup;
    var ids := IdsOf(fetches);
    ghost var want := seq(|fetches|, k requires 0 <= k < |fetches| => Lookup(store, fetches[k].id));
    var nodes := ReadAll(c, ids, want, store);
    StoredIff(fetches, store, want);
    r := Validated(nodes, ids);
  }

  /** The nodes for `ids`, of which `want` are the hashes. */
  method ReadAll(c: Cache, ids: seq<NodeID>, ghost want: seq<Option<Hash>>, ghost store: map<Coord, Hash>)
      returns (nodes: seq<FoundNode>)
    requires c.Valid() && c.pathBytes == 8 && Represents(c, store) && |ids| == |want|
    requires forall k :: 0 <= k < |ids| ==>
               ids[k].Valid() && |ids[k].path| == 8 && want[k] == Lookup(store, CoordOfId(ids[k]))
    modifies c`subtrees
    ensures c.Valid() && Represents(c, store) && (old(c.Tidy()) ==> c.Tidy())
    ensures |nodes| == |ids| <==> forall k :: 0 <= k < |ids| ==> want[k].Some?
    ensures |nodes| == |ids| ==> forall k :: 0 <= k < |ids| ==> nodes[k] == FoundNode(ids[k], want[k].value)
  {
    hide Cache.Sound, Cache.View, CoordOfId, Cache.IsTidyCache, Cache.IsDeepCache, Cache.Fits, Lookup;
    IdsFit(c, ids);
    ghost var at;
    nodes, at := c.GetNodes(ids);
    assert forall k :: 0 <= k < |ids| ==> c.View(ids[k]) == want[k];
  }

  method Validated(nodes: seq<FoundNode>, ids: seq<NodeID>) returns (r: Result<seq<Hash>, ProofFetcher.FetchError>)
    requires forall k :: 0 <= k < |ids| ==> ids[k].Valid()
    requires |nodes| == |ids| ==> forall k :: 0 <= k < |ids| ==> nodes[k].id == ids[k]
    ensures |nodes| != |ids| ==> r == Err(ProofFetcher.WrongNodeCount)
    ensures |nodes| == |ids| ==>
              r.Ok? && |r.value| == |ids| && forall k :: 0 <= k < |ids| ==> r.value[k] == nodes[k].hash
  {
    hide NodeID.Bits;
    if |nodes| != |ids| { return Err(ProofFetcher.WrongNodeCount); }
    var hashes: seq<Hash> := [];
    for k := 0 to |nodes|
      invariant |hashes| == k && forall j :: 0 <= j < k ==> hashes[j] == nodes[j].hash
    {
      if nodes[k].id.Bits() != ids[k].Bits() { return Err(ProofFetcher.WrongNode); }
      hashes := hashes + [nodes[k].hash];
    }
    return Ok(hashes);
  }

  lemma StoredIff(fetches: seq<NodeFetch>, store: map<Coord, Hash>, want: seq<Option<Hash>>)
    requires |want| == |fetches| && forall k :: 0 <= k < |want| ==> want[k] == Lookup(store, fetches[k].id)
    ensures ProofFetcher.InStore(store, fetches) <==> forall k :: 0 <= k < |want| ==> want[k].Some?
    ensures forall k :: 0 <= k < |want| && want[k].Some? ==>
            fetches[k].id in store && want[k].value == store[fetches[k].id]
  {
    assert forall j :: 0 <= j < |fetches| ==> fetches[j] in fetches;
    if forall k :: 0 <= k < |want| ==> want[k].Some? {
      forall f | f in fetches ensures f.id in store {
        var k :| 0 <= k < |fetches| && fetches[k] == f;
        assert want[k].Some?;
      }
    }
  }

  method IdsOf(fetches: seq<NodeFetch>) returns (ids: seq<NodeID>)
    requires AllRepresentable(fetches, 64)
    ensures |ids| == |fetches|
    ensures forall j :: 0 <= j < |ids| ==>
              ids[j].Valid() && |ids[j].path| == 8 && CoordOfId(ids[j]) == fetches[j].id
  {
    hide CoordOfId, NodeID.Bits, Representable, Shl, Shr, Pow2;
    ids := [];
    for k := 0 to |fetches|
      invariant |ids| == k
      invariant forall j :: 0 <= j < k ==>
                  ids[j].Valid() && |ids[j].path| == 8 && CoordOfId(ids[j]) == fetches[j].id
    {
      assert fetches[k] in fetches;
      var id := NewNodeIDForTreeCoords(fetches[k].id.level, fetches[k].id.index, 64);
      ids := ids + [id.value];
    }
  }

  lemma IdsFit(c: Cache, ids: seq<NodeID>)
    requires c.Sound() && c.pathBytes == 8 && forall j :: 0 <= j < |ids| ==> ids[j].Valid() && |ids[j].path| == 8
    ensures forall j :: 0 <= j < |ids| ==> c.Fits(ids[j])
  {
  }

  /** A request for an inclusion proof, answered from a cache that holds the canonical store of the log. */
  method InclusionFromCache(h: LogHasher, c: Cache, snapshot: int, leafIndex: int, treeSize: int, ghost d: seq<Hash>,
                            ghost store: map<Coord, Hash>)
      returns (r: Result<seq<Hash>, ProofFetcher.ServeError>)
    requires c.Valid() && c.pathBytes == 8 && Represents(c, store) && Canonical(h, d, store)
             && treeSize == |d| <= Pow2(64)
    modifies c`subtrees
    ensures c.Valid() && Represents(c, store)
    ensures 0 <= leafIndex < snapshot <= treeSize ==> r == Ok(InclusionProof(h, d, leafIndex, snapshot))
    ensures !(0 <= leafIndex < snapshot <= treeSize) ==> r.Err? && r.error.Address?
  {
    hide PathFetches, ProofFetcher.Run, Canonical, Path, Pow2, Representable, Represents;
    var fetches := CalcInclusionProofNodeAddresses(snapshot, leafIndex, treeSize, 64);
    if 0 <= leafIndex < snapshot <= treeSize {
      var fs := PathFetches(leafIndex, snapshot, |d|, 0, Height(snapshot));
      ProofFetcher.ServedInclusion(h, d, store, leafIndex, snapshot);
      ProofFetcher.FetchesRepresentable(h, d, store, fs, 64);
    }
    if fetches.Err? { return Err(ProofFetcher.Address(fetches.error)); }
    var nodes := FetchCached(c, fetches.value, store);
    var proof := ProofFetcher.BuildProof(h, nodes.value, fetches.value, store);
    return Ok(proof);
  }

  /** A request for a consistency proof, answered from a cache that holds the canonical store of the log. */
  method ConsistencyFromCache(h: LogHasher, c: Cache, snapshot1: int, snapshot2: int, treeSize: int,
                              ghost d: seq<Hash>, ghost store: map<Coord, Hash>)
      returns (r: Result<seq<Hash>, ProofFetcher.ServeError>)
    requires c.Valid() && c.pathBytes == 8 && Represents(c, store) && Canonical(h, d, store)
             && treeSize == |d| <= Pow2(64)
    modifies c`subtrees
    ensures c.Valid() && Represents(c, store)
    ensures 0 < snapshot1 <= snapshot2 <= treeSize ==> r == Ok(ConsistencyProof(h, d, snapshot1, snapshot2))
    ensures !(0 < snapshot1 <= snapshot2 <= treeSize) ==> r.Err? && r.error.Address?
  {
    hide ConsistencyFetches, ProofFetcher.Run, Canonical, SubProof, Pow2, Representable, Represents;
    var fetches := CalcConsistencyProofNodeAddresses(snapshot1, snapshot2, treeSize, 64);
    if 0 < snapshot1 <= snapshot2 <= treeSize {
      var fs := ConsistencyFetches(snapshot1, snapshot2, |d|);
      ProofFetcher.ServedConsistency(h, d, store, snapshot1, snapshot2);
      ProofFetcher.FetchesRepresentable(h, d, store, fs, 64);
    }
    if fetches.Err? { return Err(ProofFetcher.Address(fetches.error)); }
    var nodes := FetchCached(c, fetches.value, store);
    var proof := ProofFetcher.BuildProof(h, nodes.value, fetches.value, store);
    return Ok(proof);
  }

  // ---------- maps ----------

  /** No stratum reaches below the leaves of the tree. */
  predicate Aligned(info: seq<Stratum>, pathBytes: nat) {
    forall i :: 0 <= i < |info| && i < pathBytes ==>
        8 * i + 8 <= 8 * info[i].prefixBytes + info[i].depth <= 8 * pathBytes
  }

  /** The nodes of a subtree are nodes of the tree. */
  lemma KeyInside(bits: nat, px: Prefix, k: Suffix)
    requires 8 * |px| + k.bits <= bits && NodeIds.WellFormed(k)
    ensures KeyCoord(bits, px, k) == MapSubtree.NodeOf(bits - 8 * |px|, BigInt(px), k)
            && Inside(KeyCoord(bits, px, k), bits, 0)
  {
    hide Shl, Shr, BigInt, SuffixNumber, NodeIds.WellFormed;
    MapSubtree.KeyOfNode(bits - 8 * |px|, BigInt(px), k);
    BigIntFits(px);
    ShrIsZero(BigInt(px), 8 * |px|);
    ShrCompose(KeyCoord(bits, px, k).index, k.bits, 8 * |px|);
  }

  /** A cached subtree has exactly the non-empty nodes that lie in it. */
  lemma MapKeyHeld(mh: MapHasher, c: Cache, store: map<Coord, Hash>, m: map<nat, Hash>, px: Prefix, k: Suffix)
    requires c.Sound() && c.Tidy() && Represents(c, store) && IsPrefix(c.stratumInfo, c.pathBytes, px)
    requires mh.bits == 8 * c.pathBytes && StoreOk(mh, store, m, 0, mh.bits, 0)
    requires IsSlotKey(c.pathBytes, px, k) && k.bits <= c.stratumInfo[|px|].depth
    ensures
      var at := MapSubtree.NodeOf(mh.bits - 8 * |px|, BigInt(px), k);
      c.Current(px).Get(k) ==
        if Vacant(m, 0, at.level, at.index) then None else Some(Tree(mh, m, 0, at.level, at.index))
  {
    hide Represents, Cache.Tidy, CachedSubtree.Get, Cache.Sound, Tree, Vacant, KeyCoord, MapSubtree.NodeOf, Inside;
    KeyHeld(c, store, px, k);
    KeyInside(mh.bits, px, k);
  }

  lemma MapSubtreeHeld(mh: MapHasher, c: Cache, store: map<Coord, Hash>, m: map<nat, Hash>, px: Prefix)
    requires c.Sound() && c.Tidy() && Represents(c, store) && px in c.subtrees && Aligned(c.stratumInfo, c.pathBytes)
    requires mh.bits == 8 * c.pathBytes && StoreOk(mh, store, m, 0, mh.bits, 0)
    ensures
      var st, t := c.subtrees[px], mh.bits - 8 * |px|;
      && |px| < c.pathBytes && 0 < st.depth <= t && st.depth < 256 && st.depth % 8 == 0
      && MapSubtree.AreLeaves(mh, st.leaves, m, t, BigInt(px), st.depth)
      && MapSubtree.AreInternal(mh, st.internalNodes, m, t, BigInt(px), st.depth, |px| == 0)
  {
    hide Represents, Tree, Vacant, StoreOk, NodeIds.WellFormed, BigInt, MapSubtree.NodeOf;
    var st, t := c.subtrees[px], mh.bits - 8 * |px|;
    assert IsTidy(c.stratumInfo, c.pathBytes, px, st);
    forall k: Suffix | MapSubtree.IsKey(t, k) && k.bits == st.depth
      ensures MapSubtree.Holds(mh, st.leaves, m, t, BigInt(px), k)
    {
      MapKeyHeld(mh, c, store, m, px, k);
    }
    forall k | MapSubtree.IsInternalKey(t, st.depth, |px| == 0, k)
      ensures MapSubtree.Holds(mh, st.internalNodes, m, t, BigInt(px), k)
    {
      MapKeyHeld(mh, c, store, m, px, k);
    }
  }

  /** Under an internal node of a subtree there is a leaf of the subtree. */
  lemma MapInternalHasLeaf(mh: MapHasher, leaves: map<Suffix, Hash>, nodes: map<Suffix, Hash>, m: map<nat, Hash>,
                           t: nat, x: nat, depth: nat, top: bool, k: Suffix) returns (leaf: Suffix)
    requires depth <= t && depth < 256 && k in nodes
    requires MapSubtree.AreLeaves(mh, leaves, m, t, x, depth) && MapSubtree.AreInternal(mh, nodes, m, t, x, depth, top)
    ensures leaf in leaves
  {
    hide Shr, Tree, NodeIds.WellFormed, MapSubtree.NodeOf, MapSubtree.KeyOf;
    var at := MapSubtree.NodeOf(t, x, k);
    MapSubtree.KeyOfNode(t, x, k);
    var y :| y in m && Shr(y, at.level) == at.index;
    var below := Coord(t - depth, Shr(y, t - depth));
    ShrCompose(y, at.level, t - at.level);
    ShrCompose(y, t - depth, depth);
    MapSubtree.NodeOfKey(t, x, below);
    MapSubtree.InsideRoot(below, t, x);
    leaf := MapSubtree.KeyOf(t, x, below);
    assert MapSubtree.Holds(mh, leaves, m, t, x, leaf);
  }

  lemma MapUnwritten(mh: MapHasher, c: Cache, store: map<Coord, Hash>, m: map<nat, Hash>)
    requires c.Valid() && c.Tidy() && Represents(c, store) && Aligned(c.stratumInfo, c.pathBytes)
    requires mh.bits == 8 * c.pathBytes && StoreOk(mh, store, m, 0, mh.bits, 0)
    ensures forall px :: px in c.dirtyPrefixes && c.subtrees[px].leaves == map[] ==>
            c.subtrees[px].internalNodes == map[]
  {
    hide Represents, StoreOk, Cache.Tidy, Aligned, Cache.Sound;
    forall px | px in c.dirtyPrefixes && c.subtrees[px].leaves == map[] ensures c.subtrees[px].internalNodes == map[] {
      MapSubtreeHeld(mh, c, store, m, px);
      var st := c.subtrees[px];
      if k :| k in st.internalNodes {
        var t, x := mh.bits - 8 * |px|, BigInt(px);
        var _ := MapInternalHasLeaf(mh, st.leaves, st.internalNodes, m, t, x, st.depth, |px| == 0, k);
        assert false;
      }
    }
  }

  /** One subtree of a map, written and read back. */
  method RereadMapSubtree(mh: MapHasher, c: Cache, px: Prefix, ghost store: map<Coord, Hash>, ghost m: map<nat, Hash>)
      returns (st: CachedSubtree)
    requires c.Sound() && c.Tidy() && Represents(c, store) && px in c.subtrees && Aligned(c.stratumInfo, c.pathBytes)
    requires mh.bits == 8 * c.pathBytes && StoreOk(mh, store, m, 0, mh.bits, 0)
    ensures st == c.subtrees[px]
  {
    hide Represents, StoreOk, Cache.Tidy, Aligned, Cache.Sound, MapSubtree.AreLeaves, MapSubtree.AreInternal, BigInt;
    MapSubtreeHeld(mh, c, store, m, px);
    st := c.subtrees[px];
    var proto := new MapSubtree.MapSubtreeProto(|px|, BigInt(px), st.depth, st.leaves);
    proto.internalNodes := Some(st.internalNodes);
    var copy, _ := MapSubtree.StoreAndReload(mh, proto, m);
    st := CachedSubtree(copy.depth, copy.leaves, copy.internalNodes.value);
  }

  /** Reading back keeps the cache in order. */
  lemma StillTidy(c: Cache, f: Cache, reread: map<Prefix, CachedSubtree>)
    requires c.Valid() && c.Tidy() && f.stratumInfo == c.stratumInfo && f.pathBytes == c.pathBytes
    requires f.subtrees == map[] && f.stored == c.stored + reread
    requires forall px :: px in reread ==>
             px in c.subtrees && reread[px] == c.subtrees[px] && reread[px].leaves != map[]
    ensures f.Tidy()
  {
    hide IsTidy;
  }

  /** A new cache over what was written has the same view, for every node. */
  lemma AllFound(c: Cache, f: Cache, reread: map<Prefix, CachedSubtree>, store: map<Coord, Hash>)
    requires c.Valid() && c.Tidy() && Represents(c, store)
    requires f.stratumInfo == c.stratumInfo && f.pathBytes == c.pathBytes && f.subtrees == map[]
             && f.stored == c.stored + reread
    requires forall px :: px in reread <==> px in c.dirtyPrefixes && c.subtrees[px].leaves != map[]
    requires forall px :: px in reread ==> reread[px] == c.subtrees[px]
    requires forall px :: px in c.dirtyPrefixes && c.subtrees[px].leaves == map[] ==>
             c.subtrees[px].internalNodes == map[]
    ensures f.Sound() && f.Tidy() && Represents(f, store) && forall n | c.Fits(n) :: f.Fits(n) && f.View(n) == c.View(n)
  {
    hide Cache.IsTidyCache, Cache.View, Layered;
    StillTidy(c, f, reread);
    forall n | c.Fits(n) ensures f.Fits(n) && f.View(n) == c.View(n) { SameView(c, f, reread, n); }
  }

  /** A cache that is new, over storage that is empty, has no node. */
  lemma NoneFound(c: Cache, f: Cache)
    requires c.Sound() && f.stratumInfo == c.stratumInfo && f.pathBytes == c.pathBytes && f.stored == map[]
             && f.subtrees == map[]
    ensures f.Sound() && forall n | c.Fits(n) :: f.Fits(n) && f.View(n) == None
  {
  }

  /** A map that is flushed and read back by a new cache: every node is found as before if no stratum has 256 levels,
      and none is if one has. */
  method FlushAndReloadMap(mh: MapHasher, c: Cache, ghost store: map<Coord, Hash>, ghost m: map<nat, Hash>)
      returns (f: Cache)
    requires c.Valid() && (c.Tidy() || c.Deep()) && Aligned(c.stratumInfo, c.pathBytes) && mh.bits == 8 * c.pathBytes
    requires Represents(c, store) && StoreOk(mh, store, m, 0, mh.bits, 0)
    ensures fresh(f) && f.Valid() && f.stratumInfo == c.stratumInfo && f.pathBytes == c.pathBytes && f.subtrees == map[]
    ensures c.Tidy() ==> f.Tidy() && Represents(f, store) && forall n | c.Fits(n) :: f.Fits(n) && f.View(n) == c.View(n)
    ensures c.Deep() ==> forall n | c.Fits(n) :: f.Fits(n) && f.View(n) == None
  {
    hide StoreOk, Aligned, Cache.Sound, Cache.IsTidyCache, Cache.Fits, Cache.SlotOf;
    var written := c.Flush();
    var reread: map<Prefix, CachedSubtree>, left := map[], written.Keys;
    while left != {}
      invariant left <= written.Keys
      invariant forall px :: px in reread <==> px in written && px !in left
      invariant forall px :: px in reread ==> reread[px] == written[px]
    {
      var px :| px in left;
      var st := RereadMapSubtree(mh, c, px, store, m);
      reread, left := reread[px := st], left - {px};
    }
    f := new Cache.Again(c, c.stored + reread);
    if c.Tidy() {
      MapUnwritten(mh, c, store, m);
      AllFound(c, f, reread, store);
    }
    if c.Deep() {
      assert written == map[];
      NoneFound(c, f);
    }
  }

  // ---------- logs ----------

  /** A suffix of at most eight bits is one byte. */
  lemma ByteKey(k: Suffix)
    requires 1 <= k.bits <= 8
    ensures NodeIds.WellFormed(k) <==> if k.bits == 8 then LogSubtree.IsLeafKey(k) else LogSubtree.InternalKey(k)
    ensures NodeIds.WellFormed(k) ==>
              LogSubtree.CoordOf(k) == Coord(8 - k.bits, SuffixNumber(k)) && LogSubtree.InSubtree(LogSubtree.CoordOf(k))
  {
    hide Shl, Shr, Pow2;
    if |k.path| == 1 {
      var b := k.path[0];
      assert k.path == [b] && BigInt([]) == 0;
      ShlZero(8);
      ShiftNothing(b);
      ShiftNothing(Shr(b, 0));
      ShrBounds(b, 8 - k.bits);
    }
    if NodeIds.WellFormed(k) { NumberFitsSuffix(k); }
  }

  /** Subtrees of eight levels, under paths of eight bytes. */
  ghost predicate LogCache(c: Cache) {
    c.pathBytes == 8 && forall i :: 0 <= i < |c.stratumInfo| ==> c.stratumInfo[i].depth == LogSubtree.STRATA_DEPTH
  }

  lemma LogKeyHeld(c: Cache, store: map<Coord, Hash>, px: Prefix, k: Suffix)
    requires c.Sound() && c.Tidy() && Represents(c, store) && LogCache(c) && px in c.subtrees
    requires 1 <= k.bits <= 8 && NodeIds.WellFormed(k)
    ensures |px| < 8 && c.subtrees[px].Get(k) ==
            Lookup(store, LogSubtree.Place(56 - 8 * |px|, BigInt(px), LogSubtree.CoordOf(k)))
  {
    hide Represents, NodeIds.WellFormed, BigInt, Shl, SuffixNumber, LogSubtree.CoordOf;
    assert IsTidy(c.stratumInfo, c.pathBytes, px, c.subtrees[px]);
    KeyHeld(c, store, px, k);
    ByteKey(k);
  }

  /** The root of the whole tree is not a node of the log, however many leaves it has. */
  lemma NoLogRoot(d: seq<Hash>)
    requires |d| <= Pow2(63)
    ensures !Stored(Coord(64, 0), |d|)
  {
    hide Pow2;
    Pow2Shl(0, 63);
    ShiftNothing(1);
  }

  lemma RootKey(k: Suffix)
    requires k.bits == 0 && NodeIds.WellFormed(k)
    ensures KeyCoord(64, [], k) == Coord(64, 0)
  {
    hide Shl, BigInt, SuffixNumber, NodeIds.WellFormed;
    RootSuffix();
    RootCoord(NodeID([], 0));
  }

  lemma NoRootHeld(h: LogHasher, d: seq<Hash>, c: Cache, store: map<Coord, Hash>, px: Prefix)
    requires c.Sound() && c.Tidy() && Represents(c, store) && LogCache(c) && px in c.subtrees
    requires Canonical(h, d, store) && |d| <= Pow2(63)
    ensures forall k :: k in c.subtrees[px].internalNodes ==> k.bits > 0
  {
    hide Represents, BigInt, Shl, Node, Stored, Pow2, NodeIds.WellFormed, KeyCoord;
    var st := c.subtrees[px];
    assert IsTidy(c.stratumInfo, c.pathBytes, px, st);
    NoLogRoot(d);
    forall k | k in st.internalNodes ensures k.bits > 0 {
      if k.bits == 0 {
        KeyHeld(c, store, px, k);
        RootKey(k);
      }
    }
  }

  /** `nodes` has, under the keys of one kind, what the log stores in the subtree. */
  lemma Packed(h: LogHasher, d: seq<Hash>, store: map<Coord, Hash>, base: nat, p: nat, keys: Suffix -> bool,
               nodes: map<Suffix, Hash>)
    requires Canonical(h, d, store)
    requires forall k :: keys(k) ==> k.bits <= 8 && LogSubtree.InSubtree(LogSubtree.CoordOf(k))
    requires forall k :: k in nodes ==> keys(k)
    requires forall k :: keys(k) ==>
               Lookup(store, LogSubtree.Place(base, p, LogSubtree.CoordOf(k))) ==
               if k in nodes then Some(nodes[k]) else None
    ensures LogSubtree.Packs(h, d, base, p, keys, nodes)
  {
    hide LogSubtree.CoordOf, LogSubtree.Place, Node, Stored, LogSubtree.InSubtree;
  }

  /** A cached subtree is the part of the log's storage that lies in it. */
  lemma LogSubtreeHeld(h: LogHasher, d: seq<Hash>, c: Cache, store: map<Coord, Hash>, px: Prefix)
    requires c.Sound() && c.Tidy() && Represents(c, store) && LogCache(c) && px in c.subtrees
    requires Canonical(h, d, store) && |d| <= Pow2(63)
    ensures
      var st := c.subtrees[px];
      && |px| < 8 && st.depth == LogSubtree.STRATA_DEPTH
      && LogSubtree.IsSubtree(h, d, 56 - 8 * |px|, BigInt(px), st.leaves, st.internalNodes)
  {
    hide Represents, NodeIds.WellFormed, BigInt, Shr, LogSubtree.Place, Canonical, Pow2, LogSubtree.Packs,
         LogSubtree.IsLeafKey, LogSubtree.InternalKey;
    var st, base, p := c.subtrees[px], 56 - 8 * |px|, BigInt(px);
    assert IsTidy(c.stratumInfo, c.pathBytes, px, st);
    NoRootHeld(h, d, c, store, px);
    forall k: Suffix | k.bits <= 8 && (LogSubtree.IsLeafKey(k) || LogSubtree.InternalKey(k))
      ensures LogSubtree.InSubtree(LogSubtree.CoordOf(k))
      ensures st.Get(k) == Lookup(store, LogSubtree.Place(base, p, LogSubtree.CoordOf(k)))
    {
      KeyKinds(k);
      ByteKey(k);
      LogKeyHeld(c, store, px, k);
    }
    forall k: Suffix
      ensures LogSubtree.IsLeafKey(k) ==> k.bits == 8
      ensures LogSubtree.InternalKey(k) ==> 1 <= k.bits < 8
    {
      KeyKinds(k);
    }
    forall k | k in st.leaves || k in st.internalNodes
      ensures if k in st.leaves then LogSubtree.IsLeafKey(k) else LogSubtree.InternalKey(k)
    {
      ByteKey(k);
    }
    Packed(h, d, store, base, p, LogSubtree.IsLeafKey, st.leaves);
    Packed(h, d, store, base, p, LogSubtree.InternalKey, st.internalNodes);
  }

  lemma KeyKinds(k: Suffix)
    ensures LogSubtree.IsLeafKey(k) ==> k.bits == 8
    ensures LogSubtree.InternalKey(k) ==> 1 <= k.bits < 8
  {
  }

  lemma LogUnwritten(h: LogHasher, d: seq<Hash>, c: Cache, store: map<Coord, Hash>)
    requires c.Valid() && c.Tidy() && Represents(c, store) && LogCache(c)
    requires Canonical(h, d, store) && |d| <= Pow2(63)
    ensures forall px :: px in c.dirtyPrefixes && c.subtrees[px].leaves == map[] ==>
            c.subtrees[px].internalNodes == map[]
  {
    hide Represents, Canonical, Cache.IsTidyCache, LogCache, LogSubtree.IsSubtree, Pow2;
    forall px | px in c.dirtyPrefixes && c.subtrees[px].leaves == map[] ensures c.subtrees[px].internalNodes == map[] {
      LogSubtreeHeld(h, d, c, store, px);
      LogSubtree.LeaflessIsEmpty(h, d, 56 - 8 * |px|, BigInt(px), c.subtrees[px].leaves, c.subtrees[px].internalNodes);
    }
  }

  /** One subtree of a log, written and read back. */
  method RereadLogSubtree(h: LogHasher, c: Cache, px: Prefix, ghost d: seq<Hash>, ghost store: map<Coord, Hash>)
      returns (st: CachedSubtree)
    requires c.Sound() && c.Tidy() && Represents(c, store) && LogCache(c) && px in c.subtrees
    requires Canonical(h, d, store) && |d| <= Pow2(63)
    ensures st == c.subtrees[px]
  {
    hide Represents, Canonical, Cache.IsTidyCache, LogCache, LogSubtree.IsSubtree, Pow2, BigInt, Cache.Sound;
    LogSubtreeHeld(h, d, c, store, px);
    st := c.subtrees[px];
    var proto := new LogSubtree.Subtree(st.depth, st.leaves, Some(st.internalNodes), 0);
    var copy, _ := LogSubtree.StoreAndReload(h, proto, d, 56 - 8 * |px|, BigInt(px));
    st := CachedSubtree(copy.depth, copy.leaves, copy.internalNodes.value);
  }

  /** A log that is flushed and read back by a new cache: storage is canonical again, for the same leaves. */
  method FlushAndReloadLog(h: LogHasher, c: Cache, ghost d: seq<Hash>, ghost store: map<Coord, Hash>) returns (f: Cache)
    requires c.Valid() && c.Tidy() && LogCache(c) && Represents(c, store) && Canonical(h, d, store) && |d| <= Pow2(63)
    ensures fresh(f) && f.Valid() && f.Tidy() && LogCache(f) && f.subtrees == map[] && Represents(f, store)
    ensures forall n | c.Fits(n) :: f.Fits(n) && f.View(n) == c.View(n)
  {
    hide Canonical, Cache.Sound, Cache.IsTidyCache, Cache.Fits, Cache.SlotOf, Pow2;
    var written := c.Flush();
    var reread: map<Prefix, CachedSubtree>, left := map[], written.Keys;
    while left != {}
      invariant left <= written.Keys
      invariant forall px :: px in reread <==> px in written && px !in left
      invariant forall px :: px in reread ==> reread[px] == written[px]
    {
      var px :| px in left;
      var st := RereadLogSubtree(h, c, px, d, store);
      reread, left := reread[px := st], left - {px};
    }
    f := new Cache.Again(c, c.stored + reread);
    LogUnwritten(h, d, c, store);
    AllFound(c, f, reread, store);
  }

  /** The nodes of a batch of leaves, as the sequencer commits them: written through the cache, flushed and read back by
      a new one, storage is canonical for the longer log. */
  method StoreBatch(h: LogHasher, c: Cache, nodes: map<Coord, Hash>, ghost d: seq<Hash>, ghost e: seq<Hash>,
                    ghost store: map<Coord, Hash>)
      returns (f: Cache)
    requires c.Valid() && c.Tidy() && LogCache(c) && Represents(c, store) && Canonical(h, d, store)
    requires Sequencer.Extends(h, d, e, nodes) && |e| <= Pow2(63)
    modifies c
    ensures fresh(f) && f.Valid() && f.Tidy() && LogCache(f)
    ensures Canonical(h, e, store + nodes) && Represents(f, store + nodes)
  {
    hide Cache.Sound, Cache.IsTidyCache, Represents, Representable, Stored, Pow2, Node;
    NodesFit(h, e, store + nodes);
    var ok := WriteNodes(c, nodes, store);
    f := FlushAndReloadLog(h, c, e, store + nodes);
  }

  lemma NodesFit(h: LogHasher, d: seq<Hash>, store: map<Coord, Hash>)
    requires Canonical(h, d, store) && |d| <= Pow2(63)
    ensures forall at: Coord :: at in store ==> Representable(at, 64)
  {
    hide Representable, Stored, Pow2, Node;
    Pow2Monotone(63, 64);
    forall at: Coord | at in store ensures Representable(at, 64) { ProofFetcher.StoredRepresentable(at, |d|, 64); }
  }
}
