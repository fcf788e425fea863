/** The subtree cache (storage/cache/subtree_cache.go): nodes are kept in the subtree their path runs through, read
    or written there, and flushed with it. */
module SubtreeCache {
  import opened Bits
  import opened Hashing
  import opened LogTree
  import opened NodeIds

  type Prefix = seq<Byte>

  /** A populated subtree. Leaves are kept apart from the other nodes. */
  datatype CachedSubtree = CachedSubtree(depth: nat, leaves: map<Suffix, Hash>, internalNodes: map<Suffix, Hash>) {
    function Get(k: Suffix): Option<Hash> {
      if k.bits == depth then
        if k in leaves then Some(leaves[k]) else None
      else
        if k in internalNodes then Some(internalNodes[k]) else None
    }

    function Set(k: Suffix, hash: Hash): (r: CachedSubtree)
      ensures r.depth == depth && forall j :: r.Get(j) == if j == k then Some(hash) else Get(j)
    {
      if k.bits == depth then this.(leaves := leaves[k := hash]) else this.(internalNodes := internalNodes[k := hash])
    }
  }

  datatype FoundNode = FoundNode(id: NodeID, hash: Hash)

  /** One more stratum of `depth` levels, listed for each of its bytes. */
  lemma StratumAdded(info: seq<Stratum>, more: seq<Stratum>, depth: nat)
    requires Layered(info) && depth > 0 && depth % 8 == 0 && |more| == depth / 8
    requires forall j :: 0 <= j < |more| ==> more[j] == Stratum(|info|, depth)
    ensures Layered(info + more)
  {
    var all := info + more;
    forall i | 0 <= i < |all|
      ensures var s := all[i];
              && s.prefixBytes <= i && s.depth % 8 == 0 && i < s.prefixBytes + s.depth / 8 <= |all|
              && forall j :: s.prefixBytes <= j < s.prefixBytes + s.depth / 8 ==> all[j] == s
    {
      if i < |info| { assert all[i] == info[i]; } else { assert all[i] == more[i - |info|]; }
    }
  }

  function Sum(depths: seq<nat>): nat {
    if depths == [] then 0 else Sum(depths[..|depths| - 1]) + depths[|depths| - 1]
  }

  /** Byte `i` of a path belongs to stratum `d`. */
  predicate Within(strata: seq<nat>, d: nat, i: nat)
    requires d < |strata|
  {
    Sum(strata[..d]) <= 8 * i < Sum(strata[..d]) + strata[d]
  }

  /** Every byte is assigned to the stratum it belongs to: that begins below the strata before it. */
  ghost predicate LaidOut(info: seq<Stratum>, strata: seq<nat>) {
    forall d: nat, i: nat :: d < |strata| && Within(strata, d, i) ==>
                               i < |info| && info[i] == Stratum(Sum(strata[..d]) / 8, strata[d])
  }

  lemma LaidOutStep(info: seq<Stratum>, more: seq<Stratum>, strata: seq<nat>, d: nat)
    requires d < |strata| && LaidOut(info, strata[..d]) && Sum(strata[..d]) == 8 * |info|
    requires strata[d] % 8 == 0 && |more| == strata[d] / 8
    requires forall j :: 0 <= j < |more| ==> more[j] == Stratum(|info|, strata[d])
    ensures LaidOut(info + more, strata[..d + 1]) && Sum(strata[..d + 1]) == 8 * |info + more|
  {
    var before, now, all := strata[..d], strata[..d + 1], info + more;
    assert now[..d] == before;
    forall e: nat, i: nat | e < |now| && Within(now, e, i)
      ensures i < |all| && all[i] == Stratum(Sum(now[..e]) / 8, now[e])
    {
      assert now[..e] == strata[..e];
      if e < d {
        assert before[..e] == strata[..e] && Within(before, e, i);
      } else {
        assert all[i] == more[i - |info|];
      }
    }
  }

  /** `NewSubtreeCache`: which stratum each byte of a path belongs to. */
  method StrataOf(strataDepths: seq<nat>) returns (sInfo: seq<Stratum>)
    requires ValidStrata(strataDepths, MAX_TREE_DEPTH)
    ensures Layered(sInfo) && |sInfo| == MAX_TREE_DEPTH / 8
    ensures forall d: nat, i: nat :: d < |strataDepths| && Within(strataDepths, d, i) ==>
              i < |sInfo| && sInfo[i] == Stratum(Sum(strataDepths[..d]) / 8, strataDepths[d])
  {
    hide LaidOut, Sum, Within;
    NothingLaidOut(strataDepths);
    sInfo := [];
    var t := 0;
    for d := 0 to |strataDepths|
      invariant Layered(sInfo) && t == 8 * |sInfo| <= MAX_TREE_DEPTH
      invariant ValidStrata(strataDepths[d..], MAX_TREE_DEPTH - t)
      invariant LaidOut(sInfo, strataDepths[..d]) && Sum(strataDepths[..d]) == 8 * |sInfo|
    {
      var sDepth := strataDepths[d];
      assert strataDepths[d..][0] == sDepth && strataDepths[d..][1..] == strataDepths[d + 1..];
      var pb, more: seq<Stratum>, i := t / 8, [], 0;
      while i < sDepth
        invariant i == 8 * |more| <= sDepth
        invariant forall j :: 0 <= j < |more| ==> more[j] == Stratum(pb, sDepth)
      {
        more := more + [Stratum(pb, sDepth)];
        i := i + 8;
      }
      StratumAdded(sInfo, more, sDepth);
      LaidOutStep(sInfo, more, strataDepths, d);
      sInfo, t := sInfo + more, t + sDepth;
    }
    assert strataDepths[..|strataDepths|] == strataDepths;
    LayoutOf(sInfo, strataDepths);
  }

  lemma NothingLaidOut(strata: seq<nat>)
    ensures LaidOut([], strata[..0]) && Sum(strata[..0]) == 0
  {
  }

  lemma LayoutOf(info: seq<Stratum>, strata: seq<nat>)
    requires LaidOut(info, strata)
    ensures forall d: nat, i: nat :: d < |strata| && Within(strata, d, i) ==>
              i < |info| && info[i] == Stratum(Sum(strata[..d]) / 8, strata[d])
  {
  }

  /** Where a node is kept: one with more bits than the strata before stratum `d` have, and no more than with it, has as
      prefix the bytes that those strata take, and as suffix the rest of its bits. */
  lemma NodePlace(info: seq<Stratum>, strata: seq<nat>, d: nat, n: NodeID)
    requires Layered(info) && 0 < |info| && LaidOut(info, strata) && n.Valid() && n.prefixLenBits <= 8 * |info|
    requires d < |strata| && Sum(strata[..d]) % 8 == 0 && strata[d] % 8 == 0
    requires Sum(strata[..d]) < n.prefixLenBits <= Sum(strata[..d]) + strata[d]
    ensures
      var slot, above := Slot(info, n), Sum(strata[..d]);
      slot.0 == n.path[..above / 8] && slot.1.bits == (n.prefixLenBits - above) % 256
  {
    hide Sum, Split;
    StratumFits(info, n);
    assert Within(strata, d, (n.prefixLenBits - 1) / 8);
  }

  // ---------- keys ----------

  /** `px` is where a stratum begins. */
  predicate IsPrefix(info: seq<Stratum>, pathBytes: nat, px: Prefix) {
    |px| < |info| && |px| < pathBytes && info[|px|].prefixBytes == |px|
  }

  /** Every key of a subtree is the suffix of one of its nodes, and the leaves are those at the bottom. */
  ghost predicate IsTidy(info: seq<Stratum>, pathBytes: nat, px: Prefix, st: CachedSubtree) {
    && IsPrefix(info, pathBytes, px) && st.depth == info[|px|].depth
    && (forall k :: k in st.leaves ==> k.bits == st.depth && IsSlotKey(pathBytes, px, k))
    && (forall k :: k in st.internalNodes ==> k.bits < st.depth && IsSlotKey(pathBytes, px, k))
  }

  predicate IsSlotKey(pathBytes: nat, px: Prefix, k: Suffix) {
    NodeIds.WellFormed(k) && (k.bits == 0 ==> px == []) && 8 * |px| + k.bits <= 8 * pathBytes
  }

  /** Suffixes count their bits in a byte. */
  predicate NoDeepStratum(info: seq<Stratum>) {
    forall i :: 0 <= i < |info| ==> info[i].depth < 256
  }

  /** A stratum of 256 levels is the only one. */
  lemma DeepStratumIff(info: seq<Stratum>, strata: seq<nat>)
    requires Layered(info) && |info| == MAX_TREE_DEPTH / 8
    requires LaidOut(info, strata) && ValidStrata(strata, MAX_TREE_DEPTH)
    ensures strata != [MAX_TREE_DEPTH] ==> NoDeepStratum(info)
    ensures strata == [MAX_TREE_DEPTH] ==> forall i :: 0 <= i < |info| ==> info[i].depth == MAX_TREE_DEPTH
  {
    assert Within(strata, 0, 0);
    assert info[0] == Stratum(0, strata[0]);
    forall i | 0 <= i < |info| && info[i].depth >= 256 ensures strata == [MAX_TREE_DEPTH] {
      assert info[i].prefixBytes == 0 && info[0] == info[i];
      assert ValidStrata(strata[1..], 0);
      assert strata[1..] == [];
    }
  }

  /** The slot of a node is a key of its subtree, and stands for the node's coordinates. */
  lemma SlotIsKey(info: seq<Stratum>, n: NodeID)
    requires Layered(info) && 0 < |info| && NoDeepStratum(info) && n.Valid() && n.prefixLenBits <= 8 * |info|
             && |n.path| > 0
    ensures
      var slot := Slot(info, n);
      && IsPrefix(info, |n.path|, slot.0) && slot.1.bits <= info[|slot.0|].depth && IsSlotKey(|n.path|, slot.0, slot.1)
      && CoordOfId(n) == Coord(8 * |n.path| - 8 * |slot.0| - slot.1.bits,
                               Shl(BigInt(slot.0), slot.1.bits) + SuffixNumber(slot.1))
  {
    hide Split, Shl, Shr, BigInt, NodeIds.WellFormed, SuffixNumber;
    StratumFits(info, n);
    if n.prefixLenBits == 0 {
      RootSuffix();
      RootCoord(n);
    } else {
      var s := StratumFor(info, n);
      assert info[s.prefixBytes] == s;
      SplitNumber(n, s.prefixBytes, s.depth);
    }
  }

  lemma RootSuffix()
    ensures NodeIds.WellFormed(Suffix(0, [0])) && SuffixNumber(Suffix(0, [0])) == 0
    ensures forall k: Suffix :: k.bits == 0 && NodeIds.WellFormed(k) ==> k == Suffix(0, [0])
  {
    assert [0][..0] == [];
    ShrZero(8);
    ShlZero(8);
    forall k: Suffix | k.bits == 0 && NodeIds.WellFormed(k) ensures k == Suffix(0, [0]) {
      var b := k.path[0];
      assert k.path == [b] && k.path[..0] == [];
      BigIntFits(k.path);
      ShrIsZero(BigInt(k.path), 8);
    }
  }

  lemma RootCoord(n: NodeID)
    requires n.prefixLenBits == 0
    ensures CoordOfId(n) == Coord(8 * |n.path|, 0) && Shl(BigInt([]), 0) == 0
  {
    BigIntFits(n.path);
    ShrIsZero(BigInt(n.path), 8 * |n.path|);
  }

  /** Every key of a subtree is the slot of a node. */
  lemma KeyIsSlot(info: seq<Stratum>, pathBytes: nat, px: Prefix, k: Suffix) returns (n: NodeID)
    requires Layered(info) && 0 < |info| && NoDeepStratum(info) && IsPrefix(info, pathBytes, px)
    requires IsSlotKey(pathBytes, px, k) && k.bits <= info[|px|].depth
    ensures n.Valid() && |n.path| == pathBytes && n.prefixLenBits <= 8 * |info| && Slot(info, n) == (px, k)
  {
    hide Shl, Shr, BigInt, NodeIds.WellFormed, SuffixNumber, Split;
    if k.bits == 0 {
      RootSuffix();
      n := NodeID(Zeros(pathBytes), 0);
    } else {
      SuffixLength(k);
      n := FromPrefixSuffix(px, k, 8 * pathBytes);
      var s := info[|px|];
      var i := (n.prefixLenBits - 1) / 8;
      assert s.prefixBytes <= i < s.prefixBytes + s.depth / 8;
      assert info[i] == s;
      StratumFits(info, n);
      SplitJoined(px, k, n, s.depth);
    }
  }

  // ---------- many nodes at once ----------

  /** Positions that go up and leave none out are all in their place. */
  lemma {:induction false} AllPositions(at: seq<nat>, n: nat)
    requires forall i, j :: 0 <= i < j < |at| ==> at[i] < at[j]
    requires (forall j :: 0 <= j < |at| ==> at[j] < n) && forall k :: 0 <= k < n ==> k in at
    ensures |at| == n && forall k :: 0 <= k < n ==> at[k] == k
  {
    if |at| > 0 { assert at[0] < n; }
    if n > 0 {
      assert n - 1 in at;
      var last := |at| - 1;
      assert at[last] == n - 1;
      var rest := at[..last];
      forall k | 0 <= k < n - 1 ensures k in rest {
        assert k in at;
        var j :| 0 <= j < |at| && at[j] == k;
        assert rest[j] == k;
      }
      AllPositions(rest, n - 1);
    }
  }

  /** `ret` has the hashes of the first `k` ids that have one; `at` says at which positions they are. */
  ghost predicate Lists(hashes: seq<Option<Hash>>, ids: seq<NodeID>, k: nat, ret: seq<FoundNode>, at: seq<nat>) {
    && k <= |ids| == |hashes| && |ret| == |at|
    && (forall j :: 0 <= j < |at| ==> at[j] < k)
    && (forall i, j :: 0 <= i < j < |at| ==> at[i] < at[j])
    && (forall j :: 0 <= j < |at| ==> hashes[at[j]].Some? && ret[j] == FoundNode(ids[at[j]], hashes[at[j]].value))
    && (forall j :: 0 <= j < k && hashes[j].Some? ==> j in at)
  }

  lemma ListStart(hashes: seq<Option<Hash>>, ids: seq<NodeID>)
    requires |ids| == |hashes|
    ensures Lists(hashes, ids, 0, [], [])
  {
  }

  lemma ListStep(hashes: seq<Option<Hash>>, ids: seq<NodeID>, k: nat, ret: seq<FoundNode>, at: seq<nat>)
    requires Lists(hashes, ids, k, ret, at) && k < |ids| == |hashes|
    ensures hashes[k].None? ==> Lists(hashes, ids, k + 1, ret, at)
    ensures hashes[k].Some? ==> Lists(hashes, ids, k + 1, ret + [FoundNode(ids[k], hashes[k].value)], at + [k])
  {
    var at' := at + [k];
    forall j | 0 <= j < |hashes| && j in at ensures j in at' {}
    assert at'[|at|] == k;
  }

  lemma Listed(hashes: seq<Option<Hash>>, ids: seq<NodeID>, ret: seq<FoundNode>, at: seq<nat>)
    requires Lists(hashes, ids, |ids|, ret, at)
    ensures |hashes| == |ids| && |ret| == |at| && forall j :: 0 <= j < |at| ==> at[j] < |ids|
    ensures forall i, j :: 0 <= i < j < |at| ==> at[i] < at[j]
    ensures forall j :: 0 <= j < |at| ==> hashes[at[j]].Some? && ret[j] == FoundNode(ids[at[j]], hashes[at[j]].value)
    ensures forall k :: 0 <= k < |ids| ==> (hashes[k].Some? <==> k in at)
    ensures |ret| == |ids| <==> forall k :: 0 <= k < |ids| ==> hashes[k].Some?
    ensures |ret| == |ids| ==> forall k :: 0 <= k < |ids| ==> ret[k] == FoundNode(ids[k], hashes[k].value)
  {
    if forall k :: 0 <= k < |ids| ==> hashes[k].Some? { AllPositions(at, |ids|); }
    if |ret| == |ids| {
      forall k | 0 <= k < |ids| ensures at[k] == k && hashes[k].Some? {
        InPlace(at, |ids|, k);
        assert hashes[at[k]].Some?;
      }
    }
  }

  /** So are as many positions as there are. */
  lemma {:induction false} InPlace(at: seq<nat>, n: nat, k: nat)
    requires |at| == n && forall i, j :: 0 <= i < j < |at| ==> at[i] < at[j]
    requires (forall j :: 0 <= j < |at| ==> at[j] < n) && k < n
    ensures at[k] == k
  {
    AtLeast(at, k);
    AtMost(at, n, k);
  }

  lemma {:induction false} AtLeast(at: seq<nat>, k: nat)
    requires k < |at| && forall i, j :: 0 <= i < j < |at| ==> at[i] < at[j]
    ensures k <= at[k]
  {
    if k > 0 { AtLeast(at, k - 1); }
  }

  lemma {:induction false} AtMost(at: seq<nat>, n: nat, k: nat)
    requires k < |at| == n && forall i, j :: 0 <= i < j < |at| ==> at[i] < at[j]
    requires forall j :: 0 <= j < |at| ==> at[j] < n
    ensures at[k] <= k
    decreases n - k
  {
    if k + 1 < n { AtMost(at, n, k + 1); }
  }

  class Cache {
    const stratumInfo: seq<Stratum>
    /** Bytes in the path of every id. */
    const pathBytes: nat
    /** What storage returns for a prefix, populated. */
    const stored: map<Prefix, CachedSubtree>
    var subtrees: map<Prefix, CachedSubtree>
    var dirtyPrefixes: set<Prefix>

    predicate Sound() {
      Layered(stratumInfo) && |stratumInfo| == MAX_TREE_DEPTH / 8
    }

    /** A subtree that is not dirty is as it was read, so that nothing is lost if only dirty ones are written. */
    ghost predicate Valid()
      reads this
    {
      && Sound()
      && (forall px :: px in dirtyPrefixes ==> px in subtrees)
      && (forall px :: px in subtrees && px !in dirtyPrefixes ==> subtrees[px] == Loaded(px))
    }

    predicate Fits(n: NodeID) {
      n.Valid() && |n.path| == pathBytes && n.prefixLenBits <= 8 * |stratumInfo|
    }

    /** `splitNodeID` */
    function SlotOf(n: NodeID): (Prefix, Suffix)
      requires Sound() && Fits(n)
    {
      Slot(stratumInfo, n)
    }

    /** A subtree as it is when first read: an empty one if storage has none. */
    function Loaded(px: Prefix): CachedSubtree {
      if px in stored then stored[px]
      else CachedSubtree(if |px| < |stratumInfo| then stratumInfo[|px|].depth else 0, map[], map[])
    }

    /** A subtree as it is now. */
    ghost function Current(px: Prefix): CachedSubtree
      reads this
    {
      if px in subtrees then subtrees[px] else Loaded(px)
    }

    /** The hash of a node: one flat map, initialised from storage. */
    ghost function View(n: NodeID): Option<Hash>
      requires Sound() && Fits(n)
      reads this
    {
      Current(SlotOf(n).0).Get(SlotOf(n).1)
    }

    /** Keys are in order, no subtree in storage has internal nodes without leaves, and no leaf has been dropped. */
    ghost predicate IsTidyCache(subtrees: map<Prefix, CachedSubtree>) {
      && NoDeepStratum(stratumInfo) && pathBytes > 0
      && (forall px :: px in stored ==> IsTidy(stratumInfo, pathBytes, px, stored[px]))
      && (forall px :: px in stored && stored[px].leaves == map[] ==> stored[px].internalNodes == map[])
      && (forall px :: px in subtrees ==> IsTidy(stratumInfo, pathBytes, px, subtrees[px]))
      && (forall px :: px in subtrees && Loaded(px).leaves != map[] ==> subtrees[px].leaves != map[])
    }

    ghost predicate Tidy()
      reads this
    {
      IsTidyCache(subtrees)
    }

    predicate IsDeep(st: CachedSubtree) {
      st.depth == MAX_TREE_DEPTH && st.leaves == map[]
    }

    /** One stratum of 256 levels, whose leaves the cache takes for internal nodes. */
    ghost predicate IsDeepCache(subtrees: map<Prefix, CachedSubtree>) {
      && (forall i :: 0 <= i < |stratumInfo| ==> stratumInfo[i].depth == MAX_TREE_DEPTH)
      && stored == map[]
      && (forall px :: px in subtrees ==> IsDeep(subtrees[px]))
    }

    ghost predicate Deep()
      reads this
    {
      IsDeepCache(subtrees)
    }

    lemma TidyStep(subtrees: map<Prefix, CachedSubtree>, px: Prefix, st: CachedSubtree)
      requires IsTidyCache(subtrees) && IsTidy(stratumInfo, pathBytes, px, st)
      requires Loaded(px).leaves != map[] ==> st.leaves != map[]
      ensures IsTidyCache(subtrees[px := st])
    {
      hide IsTidy, Loaded;
    }

    lemma LoadedIsTidy(n: NodeID, subtrees: map<Prefix, CachedSubtree>)
      requires Sound() && Fits(n) && IsTidyCache(subtrees)
      ensures IsTidy(stratumInfo, pathBytes, SlotOf(n).0, Loaded(SlotOf(n).0))
    {
      hide IsSlotKey, BigInt, Shl, SuffixNumber, Slot;
      SlotIsKey(stratumInfo, n);
    }

    lemma LoadedIsDeep(n: NodeID)
      requires Sound() && Fits(n) && IsDeepCache(map[])
      ensures Loaded(SlotOf(n).0).depth == MAX_TREE_DEPTH && Loaded(SlotOf(n).0).leaves == map[]
    {
      StratumFits(stratumInfo, n);
    }

    /** Reading the subtree of a node keeps the cache tidy, or deep. */
    lemma LoadKeeps(n: NodeID, subtrees: map<Prefix, CachedSubtree>)
      requires Sound() && Fits(n)
      ensures
        var px := SlotOf(n).0;
        && (IsTidyCache(subtrees) ==>
              IsTidy(stratumInfo, pathBytes, px, Loaded(px)) && IsTidyCache(subtrees[px := Loaded(px)]))
        && (IsDeepCache(subtrees) ==> IsDeep(Loaded(px)) && IsDeepCache(subtrees[px := Loaded(px)]))
    {
      hide IsTidyCache, IsTidy, SlotOf, Loaded, Sound, Fits;
      var px := SlotOf(n).0;
      if IsTidyCache(subtrees) {
        LoadedIsTidy(n, subtrees);
        TidyStep(subtrees, px, Loaded(px));
      }
      if IsDeepCache(subtrees) { LoadedIsDeep(n); }
    }

    lemma SetIsTidy(n: NodeID, st: CachedSubtree, h: Hash)
      requires Sound() && Fits(n) && NoDeepStratum(stratumInfo) && pathBytes > 0
      requires IsTidy(stratumInfo, pathBytes, SlotOf(n).0, st)
      ensures IsTidy(stratumInfo, pathBytes, SlotOf(n).0, st.Set(SlotOf(n).1, h))
      ensures st.leaves != map[] ==> st.Set(SlotOf(n).1, h).leaves != map[]
    {
      hide IsSlotKey, BigInt, Shl, SuffixNumber, Slot;
      SlotIsKey(stratumInfo, n);
      var k := SlotOf(n).1;
      if k.bits == st.depth { assert k in st.Set(k, h).leaves; }
    }

    /** So does setting the hash of a node. */
    lemma SetKeeps(n: NodeID, subtrees: map<Prefix, CachedSubtree>, h: Hash)
      requires Sound() && Fits(n) && SlotOf(n).0 in subtrees
      ensures
        var slot := SlotOf(n);
        var after := subtrees[slot.0 := subtrees[slot.0].Set(slot.1, h)];
        (IsTidyCache(subtrees) ==> IsTidyCache(after)) && (IsDeepCache(subtrees) ==> IsDeepCache(after))
    {
      hide IsTidy, SlotOf, Loaded, Sound, Fits;
      var slot := SlotOf(n);
      if IsTidyCache(subtrees) {
        SetIsTidy(n, subtrees[slot.0], h);
        TidyStep(subtrees, slot.0, subtrees[slot.0].Set(slot.1, h));
      }
    }

    lemma SameSlotIff(n1: NodeID, n2: NodeID)
      requires Sound() && Fits(n1) && Fits(n2)
      ensures SlotOf(n1) == SlotOf(n2) <==> n1.Bits() == n2.Bits()
    {
      hide Slot, Layered, NodeID.Bits;
      SlotsAreNodes(stratumInfo, n1, n2);
    }

    constructor (strataDepths: seq<nat>, pathBytes: nat, stored: map<Prefix, CachedSubtree>)
      requires ValidStrata(strataDepths, MAX_TREE_DEPTH)
      ensures Valid() && this.pathBytes == pathBytes && this.stored == stored && subtrees == map[]
              && dirtyPrefixes == {}
      ensures |stratumInfo| == MAX_TREE_DEPTH / 8
      ensures forall d: nat, i: nat :: d < |strataDepths| && Within(strataDepths, d, i) ==>
                i < |stratumInfo| && stratumInfo[i] == Stratum(Sum(strataDepths[..d]) / 8, strataDepths[d])
      ensures stored == map[] && pathBytes > 0 ==> if strataDepths == [MAX_TREE_DEPTH] then Deep() else Tidy()
    {
      hide Sum, Within;
      var sInfo := StrataOf(strataDepths);
      DeepStratumIff(sInfo, strataDepths);
      stratumInfo, this.pathBytes, this.stored := sInfo, pathBytes, stored;
      subtrees, dirtyPrefixes := map[], {};
    }

    /** A new cache with the same strata, over other storage. */
    constructor Again(c: Cache, stored: map<Prefix, CachedSubtree>)
      requires c.Sound()
      ensures Valid() && stratumInfo == c.stratumInfo && pathBytes == c.pathBytes && this.stored == stored
      ensures subtrees == map[] && dirtyPrefixes == {}
    {
      stratumInfo, pathBytes, this.stored := c.stratumInfo, c.pathBytes, stored;
      subtrees, dirtyPrefixes := map[], {};
    }

    method GetNodeHash(id: NodeID) returns (h: Option<Hash>)
      requires Valid() && Fits(id)
      modifies this`subtrees
      ensures Valid() && h == old(View(id)) && (old(Tidy()) ==> Tidy()) && (old(Deep()) ==> Deep())
      ensures forall n | Fits(n) :: View(n) == old(View(n))
      ensures SlotOf(id).0 in subtrees
    {
      hide SlotOf, Sound, Fits, CachedSubtree.Get, IsTidyCache, IsDeepCache;
      var slot := SlotOf(id);
      LoadKeeps(id, subtrees);
      if slot.0 !in subtrees { subtrees := subtrees[slot.0 := Loaded(slot.0)]; }
      h := subtrees[slot.0].Get(slot.1);
    }

    method SetNodeHash(id: NodeID, h: Hash)
      requires Valid() && Fits(id)
      modifies this
      ensures Valid() && dirtyPrefixes == old(dirtyPrefixes) + {SlotOf(id).0}
      ensures (old(Tidy()) ==> Tidy()) && (old(Deep()) ==> Deep())
      ensures forall n | Fits(n) :: View(n) == if n.Bits() == id.Bits() then Some(h) else old(View(n))
    {
      hide SlotOf, CachedSubtree.Get, CachedSubtree.Set, NodeID.Bits, Layered, IsTidyCache, IsDeepCache;
      var slot := SlotOf(id);
      if slot.0 !in subtrees { var _ := GetNodeHash(id); }
      SetKeeps(id, subtrees, h);
      dirtyPrefixes := dirtyPrefixes + {slot.0};
      subtrees := subtrees[slot.0 := subtrees[slot.0].Set(slot.1, h)];
      forall n | Fits(n) ensures View(n) == if n.Bits() == id.Bits() then Some(h) else old(View(n)) {
        SameSlotIff(n, id);
      }
    }

    /** Reads the subtrees that `ids` need and the cache does not have; never replaces one that it has. */
    method Preload(ids: seq<NodeID>) returns (ok: bool)
      requires Valid() && forall k :: 0 <= k < |ids| ==> Fits(ids[k])
      modifies this`subtrees
      ensures Valid() && ok && (old(Tidy()) ==> Tidy()) && (old(Deep()) ==> Deep())
      ensures forall n | Fits(n) :: View(n) == old(View(n))
      ensures forall px :: px in old(subtrees) ==> px in subtrees && subtrees[px] == old(subtrees[px])
      ensures forall k :: 0 <= k < |ids| ==> SlotOf(ids[k]).0 in subtrees
    {
      hide SlotOf, Sound, Fits, CachedSubtree.Get, IsTidy;
      var want: set<Prefix> := {};
      for k := 0 to |ids|
        invariant forall px :: px in want ==> px !in subtrees
        invariant forall j :: 0 <= j < k ==> SlotOf(ids[j]).0 in want || SlotOf(ids[j]).0 in subtrees
        invariant Tidy() ==> forall px :: px in want ==> IsTidy(stratumInfo, pathBytes, px, Loaded(px))
        invariant Deep() ==> forall px :: px in want ==> IsDeep(Loaded(px))
        invariant subtrees == old(subtrees)
      {
        var slot := SlotOf(ids[k]);
        LoadKeeps(ids[k], subtrees);
        if slot.0 !in subtrees { want := want + {slot.0}; }
      }
      ok := Load(want);
    }

    /** Reads the wanted subtrees in one request, and starts an empty one for each that storage does not have. */
    method Load(wanted: set<Prefix>) returns (ok: bool)
      requires forall px :: px in wanted ==> px !in subtrees
      modifies this`subtrees
      ensures ok && GrownBy(old(subtrees), subtrees, wanted)
    {
      var want := wanted;
      var found := set px | px in want && px in stored;
      while found != {}
        invariant found <= want <= wanted
        invariant GrownBy(old(subtrees), subtrees, wanted - want)
        invariant forall px :: px in want && px in stored ==> px in found
      {
        var px :| px in found;
        subtrees := subtrees[px := stored[px]];
        found, want := found - {px}, want - {px};
      }
      while want != {}
        invariant want <= wanted
        invariant GrownBy(old(subtrees), subtrees, wanted - want)
        invariant forall px :: px in want ==> px !in stored
      {
        var px :| px in want;
        if px in subtrees { return false; }
        subtrees := subtrees[px := Loaded(px)];
        want := want - {px};
      }
      assert wanted - want == wanted;
      return true;
    }

    /** `now` has the subtrees of `before`, and those of `more` as they are first read. */
    ghost predicate GrownBy(before: map<Prefix, CachedSubtree>, now: map<Prefix, CachedSubtree>, more: set<Prefix>) {
      && (forall px :: px in now <==> px in before || px in more)
      && (forall px :: px in before ==> px !in more && now[px] == before[px])
      && (forall px :: px in more && px in now ==> now[px] == Loaded(px))
    }

    method GetNodes(ids: seq<NodeID>) returns (ret: seq<FoundNode>, ghost at: seq<nat>)
      requires Valid() && forall k :: 0 <= k < |ids| ==> Fits(ids[k])
      modifies this`subtrees
      ensures Valid() && (old(Tidy()) ==> Tidy()) && (old(Deep()) ==> Deep())
      ensures forall n | Fits(n) :: View(n) == old(View(n))
      ensures |ret| == |at| && forall j :: 0 <= j < |at| ==> at[j] < |ids|
      ensures forall i, j :: 0 <= i < j < |at| ==> at[i] < at[j]
      ensures forall j :: 0 <= j < |at| ==>
                View(ids[at[j]]).Some? && ret[j] == FoundNode(ids[at[j]], View(ids[at[j]]).value)
      ensures forall k :: 0 <= k < |ids| ==> (View(ids[k]).Some? <==> k in at)
      ensures |ret| == |ids| <==> forall k :: 0 <= k < |ids| ==> View(ids[k]).Some?
      ensures |ret| == |ids| ==>
                forall k :: 0 <= k < |ids| ==> ret[k] == FoundNode(ids[k], View(ids[k]).value)
    {
      hide SlotOf, Sound, Fits, CachedSubtree.Get, View, Tidy, Deep, Lists;
      ghost var hashes := seq(|ids|, k requires 0 <= k < |ids| => old(View(ids[k])));
      var ok := Preload(ids);
      ret, at := [], [];
      ListStart(hashes, ids);
      for k := 0 to |ids|
        invariant Valid() && (old(Tidy()) ==> Tidy()) && (old(Deep()) ==> Deep())
        invariant forall n | Fits(n) :: View(n) == old(View(n))
        invariant Lists(hashes, ids, k, ret, at)
      {
        var h := GetNodeHash(ids[k]);
        ListStep(hashes, ids, k, ret, at);
        if h.Some? { ret, at := ret + [FoundNode(ids[k], h.value)], at + [k]; }
      }
      Listed(hashes, ids, ret, at);
    }

    /** `Flush`, up to the preparation of each subtree: the dirty subtrees that have leaves are written. */
    method Flush() returns (written: map<Prefix, CachedSubtree>)
      requires Valid()
      ensures forall px :: px in written <==> px in dirtyPrefixes && subtrees[px].leaves != map[]
      ensures forall px :: px in written ==> written[px] == subtrees[px]
    {
      written := map[];
      var left := dirtyPrefixes;
      while left != {}
        invariant left <= dirtyPrefixes
        invariant forall px :: px in written <==> px in dirtyPrefixes && px !in left && subtrees[px].leaves != map[]
        invariant forall px :: px in written ==> written[px] == subtrees[px]
      {
        var px :| px in left;
        if subtrees[px].leaves != map[] { written := written[px := subtrees[px]]; }
        left := left - {px};
      }
    }
  }

  /** Reading back what was written gives the same view, if each written subtree is read back as it was and none that
      is left out has internal nodes. */
  lemma SameView(c: Cache, f: Cache, reread: map<Prefix, CachedSubtree>, n: NodeID)
    requires c.Valid() && c.Tidy() && c.Fits(n)
    requires f.stratumInfo == c.stratumInfo && f.pathBytes == c.pathBytes && f.subtrees == map[]
             && f.stored == c.stored + reread
    requires forall px :: px in reread <==> px in c.dirtyPrefixes && c.subtrees[px].leaves != map[]
    requires forall px :: px in reread ==> reread[px] == c.subtrees[px]
    requires forall px :: px in c.dirtyPrefixes && c.subtrees[px].leaves == map[] ==>
             c.subtrees[px].internalNodes == map[]
    ensures f.Sound() && f.Fits(n) && f.View(n) == c.View(n)
  {
    hide Slot, Layered, NoDeepStratum;
    var px := c.SlotOf(n).0;
    if px in c.dirtyPrefixes && px !in reread {
      assert IsTidy(c.stratumInfo, c.pathBytes, px, c.subtrees[px]);
      assert c.Loaded(px).leaves == map[];
    }
  }
}
