/** Which stored nodes make up a proof (merkle/merkle_path.go). Storage is at `treeSize`; the proof is for
    an earlier `snapshot`, whose right edge may have to be rehashed from complete nodes. */
module MerklePath {
  import opened Bits
  import opened Hashing
  import opened LogTree

  /** A node to fetch; a run of fetches marked `rehash` folds into one hash. */
  datatype NodeFetch = NodeFetch(id: Coord, rehash: bool)

  datatype AddressError =
    | BadSnapshot | BadIndex | BadBitLen | SnapshotsReversed
    | CoordOutOfRange | SnapshotBeyondTree | BadRecomputation

  /** `x ^ 1`. */
  function Sibling(x: nat): nat {
    if x % 2 == 0 then x + 1 else x - 1
  }

  /** The coordinates that a path of `maxPathBits` bits can hold. */
  predicate Representable(c: Coord, maxPathBits: int) {
    BitLen(c.index) <= maxPathBits - c.level && maxPathBits % 8 == 0
  }

  predicate AllRepresentable(fs: seq<NodeFetch>, maxPathBits: int) {
    forall f :: f in fs ==> Representable(f.id, maxPathBits)
  }

  function NodeIdForTreeCoords(level: nat, index: nat, maxPathBits: int): Result<Coord, AddressError> {
    if Representable(Coord(level, index), maxPathBits) then Ok(Coord(level, index)) else Err(CoordOutOfRange)
  }

  // ---------- what is fetched ----------

  /** The last node of level `level` in a tree of `ts` leaves has two children or is a leaf. */
  predicate LastNodePresent(level: nat, ts: nat)
    requires ts > 0
  {
    level == 0 || Shr(ts - 1, level - 1) % 2 == 1
  }

  function SkipTo(snapshot: nat, lastNode: nat, level: nat, sibling: nat): Coord
    requires snapshot > 0
    decreases level
  {
    if level > 0 && sibling == lastNode && !LastNodePresent(level, snapshot)
    then SkipTo(snapshot, Shr(snapshot - 1, level - 1), level - 1, 2 * sibling)
    else Coord(level, sibling)
  }

  /** The fetches that give the last node of level `l` as it was when leaf `i` was the last one. */
  function LastFetches(i: nat, l: nat): seq<NodeFetch> {
    if l <= TrailingOnes(i) then [NodeFetch(Coord(l, Shr(i, l)), false)]
    else if Shr(i, l - 1) % 2 == 0 then LastFetches(i, l - 1)
    else Rehashed(LastFetches(i, l - 1)) + [NodeFetch(Coord(l - 1, Shr(i, l - 1) - 1), true)]
  }

  function Rehashed(fs: seq<NodeFetch>): (r: seq<NodeFetch>)
    ensures |r| == |fs|
    ensures forall j :: 0 <= j < |fs| ==> r[j] == NodeFetch(fs[j].id, true)
  {
    seq(|fs|, j requires 0 <= j < |fs| => NodeFetch(fs[j].id, true))
  }

  /** The fetches for the sibling of `i`'s ancestor at level `l`. */
  function LevelFetches(i: nat, snapshot: nat, treeSize: nat, l: nat): seq<NodeFetch>
    requires snapshot > 0
  {
    var sibling, lastNode := Sibling(Shr(i, l)), Shr(snapshot - 1, l);
    if sibling < lastNode then [NodeFetch(Coord(l, sibling), false)]
    else if sibling == lastNode then
      if snapshot == treeSize then [NodeFetch(SkipTo(snapshot, lastNode, l, sibling), false)]
      else LastFetches(snapshot - 1, l)
    else []
  }

  function PathFetches(i: nat, snapshot: nat, treeSize: nat, a: nat, b: nat): seq<NodeFetch>
    requires snapshot > 0
  {
    if b <= a then [] else PathFetches(i, snapshot, treeSize, a, b - 1) + LevelFetches(i, snapshot, treeSize, b - 1)
  }

  function HeadFetches(i: nat): seq<NodeFetch> {
    var a := TrailingOnes(i);
    if Shr(i, a) == 0 then [] else [NodeFetch(Coord(a, Shr(i, a)), false)]
  }

  function Checked(fs: seq<NodeFetch>, maxBitLen: int): Result<seq<NodeFetch>, AddressError> {
    if AllRepresentable(fs, maxBitLen) then Ok(fs) else Err(CoordOutOfRange)
  }

  lemma AllRepresentableConcat(a: seq<NodeFetch>, b: seq<NodeFetch>, maxBitLen: int)
    ensures AllRepresentable(a + b, maxBitLen) <==> AllRepresentable(a, maxBitLen) && AllRepresentable(b, maxBitLen)
  {
    assert forall f :: f in a + b <==> f in a || f in b;
  }

  // ---------- the computation ----------

  method SkipMissingLevels(snapshot: nat, lastNode0: nat, level0: nat, node: nat) returns (level: nat, sibling: nat)
    requires snapshot > 0
    ensures Coord(level, sibling) == SkipTo(snapshot, lastNode0, level0, Sibling(node))
  {
    level, sibling := level0, Sibling(node);
    var lastNode := lastNode0;
    while level > 0 && sibling == lastNode && !LastNodePresent(level, snapshot)
      invariant SkipTo(snapshot, lastNode, level, sibling) == SkipTo(snapshot, lastNode0, level0, Sibling(node))
      decreases level
    {
      level := level - 1;
      sibling := sibling * 2;
      lastNode := Shr(snapshot - 1, level);
    }
  }

  method SiblingIdSkipLevels(snapshot: nat, lastNode: nat, level: nat, node: nat, maxBitLen: int)
      returns (r: Result<Coord, AddressError>)
    requires snapshot > 0
    ensures var c := SkipTo(snapshot, lastNode, level, Sibling(node));
            r == if Representable(c, maxBitLen) then Ok(c) else Err(CoordOutOfRange)
  {
    var l, sibling := SkipMissingLevels(snapshot, lastNode, level, node);
    return NodeIdForTreeCoords(l, sibling, maxBitLen);
  }

  /** A node that is complete in the snapshot, or not the last of its level, is never skipped. */
  lemma NothingToSkip(i: nat, lastNode: nat, l: nat, sibling: nat)
    requires l <= TrailingOnes(i) || sibling != lastNode
    ensures SkipTo(i + 1, lastNode, l, sibling) == Coord(l, sibling)
  {
    if 0 < l <= TrailingOnes(i) { CompleteEdge(i, l - 1); }
  }

  lemma {:induction false} LastFetchesShape(i: nat, l: nat)
    ensures |LastFetches(i, l)| > 0
    ensures |LastFetches(i, l)| == 1 ==> !LastFetches(i, l)[0].rehash
    ensures |LastFetches(i, l)| > 1 ==> forall j :: 0 <= j < |LastFetches(i, l)| ==> LastFetches(i, l)[j].rehash
  {
    if l > TrailingOnes(i) { LastFetchesShape(i, l - 1); }
  }

  method CheckRecomputation(fetches: seq<NodeFetch>) returns (ok: bool)
    ensures ok <==> && |fetches| > 0
                    && (|fetches| == 1 ==> !fetches[0].rehash)
                    && forall j :: 0 <= j < |fetches| ==> fetches[j].rehash == fetches[0].rehash
  {
    if |fetches| == 0 { return false; }
    if |fetches| == 1 { return !fetches[0].rehash; }
    for i := 0 to |fetches|
      invariant forall j :: 0 <= j < i ==> fetches[j].rehash == fetches[0].rehash
    {
      if i > 0 && fetches[i].rehash != fetches[0].rehash { return false; }
    }
    return true;
  }

  /** The level whose last node is recomputed: the root's, when asked for a level above it. */
  function TargetLevel(i: nat, nodeLevel: nat): nat {
    if nodeLevel <= BitLen(i) then nodeLevel else BitLen(i)
  }

  /** What the recomputation returns at every level, including those no proof asks for. */
  function Recomputed(i: nat, nodeLevel: nat): seq<NodeFetch> {
    var a := TrailingOnes(i);
    if nodeLevel == a then [NodeFetch(Coord(a, Shr(i, a)), true)]
    else if nodeLevel > BitLen(i) && a == BitLen(i) then []
    else LastFetches(i, TargetLevel(i, nodeLevel))
  }

  /** Going up keeps the nodes already fetched. */
  lemma {:induction false} RepresentableBelow(i: nat, l: nat, l': nat, maxBitLen: int)
    requires TrailingOnes(i) <= l <= l' && AllRepresentable(LastFetches(i, l'), maxBitLen)
    ensures AllRepresentable(LastFetches(i, l), maxBitLen)
  {
    if l < l' {
      var below, here := LastFetches(i, l' - 1), LastFetches(i, l');
      forall f | f in below ensures Representable(f.id, maxBitLen) {
        var j :| 0 <= j < |below| && below[j] == f;
        assert here[j] in here && here[j].id == f.id;
      }
      RepresentableBelow(i, l, l' - 1, maxBitLen);
    }
  }

  /** One more level of the recomputation, with the fetches already marked. */
  lemma LastFetchesStep(i: nat, l: nat)
    requires TrailingOnes(i) <= l
    ensures Shr(i, l) % 2 == 0 ==> LastFetches(i, l + 1) == LastFetches(i, l)
    ensures Shr(i, l) % 2 == 1 && |LastFetches(i, l)| > 1 ==>
              LastFetches(i, l + 1) == LastFetches(i, l) + [NodeFetch(Coord(l, Shr(i, l) - 1), true)]
    ensures Shr(i, l) % 2 == 1 && |LastFetches(i, l)| == 1 ==>
              LastFetches(i, l + 1)
              == [NodeFetch(LastFetches(i, l)[0].id, true), NodeFetch(Coord(l, Shr(i, l) - 1), true)]
  {
    LastFetchesShape(i, l);
    if Shr(i, l) % 2 == 1 && |LastFetches(i, l)| > 1 {
      assert Rehashed(LastFetches(i, l)) == LastFetches(i, l);
    }
  }

  /** A node that cannot be addressed spoils the result that needs it. */
  lemma CopyOutOfRange(i: nat, l: nat, maxBitLen: int)
    requires l <= TrailingOnes(i) && !Representable(Coord(l, Shr(i, l)), maxBitLen)
    ensures !AllRepresentable(Recomputed(i, l), maxBitLen)
  {
    TrailingOnesBelowBitLen(i);
    assert Recomputed(i, l)[0] in Recomputed(i, l);
  }

  lemma SavedOutOfRange(i: nat, nodeLevel: nat, maxBitLen: int)
    requires TrailingOnes(i) <= nodeLevel && !Representable(Coord(TrailingOnes(i), Shr(i, TrailingOnes(i))), maxBitLen)
    ensures Recomputed(i, nodeLevel) == [] || !AllRepresentable(Recomputed(i, nodeLevel), maxBitLen)
  {
    var a, top := TrailingOnes(i), TargetLevel(i, nodeLevel);
    TrailingOnesBelowBitLen(i);
    if nodeLevel == a {
      CopyOutOfRange(i, a, maxBitLen);
    } else if Recomputed(i, nodeLevel) != [] && AllRepresentable(LastFetches(i, top), maxBitLen) {
      RepresentableBelow(i, a, top, maxBitLen);
      assert LastFetches(i, a)[0] in LastFetches(i, a);
    }
  }

  lemma StepOutOfRange(i: nat, l: nat, nodeLevel: nat, maxBitLen: int)
    requires TrailingOnes(i) <= l < nodeLevel && l < BitLen(i) && Shr(i, l) % 2 == 1
    requires !Representable(Coord(l, Shr(i, l) - 1), maxBitLen)
    ensures !AllRepresentable(Recomputed(i, nodeLevel), maxBitLen)
  {
    var top, fs := TargetLevel(i, nodeLevel), LastFetches(i, l + 1);
    LastFetchesShape(i, l);
    LastFetchesStep(i, l);
    assert fs[|fs| - 1] in fs && fs[|fs| - 1].id == Coord(l, Shr(i, l) - 1);
    if AllRepresentable(LastFetches(i, top), maxBitLen) { RepresentableBelow(i, l + 1, top, maxBitLen); }
  }

  method RecomputePastSnapshot(snapshot: nat, treeSize: nat, nodeLevel: nat, maxBitLen: int)
      returns (r: Result<seq<NodeFetch>, AddressError>)
    requires snapshot > 0
    ensures snapshot == treeSize ==> r == Ok([])
    ensures snapshot > treeSize ==> r == Err(SnapshotBeyondTree)
    ensures snapshot < treeSize && Recomputed(snapshot - 1, nodeLevel) != [] ==>
              r == Checked(Recomputed(snapshot - 1, nodeLevel), maxBitLen)
    ensures snapshot < treeSize && Recomputed(snapshot - 1, nodeLevel) == [] ==>
              var i := snapshot - 1;
              r ==
                if Representable(Coord(TrailingOnes(i), Shr(i, TrailingOnes(i))), maxBitLen) then Ok([])
                else Err(CoordOutOfRange)
  {
    hide Shr, Shl, LastFetches, Pow2, LastNodePresent, Representable, SkipTo, TrailingOnes, BitLen;
    if snapshot == treeSize { return Ok([]); }
    if snapshot > treeSize { return Err(SnapshotBeyondTree); }
    ghost var i, a := snapshot - 1, TrailingOnes(snapshot - 1);
    var level := 0;
    var lastNode := snapshot - 1;
    var lastNodeAtLevel := treeSize - 1;
    ShrStep(i, 0);
    ShrStep(treeSize - 1, 0);
    TrailingOnesBelowBitLen(i);
    TrailingOnesStep(i, 0);
    while lastNode % 2 == 1
      invariant 0 <= level <= a && nodeLevel >= level && (lastNode % 2 == 1 <==> level < a)
      invariant lastNode == Shr(i, level) && lastNodeAtLevel == Shr(treeSize - 1, level)
      decreases a - level
    {
      if nodeLevel == level {
        NothingToSkip(i, lastNodeAtLevel, level, lastNode);
        var id := SiblingIdSkipLevels(snapshot, lastNodeAtLevel, level, Sibling(lastNode), maxBitLen);
        LastFetchesCopy(i, level);
        if id.Err? {
          CopyOutOfRange(i, level, maxBitLen);
          return Err(id.error);
        }
        return Ok([NodeFetch(id.value, false)]);
      }
      ShrStep(i, level);
      ShrStep(treeSize - 1, level);
      lastNode := lastNode / 2;
      lastNodeAtLevel := lastNodeAtLevel / 2;
      level := level + 1;
      TrailingOnesStep(i, level);
    }
    NothingToSkip(i, lastNodeAtLevel, level, lastNode);
    var saved := SiblingIdSkipLevels(snapshot, lastNodeAtLevel, level, Sibling(lastNode), maxBitLen);
    if saved.Err? {
      SavedOutOfRange(i, nodeLevel, maxBitLen);
      return Err(saved.error);
    }
    if nodeLevel == level { return Ok([NodeFetch(saved.value, true)]); }
    r := RehashTowardsRoot(snapshot, treeSize, nodeLevel, maxBitLen, level, lastNode, lastNodeAtLevel, saved.value);
  }

  lemma LastFetchesCopy(i: nat, l: nat)
    requires l <= TrailingOnes(i)
    ensures LastFetches(i, l) == [NodeFetch(Coord(l, Shr(i, l)), false)]
  {
  }

  /** The recomputation ends at the level asked for, or at the root of the past tree. */
  lemma RecomputedAt(i: nat, nodeLevel: nat, level: nat)
    requires TrailingOnes(i) < nodeLevel
    ensures level == nodeLevel <= BitLen(i) ==> Recomputed(i, nodeLevel) == LastFetches(i, level)
    ensures level == BitLen(i) < nodeLevel ==>
            Recomputed(i, nodeLevel) == if TrailingOnes(i) < BitLen(i) then LastFetches(i, level) else []
  {
    hide LastFetches, BitLen, TrailingOnes;
    TrailingOnesBelowBitLen(i);
  }

  /** The second loop of the recomputation: from the last complete node `saved` up to the level asked for. */
  method RehashTowardsRoot(snapshot: nat, treeSize: nat, nodeLevel: nat, maxBitLen: int,
                           level0: nat, lastNode0: nat, lastNodeAtLevel0: nat, saved: Coord)
      returns (r: Result<seq<NodeFetch>, AddressError>)
    requires 0 < snapshot < treeSize && level0 == TrailingOnes(snapshot - 1) < nodeLevel
    requires lastNode0 == Shr(snapshot - 1, level0) && lastNodeAtLevel0 == Shr(treeSize - 1, level0)
    requires saved == Coord(level0, lastNode0) && Representable(saved, maxBitLen)
    ensures r == Checked(Recomputed(snapshot - 1, nodeLevel), maxBitLen)
  {
    hide Shr, Shl, LastFetches, BitLen, Representable, Recomputed, TrailingOnes, SkipTo;
    ghost var i, a := snapshot - 1, level0;
    var level, lastNode, lastNodeAtLevel := level0, lastNode0, lastNodeAtLevel0;
    var fetches: seq<NodeFetch> := [];
    var rehash := false;
    LastFetchesCopy(i, a);
    TrailingOnesBelowBitLen(i);
    BitLenLeast(i, level);
    while lastNode != 0
      invariant a <= level <= BitLen(i) && level < nodeLevel && (lastNode != 0 <==> level < BitLen(i))
      invariant lastNode == Shr(i, level) && lastNodeAtLevel == Shr(treeSize - 1, level)
      invariant !rehash ==> fetches == [] && LastFetches(i, level) == [NodeFetch(saved, false)]
      invariant rehash ==> fetches == LastFetches(i, level) && |fetches| > 1
      invariant level == BitLen(i) && a < BitLen(i) ==> rehash
      invariant AllRepresentable(fetches, maxBitLen)
      decreases BitLen(i) - level
    {
      LastFetchesStep(i, level);
      ShrStep(i, level);
      ShrStep(treeSize - 1, level);
      if lastNode % 2 == 1 {
        ShrMonotone(i, treeSize - 1, level);
        NothingToSkip(i, lastNodeAtLevel, level, lastNode - 1);
        var id := SiblingIdSkipLevels(snapshot, lastNodeAtLevel, level, Sibling(lastNode - 1), maxBitLen);
        if id.Err? {
          StepOutOfRange(i, level, nodeLevel, maxBitLen);
          return Err(id.error);
        }
        if !rehash { fetches := fetches + [NodeFetch(saved, true)]; }
        fetches := fetches + [NodeFetch(id.value, true)];
        rehash := true;
      }
      lastNode := lastNode / 2;
      lastNodeAtLevel := lastNodeAtLevel / 2;
      level := level + 1;
      BitLenLeast(i, level);
      RecomputedAt(i, nodeLevel, level);
      if nodeLevel == level && !rehash {
        assert fetches + [NodeFetch(saved, rehash)] == LastFetches(i, level);
        return Ok(fetches + [NodeFetch(saved, rehash)]);
      }
      if level == nodeLevel {
        assert rehash && fetches == LastFetches(i, level) == Recomputed(i, nodeLevel);
        assert AllRepresentable(fetches, maxBitLen);
        return Ok(fetches);
      }
    }
    RecomputedAt(i, nodeLevel, level);
    return Ok(fetches);
  }

  /** A sibling that is the last node of its level is a right child, so the recomputation is never asked for
      the one level at which it marks a lone node for rehashing. */
  lemma LastSiblingIsRight(i: nat, snapshot: nat, l: nat)
    requires i < snapshot && Sibling(Shr(i, l)) == Shr(snapshot - 1, l)
    ensures Shr(snapshot - 1, l) % 2 == 1 && Shr(i, l) + 1 == Shr(snapshot - 1, l)
    ensures l < BitLen(snapshot - 1)
    ensures Recomputed(snapshot - 1, l) == LastFetches(snapshot - 1, l)
  {
    ShrMonotone(i, snapshot - 1, l);
    BitLenLeast(snapshot - 1, l);
    if l == TrailingOnes(snapshot - 1) { CompleteEdge(snapshot - 1, l); }
  }

  method PathFromNodeToRootAtSnapshot(node0: nat, level0: nat, snapshot: nat, treeSize: nat, maxBitLen: int,
                                      ghost i: nat)
      returns (r: Result<seq<NodeFetch>, AddressError>)
    requires node0 == Shr(i, level0) && (snapshot > 0 ==> i < snapshot <= treeSize)
    ensures snapshot == 0 ==> r == Ok([])
    ensures snapshot > 0 ==> r == Checked(PathFetches(i, snapshot, treeSize, level0, Height(snapshot)), maxBitLen)
  {
    hide Shr, LastFetches, SkipTo, Recomputed, Representable;
    var proof: seq<NodeFetch> := [];
    if snapshot == 0 { return Ok(proof); }
    var node, level := node0, level0;
    var lastNode := Shr(snapshot - 1, level);
    ghost var top := Height(snapshot);
    BelowHeight(snapshot, level);
    while lastNode != 0
      invariant level0 <= level && (level < top <==> lastNode != 0)
      invariant level0 <= top ==> level <= top
      invariant top < level0 ==> level == level0
      invariant node == Shr(i, level) && lastNode == Shr(snapshot - 1, level)
      invariant proof == PathFetches(i, snapshot, treeSize, level0, level) && AllRepresentable(proof, maxBitLen)
      decreases top - level
    {
      ghost var here := LevelFetches(i, snapshot, treeSize, level);
      if !AllRepresentable(here, maxBitLen) { LevelSpoilsPath(i, snapshot, treeSize, level0, level, top, maxBitLen); }
      AllRepresentableConcat(proof, here, maxBitLen);
      var sibling := Sibling(node);
      if sibling < lastNode {
        var n := NodeIdForTreeCoords(level, sibling, maxBitLen);
        if n.Err? {
          assert here[0] in here;
          return Err(n.error);
        }
        proof := proof + [NodeFetch(n.value, false)];
      } else if sibling == lastNode {
        if snapshot == treeSize {
          var n := SiblingIdSkipLevels(snapshot, lastNode, level, node, maxBitLen);
          if n.Err? {
            assert here[0] in here;
            return Err(n.error);
          }
          proof := proof + [NodeFetch(n.value, false)];
        } else {
          LastSiblingIsRight(i, snapshot, level);
          LastFetchesShape(snapshot - 1, level);
          var fetches := RecomputePastSnapshot(snapshot, treeSize, level, maxBitLen);
          if fetches.Err? { return Err(fetches.error); }
          var ok := CheckRecomputation(fetches.value);
          if !ok { return Err(BadRecomputation); }
          proof := proof + fetches.value;
        }
      }
      ShrStep(i, level);
      ShrStep(snapshot - 1, level);
      node := node / 2;
      lastNode := lastNode / 2;
      level := level + 1;
      BelowHeight(snapshot, level);
    }
    return Ok(proof);
  }

  /** A node that cannot be addressed spoils every longer path. */
  lemma {:induction false} LevelSpoilsPath(i: nat, snapshot: nat, treeSize: nat, a: nat, l: nat, b: nat, maxBitLen: int)
    requires snapshot > 0 && a <= l < b && !AllRepresentable(LevelFetches(i, snapshot, treeSize, l), maxBitLen)
    ensures !AllRepresentable(PathFetches(i, snapshot, treeSize, a, b), maxBitLen)
  {
    AllRepresentableConcat(PathFetches(i, snapshot, treeSize, a, b - 1), LevelFetches(i, snapshot, treeSize, b - 1),
        maxBitLen);
    if l < b - 1 { LevelSpoilsPath(i, snapshot, treeSize, a, l, b - 1, maxBitLen); }
  }

  method SnapshotConsistency(snapshot1: nat, snapshot2: nat, treeSize: nat, maxBitLen: int)
      returns (r: Result<seq<NodeFetch>, AddressError>)
    requires 0 < snapshot1 <= snapshot2 <= treeSize
    ensures snapshot1 == snapshot2 ==> r == Ok([])
    ensures snapshot1 < snapshot2 ==>
              r == Checked(HeadFetches(snapshot1 - 1)
                           + PathFetches(snapshot1 - 1, snapshot2, treeSize, TrailingOnes(snapshot1 - 1),
                               Height(snapshot2)),
                           maxBitLen)
  {
    hide Shr, PathFetches, Representable;
    if snapshot1 == snapshot2 { return Ok([]); }
    ghost var i, a := snapshot1 - 1, TrailingOnes(snapshot1 - 1);
    var level, node := 0, snapshot1 - 1;
    ShrStep(i, 0);
    while node % 2 == 1
      invariant 0 <= level <= a && node == Shr(i, level) && TrailingOnes(node) == a - level
      decreases a - level
    {
      ShrStep(i, level);
      node := node / 2;
      level := level + 1;
      CompleteEdge(i, level);
    }
    ghost var rest := PathFetches(i, snapshot2, treeSize, a, Height(snapshot2));
    AllRepresentableConcat(HeadFetches(i), rest, maxBitLen);
    var proof: seq<NodeFetch> := [];
    if node != 0 {
      var n := NodeIdForTreeCoords(level, node, maxBitLen);
      if n.Err? {
        assert HeadFetches(i)[0] in HeadFetches(i);
        return Err(n.error);
      }
      proof := proof + [NodeFetch(n.value, false)];
    }
    assert proof == HeadFetches(i);
    var p := PathFromNodeToRootAtSnapshot(node, level, snapshot2, treeSize, maxBitLen, i);
    if p.Err? { return Err(p.error); }
    return Ok(proof + p.value);
  }

  method CalcInclusionProofNodeAddresses(snapshot: int, index: int, treeSize: int, maxBitLen: int)
      returns (r: Result<seq<NodeFetch>, AddressError>)
    ensures r == if snapshot < 1 || snapshot > treeSize then Err(BadSnapshot)
                 else if index >= snapshot || index < 0 then Err(BadIndex)
                 else if maxBitLen <= 0 then Err(BadBitLen)
                 else Checked(PathFetches(index, snapshot, treeSize, 0, Height(snapshot)), maxBitLen)
  {
    if snapshot < 1 || snapshot > treeSize { return Err(BadSnapshot); }
    if index >= snapshot { return Err(BadIndex); }
    if index < 0 { return Err(BadIndex); }
    if maxBitLen <= 0 { return Err(BadBitLen); }
    r := PathFromNodeToRootAtSnapshot(index, 0, snapshot, treeSize, maxBitLen, index);
  }

  /** The fetches for a consistency proof. */
  function ConsistencyFetches(snapshot1: nat, snapshot2: nat, treeSize: nat): seq<NodeFetch>
    requires 0 < snapshot1 <= snapshot2
  {
    if snapshot1 == snapshot2 then []
    else HeadFetches(snapshot1 - 1)
         + PathFetches(snapshot1 - 1, snapshot2, treeSize, TrailingOnes(snapshot1 - 1), Height(snapshot2))
  }

  method CalcConsistencyProofNodeAddresses(snapshot1: int, snapshot2: int, treeSize: int, maxBitLen: int)
      returns (r: Result<seq<NodeFetch>, AddressError>)
    ensures r == if snapshot1 < 1 || snapshot1 > treeSize || snapshot2 < 1 || snapshot2 > treeSize then Err(BadSnapshot)
                 else if snapshot1 > snapshot2 then Err(SnapshotsReversed)
                 else if maxBitLen <= 0 then Err(BadBitLen)
                 else Checked(ConsistencyFetches(snapshot1, snapshot2, treeSize), maxBitLen)
  {
    if snapshot1 < 1 || snapshot1 > treeSize { return Err(BadSnapshot); }
    if snapshot2 < 1 || snapshot2 > treeSize { return Err(BadSnapshot); }
    if snapshot1 > snapshot2 { return Err(SnapshotsReversed); }
    if maxBitLen <= 0 { return Err(BadBitLen); }
    r := SnapshotConsistency(snapshot1, snapshot2, treeSize, maxBitLen);
  }
}
