/** What the compact log tree keeps and writes: one hash per one bit of the size, like a
    binary counter, and the node writes each added leaf causes. */
module CompactSpec {
  import opened Bits
  import opened Hashing
  import opened Rfc6962
  import opened LogTree

  datatype Write = Write(coord: Coord, hash: Hash)

  /** Storage after the writes `ws` in order. */
  function Overlay(s: map<Coord, Hash>, ws: seq<Write>): map<Coord, Hash> {
    if ws == [] then s
    else Overlay(s, ws[..|ws| - 1])[ws[|ws| - 1].coord := ws[|ws| - 1].hash]
  }

  /** The left edge of the part of the tree that bits below `b` of the size `n` stand for. */
  function TailStart(n: nat, b: nat): nat {
    Shl(Shr(n, b), b)
  }

  lemma TailStartStep(n: nat, b: nat)
    ensures TailStart(n, b) <= n
    ensures n - TailStart(n, b) < Pow2(b)
    ensures TailStart(n, b + 1) == if BitSet(n, b) then TailStart(n, b) - Pow2(b) else TailStart(n, b)
    ensures BitSet(n, b) ==> Shl(Shr(n, b) - 1, b) == TailStart(n, b + 1)
  {
    ShrBounds(n, b);
    var x := Shr(n, b);
    ShlDouble(x / 2, b);
    if x % 2 == 1 { ShlSucc(x - 1, b); }
  }

  // ---------- the hashes kept ----------

  /** The perfect subtree that bit `b` of the size stands for. */
  function EdgeNode(h: LogHasher, d: seq<Hash>, b: nat): Option<Hash> {
    if BitSet(|d|, b) && Exists(b, Shr(|d|, b) - 1, |d|) then Some(Node(h, d, b, Shr(|d|, b) - 1, |d|)) else None
  }

  predicate Holds(nodes: seq<Option<Hash>>, n: nat) {
    && |nodes| == BitLen(n)
    && forall b :: 0 <= b < |nodes| ==> (nodes[b].Some? <==> BitSet(n, b))
  }

  ghost predicate HoldsEdges(h: LogHasher, d: seq<Hash>, nodes: seq<Option<Hash>>) {
    && |nodes| == BitLen(|d|)
    && forall b :: 0 <= b < |nodes| ==> nodes[b] == EdgeNode(h, d, b)
  }

  /** A kept hash is that of the leaves between two tail starts. */
  lemma EdgeNodeRange(h: LogHasher, d: seq<Hash>, b: nat)
    ensures BitSet(|d|, b) ==>
              && TailStart(|d|, b + 1) + Pow2(b) == TailStart(|d|, b) <= |d|
              && EdgeNode(h, d, b) == Some(MTH(h, d, TailStart(|d|, b + 1), TailStart(|d|, b)))
    ensures !BitSet(|d|, b) ==> EdgeNode(h, d, b) == None
  {
    hide MTH;
    TailStartStep(|d|, b);
  }

  lemma EdgesHold(h: LogHasher, d: seq<Hash>, nodes: seq<Option<Hash>>)
    requires HoldsEdges(h, d, nodes)
    ensures Holds(nodes, |d|)
  {
    forall b | 0 <= b < |nodes| ensures nodes[b].Some? <==> BitSet(|d|, b) { EdgeNodeRange(h, d, b); }
  }

  // ---------- recalculating the root ----------

  /** The hash of everything that the bits below `b` stand for. */
  function FoldRoot(h: LogHasher, nodes: seq<Option<Hash>>, n: nat, b: nat): Option<Hash>
    requires Holds(nodes, n) && b <= |nodes|
  {
    if b == 0 then None
    else
      var low := FoldRoot(h, nodes, n, b - 1);
      if !BitSet(n, b - 1) then low
      else if low.None? then nodes[b - 1]
      else Some(h.HashChildren(nodes[b - 1].value, low.value))
  }

  /** The nodes recomputed on the way, from the leaves up. */
  function FoldWrites(h: LogHasher, nodes: seq<Option<Hash>>, n: nat, b: nat): seq<Write>
    requires Holds(nodes, n) && b <= |nodes|
  {
    if b == 0 then []
    else
      var low := FoldRoot(h, nodes, n, b - 1);
      FoldWrites(h, nodes, n, b - 1) +
      if BitSet(n, b - 1) && low.Some?
      then [Write(Coord(b, Shr(n, b)), h.HashChildren(nodes[b - 1].value, low.value))]
      else []
  }

  /** The fold computes RFC 6962 hashes of ever longer tails of the leaves. */
  lemma {:induction false} FoldRootIsTail(h: LogHasher, d: seq<Hash>, nodes: seq<Option<Hash>>, b: nat)
    requires HoldsEdges(h, d, nodes) && Holds(nodes, |d|) && b <= |nodes|
    ensures TailStart(|d|, b) <= |d|
    ensures FoldRoot(h, nodes, |d|, b) ==
            if TailStart(|d|, b) == |d| then None else Some(MTH(h, d, TailStart(|d|, b), |d|))
  {
    hide EdgeNode, MTH;
    TailStartStep(|d|, b);
    if b != 0 {
      TailStartStep(|d|, b - 1);
      FoldRootIsTail(h, d, nodes, b - 1);
      EdgeNodeRange(h, d, b - 1);
      if BitSet(|d|, b - 1) && TailStart(|d|, b - 1) != |d| { TailHash(h, d, b - 1); }
    }
  }

  /** A tail that gains a perfect subtree on its left splits there. */
  lemma TailHash(h: LogHasher, d: seq<Hash>, b: nat)
    requires BitSet(|d|, b) && TailStart(|d|, b) < |d|
    ensures TailStart(|d|, b + 1) + Pow2(b) == TailStart(|d|, b)
    ensures MTH(h, d, TailStart(|d|, b + 1), |d|)
            == h.HashChildren(MTH(h, d, TailStart(|d|, b + 1), TailStart(|d|, b)), MTH(h, d, TailStart(|d|, b), |d|))
    ensures Exists(b + 1, Shr(|d|, b + 1), |d|)
    ensures Node(h, d, b + 1, Shr(|d|, b + 1), |d|) == MTH(h, d, TailStart(|d|, b + 1), |d|)
  {
    hide Shr, Pow2, BitLen;
    TailStartStep(|d|, b);
    TailStartStep(|d|, b + 1);
    SplitIsPow2(|d| - TailStart(|d|, b + 1), b);
  }

  lemma WholeTail(n: nat)
    ensures TailStart(n, BitLen(n)) == 0
  {
    BitLenLeast(n, BitLen(n));
    ShlZero(BitLen(n));
  }

  lemma FoldRootIsRoot(h: LogHasher, d: seq<Hash>, nodes: seq<Option<Hash>>)
    requires HoldsEdges(h, d, nodes) && Holds(nodes, |d|) && d != []
    ensures FoldRoot(h, nodes, |d|, BitLen(|d|)) == Some(Root(h, d))
  {
    FoldRootIsTail(h, d, nodes, BitLen(|d|));
    WholeTail(|d|);
  }

  /** The first fold step, from the left, that hashed something else than the tree over `d` did. */
  function FoldCollision(h: LogHasher, d: seq<Hash>, nodes: seq<Option<Hash>>, b: nat): Pairs
    requires Holds(nodes, |d|) && b <= |nodes|
  {
    if b == 0 then Pairs(h.emptyRoot, h.emptyRoot, h.emptyRoot, h.emptyRoot)
    else
      var low, cut := FoldRoot(h, nodes, |d|, b - 1), TailStart(|d|, b - 1);
      if BitSet(|d|, b - 1) && low.Some? && TailStart(|d|, b) <= cut <= |d| then
        var found := Pairs(nodes[b - 1].value, low.value, MTH(h, d, TailStart(|d|, b), cut), MTH(h, d, cut, |d|));
        if found.Collides(h) then found else FoldCollision(h, d, nodes, b - 1)
      else FoldCollision(h, d, nodes, b - 1)
  }

  lemma {:induction false} FoldRootSome(h: LogHasher, nodes: seq<Option<Hash>>, n: nat, b: nat)
    requires Holds(nodes, n) && b <= |nodes|
    ensures FoldRoot(h, nodes, n, b).Some? <==> TailStart(n, b) < n
  {
    if b != 0 {
      TailStartStep(n, b - 1);
      FoldRootSome(h, nodes, n, b - 1);
    }
  }

  /** Hashes that fold to the root of `d` are the hashes kept for `d`, or give away a collision. */
  lemma {:induction false} FoldRootSound(h: LogHasher, d: seq<Hash>, nodes: seq<Option<Hash>>, b: nat)
    requires Holds(nodes, |d|) && b <= |nodes|
    requires TailStart(|d|, b) < |d| && FoldRoot(h, nodes, |d|, b) == Some(MTH(h, d, TailStart(|d|, b), |d|))
    ensures
      || FoldCollision(h, d, nodes, b).Collides(h)
      || forall j :: 0 <= j < b ==> nodes[j] == EdgeNode(h, d, j)
  {
    hide MTH, Node, Shr, Exists, BitSet, EdgeNode, TailStart;
    assert b != 0;
    TailStartStep(|d|, b - 1);
    EdgeNodeRange(h, d, b - 1);
    FoldRootSome(h, nodes, |d|, b - 1);
    if TailStart(|d|, b - 1) == |d| {
      forall j | 0 <= j < b - 1 ensures nodes[j] == EdgeNode(h, d, j) { EmptyTail(h, d, b - 1, j); }
    } else {
      if BitSet(|d|, b - 1) { TailHash(h, d, b - 1); }
      if !FoldCollision(h, d, nodes, b).Collides(h) { FoldRootSound(h, d, nodes, b - 1); }
    }
  }

  /** Below an empty tail no bit is set. */
  lemma {:induction false} EmptyTail(h: LogHasher, d: seq<Hash>, b: nat, j: nat)
    requires TailStart(|d|, b) == |d| && j < b
    ensures !BitSet(|d|, j) && EdgeNode(h, d, j) == None
  {
    hide EdgeNode;
    TailStartStep(|d|, b - 1);
    EdgeNodeRange(h, d, j);
    if j < b - 1 { EmptyTail(h, d, b - 1, j); }
  }

  // ---------- counting up ----------

  /** Adding one turns the trailing ones to zero and the bit above them to one. */
  lemma {:induction false} SuccBits(n: nat, b: nat)
    ensures b <= TrailingOnes(n) ==> Shr(n + 1, b) == Shr(n, b) + 1
    ensures b > TrailingOnes(n) ==> Shr(n + 1, b) == Shr(n, b)
    ensures b < TrailingOnes(n) ==> BitSet(n, b)
    ensures b == TrailingOnes(n) ==> !BitSet(n, b)
  {
    if b <= TrailingOnes(n) { CompleteEdge(n, b); }
    if b != 0 {
      SuccBits(n, b - 1);
    }
  }

  lemma {:induction false} SuccBitLen(n: nat)
    ensures TrailingOnes(n) <= BitLen(n)
    ensures BitLen(n + 1) == if TrailingOnes(n) == BitLen(n) then BitLen(n) + 1 else BitLen(n)
  {
    if n % 2 == 1 {
      SuccBitLen(n / 2);
      assert (n + 1) / 2 == n / 2 + 1;
    } else {
      assert (n + 1) / 2 == n / 2;
    }
  }

  /** A bit that the increment leaves alone keeps its hash. */
  lemma EdgeNodeKept(h: LogHasher, d: seq<Hash>, leaf: Hash, b: nat)
    requires b > TrailingOnes(|d|)
    ensures EdgeNode(h, d + [leaf], b) == EdgeNode(h, d, b)
  {
    hide MTH, Node, TrailingOnes;
    var n, e := |d|, d + [leaf];
    SuccBits(n, b);
    if BitSet(n, b) {
      TailStartStep(n, b);
      NodeStable(h, e, b, Shr(n, b) - 1, n, n + 1);
      NodePrefix(h, d, e, b, Shr(n, b) - 1, n);
    }
  }

  /** The bit that the increment sets gets the hash of the node that the new leaf completes. */
  lemma EdgeNodeNew(h: LogHasher, d: seq<Hash>, leaf: Hash, b: nat)
    requires b <= TrailingOnes(|d|)
    ensures Exists(b, Shr(|d|, b), |d| + 1)
    ensures b < TrailingOnes(|d|) ==> EdgeNode(h, d + [leaf], b) == None
    ensures b == TrailingOnes(|d|) ==>
              EdgeNode(h, d + [leaf], b) == Some(Node(h, d + [leaf], b, Shr(|d|, b), |d| + 1))
  {
    hide Node, MTH, Shr, Pow2, BitLen, Exists, TrailingOnes;
    SuccBits(|d|, b);
    AncestorExists(|d|, |d| + 1, b);
  }

  /** Where the carry ends: the bits it passed are cleared, the bit it stops at gets the completed node, and the
      bits above keep theirs. */
  lemma CarryDone(h: LogHasher, d: seq<Hash>, leaf: Hash, nodes: seq<Option<Hash>>)
    requires |nodes| == BitLen(|d| + 1) && TrailingOnes(|d|) < |nodes|
    requires forall b :: 0 <= b < TrailingOnes(|d|) ==> nodes[b] == None
    requires Exists(TrailingOnes(|d|), Shr(|d|, TrailingOnes(|d|)), |d| + 1)
    requires nodes[TrailingOnes(|d|)] ==
             Some(Node(h, d + [leaf], TrailingOnes(|d|), Shr(|d|, TrailingOnes(|d|)), |d| + 1))
    requires forall b :: TrailingOnes(|d|) < b < |nodes| ==> nodes[b] == EdgeNode(h, d, b)
    ensures HoldsEdges(h, d + [leaf], nodes)
  {
    hide Node, EdgeNode, Shr, TrailingOnes, BitLen;
    forall b | 0 <= b < |nodes| ensures nodes[b] == EdgeNode(h, d + [leaf], b) {
      if b <= TrailingOnes(|d|) { EdgeNodeNew(h, d, leaf, b); } else { EdgeNodeKept(h, d, leaf, b); }
    }
  }

  /** The carry: the kept hash of bit `b` and the running hash make the node above. */
  lemma CarryStep(h: LogHasher, d: seq<Hash>, leaf: Hash, b: nat)
    requires b < TrailingOnes(|d|)
    ensures EdgeNode(h, d, b).Some?
    ensures Exists(b, Shr(|d|, b), |d| + 1) && Exists(b + 1, Shr(|d|, b + 1), |d| + 1)
    ensures Node(h, d + [leaf], b + 1, Shr(|d|, b + 1), |d| + 1)
            == h.HashChildren(EdgeNode(h, d, b).value, Node(h, d + [leaf], b, Shr(|d|, b), |d| + 1))
  {
    hide MTH;
    var n, e := |d|, d + [leaf];
    SuccBits(n, b);
    EdgeNodeRange(h, d, b);
    TailStartStep(n, b);
    NodeStable(h, e, b, Shr(n, b) - 1, n, n + 1);
    NodePrefix(h, d, e, b, Shr(n, b) - 1, n);
    NodeAbove(h, e, n, n + 1, b);
  }

  // ---------- the writes of one addition ----------

  /** The node above the last leaf of `e`, `l` levels up. */
  function EdgeWrite(h: LogHasher, e: seq<Hash>, l: nat): Write
    requires e != [] && Exists(l, Shr(|e| - 1, l), |e|)
  {
    Write(Coord(l, Shr(|e| - 1, l)), Node(h, e, l, Shr(|e| - 1, l), |e|))
  }

  ghost predicate IsEdgeWrite(h: LogHasher, e: seq<Hash>, w: Write) {
    && e != []
    && Exists(w.coord.level, Shr(|e| - 1, w.coord.level), |e|)
    && w == EdgeWrite(h, e, w.coord.level)
    && Stored(w.coord, |e|)
  }

  function Coords(ws: seq<Write>): set<Coord> {
    set w | w in ws :: w.coord
  }

  lemma {:induction false} OverlayEdgeWrites(h: LogHasher, e: seq<Hash>, s: map<Coord, Hash>, ws: seq<Write>)
    requires forall w :: w in ws ==> IsEdgeWrite(h, e, w)
    ensures Overlay(s, ws).Keys == s.Keys + Coords(ws)
    ensures forall c {:trigger Overlay(s, ws)[c]} :: c in Coords(ws) ==> StoredValue(h, e, c, Overlay(s, ws)[c])
    ensures forall c {:trigger Overlay(s, ws)[c]} :: c in s && c !in Coords(ws) ==> Overlay(s, ws)[c] == s[c]
  {
    hide Stored, EdgeWrite;
    if ws != [] {
      var rest, last := ws[..|ws| - 1], ws[|ws| - 1];
      OverlayEdgeWrites(h, e, s, rest);
      assert Coords(ws) == Coords(rest) + {last.coord} by {
        forall c | c in Coords(ws) ensures c in Coords(rest) + {last.coord} {
          var w :| w in ws && w.coord == c;
          assert w in rest || w == last;
        }
        forall c | c in Coords(rest) + {last.coord} ensures c in Coords(ws) {
          assert last in ws;
        }
      }
      assert IsEdgeWrite(h, e, last);
      EdgeWriteValue(h, e, last);
    } else {
      assert Coords(ws) == {};
    }
  }

  lemma EdgeWriteValue(h: LogHasher, e: seq<Hash>, w: Write)
    requires IsEdgeWrite(h, e, w)
    ensures StoredValue(h, e, w.coord, w.hash)
  {
  }

  /** Away from the path above the new leaf, storage and its hashes stay as they are. */
  lemma OffEdge(h: LogHasher, d: seq<Hash>, leaf: Hash, c: Coord)
    requires c.index != Shr(|d|, c.level)
    ensures Stored(c, |d| + 1) <==> Stored(c, |d|)
    ensures Stored(c, |d|) ==>
              && Exists(c.level, c.index, |d|) && Exists(c.level, c.index, |d| + 1)
              && Node(h, d, c.level, c.index, |d|) == Node(h, d + [leaf], c.level, c.index, |d| + 1)
  {
    hide MTH;
    var n, e, l, i := |d|, d + [leaf], c.level, c.index;
    ShrBounds(n, l);
    var x := Shr(n, l);
    if i < x {
      ShlMonotone(i, x, l);
      if l != 0 {
        ShlDouble(i, l - 1);
        ShlSucc(2 * i, l - 1);
      }
      NodeStable(h, e, l, i, n, n + 1);
      NodePrefix(h, d, e, l, i, n);
    } else {
      ShlMonotone(x, i, l);
      if l != 0 {
        ShlDouble(i, l - 1);
        ShlSucc(2 * i, l - 1);
      }
    }
  }

  /** Edge writes at every stored coordinate above the new leaf turn one canonical store into the next. */
  lemma EdgeWritesSuffice(h: LogHasher, d: seq<Hash>, leaf: Hash, s: map<Coord, Hash>, ws: seq<Write>)
    requires Canonical(h, d, s)
    requires forall w :: w in ws ==> IsEdgeWrite(h, d + [leaf], w)
    requires forall l: nat :: Stored(Coord(l, Shr(|d|, l)), |d| + 1) ==> Coord(l, Shr(|d|, l)) in Coords(ws)
    ensures Canonical(h, d + [leaf], Overlay(s, ws))
  {
    var e, s' := d + [leaf], Overlay(s, ws);
    hide Stored, Exists, Node, Overlay, EdgeWrite;
    OverlayEdgeWrites(h, e, s, ws);
    forall c: Coord
      ensures c in s' <==> Stored(c, |e|)
      ensures c in s' ==> StoredValue(h, e, c, s'[c])
    {
      if c in Coords(ws) {
        var w :| w in ws && w.coord == c;
        assert IsEdgeWrite(h, e, w);
      } else {
        if c.index == Shr(|d|, c.level) {
          assert c == Coord(c.level, Shr(|d|, c.level));
          assert !Stored(c, |e|);
          if c in s { StoredGrows(c, |d|); }
        } else {
          OffEdge(h, d, leaf, c);
        }
      }
    }
  }

  lemma StoredGrows(c: Coord, n: nat)
    requires Stored(c, n)
    ensures Stored(c, n + 1)
  {
  }

  /** The writes while carrying: the nodes above the last leaf of `e` up to level `k`. */
  function CarryWrites(h: LogHasher, e: seq<Hash>, k: nat): seq<Write>
    requires e != []
  {
    AncestorExists(|e| - 1, |e|, k);
    (if k == 0 then [] else CarryWrites(h, e, k - 1)) + [EdgeWrite(h, e, k)]
  }

  /** While carrying, every node above the new leaf is complete. */
  lemma CarryWriteIsEdge(h: LogHasher, e: seq<Hash>, k: nat)
    requires e != [] && k <= TrailingOnes(|e| - 1)
    ensures Exists(k, Shr(|e| - 1, k), |e|) && IsEdgeWrite(h, e, EdgeWrite(h, e, k))
  {
    hide Node, Shl, Pow2, TrailingOnes;
    var n := |e| - 1;
    AncestorExists(n, |e|, k);
    CompleteEdge(n, k);
    if k == 0 {
      ShiftNothing(n);
    } else {
      ShlDouble(Shr(n, k), k - 1);
      ShlSucc(2 * Shr(n, k), k - 1);
      Pow2Step(k - 1);
    }
  }

  lemma {:induction false} CarryWritesAreEdge(h: LogHasher, e: seq<Hash>, k: nat)
    requires e != [] && k <= TrailingOnes(|e| - 1)
    ensures forall w :: w in CarryWrites(h, e, k) ==> IsEdgeWrite(h, e, w)
    ensures var n := |e| - 1;
            forall l :: 0 <= l <= k ==> Coord(l, Shr(n, l)) in Coords(CarryWrites(h, e, k))
  {
    hide IsEdgeWrite, Coords, TrailingOnes, Node, Shr;
    CarryWriteIsEdge(h, e, k);
    var w := EdgeWrite(h, e, k);
    LastCoord(w);
    if k == 0 {
      assert CarryWrites(h, e, k) == [w];
    } else {
      CarryWritesAreEdge(h, e, k - 1);
      CoordsConcat(CarryWrites(h, e, k - 1), [w]);
    }
  }

  lemma LastCoord(w: Write)
    ensures w.coord in Coords([w])
  {
    assert w in [w];
  }

  /** What recalculating the root writes, when the hashes kept are those for `e`. */
  lemma {:induction false} FoldWritesAreEdge(h: LogHasher, e: seq<Hash>, nodes: seq<Option<Hash>>, b: nat)
    requires e != [] && HoldsEdges(h, e, nodes) && Holds(nodes, |e|) && b <= |nodes|
    ensures forall w :: w in FoldWrites(h, nodes, |e|, b) ==> IsEdgeWrite(h, e, w)
    ensures forall j :: TrailingOnes(|e| - 1) < j < b && BitSet(|e|, j) ==>
                          Coord(j + 1, Shr(|e| - 1, j + 1)) in Coords(FoldWrites(h, nodes, |e|, b))
  {
    hide Node, MTH, FoldRoot, HoldsEdges, EdgeNode, TailStart, Shr, IsEdgeWrite;
    if b != 0 {
      var n, ws, ws' := |e| - 1, FoldWrites(h, nodes, |e|, b - 1), FoldWrites(h, nodes, |e|, b);
      FoldWritesAreEdge(h, e, nodes, b - 1);
      FoldRootSome(h, nodes, |e|, b - 1);
      assert forall w :: w in ws ==> w in ws';
      if BitSet(|e|, b - 1) && FoldRoot(h, nodes, |e|, b - 1).Some? {
        var w := ws'[|ws'| - 1];
        assert ws' == ws + [w];
        FoldWriteIsEdge(h, e, nodes, b - 1);
        assert w in ws';
      } else {
        assert ws' == ws;
        if b - 1 > TrailingOnes(n) && BitSet(|e|, b - 1) {
          TailNotEmpty(n, b - 1);
        }
      }
    }
  }

  lemma FoldWriteIsEdge(h: LogHasher, e: seq<Hash>, nodes: seq<Option<Hash>>, b: nat)
    requires e != [] && HoldsEdges(h, e, nodes) && Holds(nodes, |e|) && b < |nodes|
    requires BitSet(|e|, b) && FoldRoot(h, nodes, |e|, b).Some?
    ensures Shr(|e|, b + 1) == Shr(|e| - 1, b + 1)
    ensures IsEdgeWrite(h, e, Write(Coord(b + 1, Shr(|e|, b + 1)),
                                    h.HashChildren(nodes[b].value, FoldRoot(h, nodes, |e|, b).value)))
  {
    hide MTH, FoldRoot, EdgeNode;
    FoldRootIsTail(h, e, nodes, b);
    TailHash(h, e, b);
    EdgeNodeRange(h, e, b);
    TailStartStep(|e|, b);
    ShrUnique(|e| - 1, b + 1, Shr(|e|, b + 1));
    ShlDouble(Shr(|e|, b + 1), b);
    ShlSucc(2 * Shr(|e|, b + 1), b);
  }

  /** Above the lowest set bit of `n + 1` there is always something to hash with. */
  lemma {:induction false} TailNotEmpty(n: nat, b: nat)
    requires b > TrailingOnes(n)
    ensures TailStart(n + 1, b) < n + 1
  {
    hide Shl, Shr;
    TailStartStep(n + 1, b - 1);
    if b - 1 == TrailingOnes(n) {
      SuccBits(n, b - 1);
    } else {
      TailNotEmpty(n, b - 1);
    }
  }

  /** All writes of one addition. */
  function AddWrites(h: LogHasher, e: seq<Hash>, nodes: seq<Option<Hash>>): seq<Write>
    requires e != [] && Holds(nodes, |e|)
  {
    CarryWrites(h, e, TrailingOnes(|e| - 1)) + FoldWrites(h, nodes, |e|, |nodes|)
  }

  /** Storage is canonical again after every addition: the same nodes as in a tree built afresh, with
      no stale hash on the right edge and none for a node with a single child. */
  lemma AddWritesKeepCanonical(h: LogHasher, d: seq<Hash>, leaf: Hash, nodes: seq<Option<Hash>>, s: map<Coord, Hash>)
    requires Canonical(h, d, s)
    requires HoldsEdges(h, d + [leaf], nodes) && Holds(nodes, |d + [leaf]|)
    ensures Canonical(h, d + [leaf], Overlay(s, AddWrites(h, d + [leaf], nodes)))
  {
    hide Canonical, HoldsEdges, EdgeNode, Node, Overlay, CarryWrites, FoldWrites;
    var n, e := |d|, d + [leaf];
    var ws1, ws2 := CarryWrites(h, e, TrailingOnes(n)), FoldWrites(h, nodes, |e|, |nodes|);
    CarryWritesAreEdge(h, e, TrailingOnes(n));
    FoldWritesAreEdge(h, e, nodes, |nodes|);
    assert Coords(ws1 + ws2) == Coords(ws1) + Coords(ws2) by { CoordsConcat(ws1, ws2); }
    forall l: nat | Stored(Coord(l, Shr(n, l)), n + 1)
      ensures Coord(l, Shr(n, l)) in Coords(ws1 + ws2)
    {
      if l > TrailingOnes(n) { StoredEdgeBit(n, l); }
    }
    EdgeWritesSuffice(h, d, leaf, s, ws1 + ws2);
  }

  lemma CoordsConcat(a: seq<Write>, b: seq<Write>)
    ensures Coords(a + b) == Coords(a) + Coords(b)
  {
    assert forall w :: w in a + b <==> w in a || w in b;
  }

  /** A stored node above the carry stands over a set bit. */
  lemma StoredEdgeBit(n: nat, l: nat)
    requires l > TrailingOnes(n) && Stored(Coord(l, Shr(n, l)), n + 1)
    ensures l - 1 > TrailingOnes(n) && BitSet(n + 1, l - 1) && l - 1 < BitLen(n + 1)
  {
    ShrCompare(2 * Shr(n, l) + 1, l - 1, n);
    assert BitSet(n, l - 1);
    SuccBits(n, l - 1);
    BitLenLeast(n + 1, l - 1);
  }
}
