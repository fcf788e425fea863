/** A log tree addressed by (level, index) coordinates: the value of each node, the bottom-up
    reading of the RFC 6962 proofs, and the set of nodes that storage holds. */
module LogTree {
  import opened Bits
  import opened Hashing
  import opened Rfc6962

  /** Position `index` from the left, `level` above the leaves. */
  datatype Coord = Coord(level: nat, index: nat)

  /** Node `(l, i)` covers at least one of the first `n` leaves. */
  predicate Exists(l: nat, i: nat, n: nat) {
    Shl(i, l) < n
  }

  /** One past the last leaf below `(l, i)` in a tree of `n` leaves. */
  function End(l: nat, i: nat, n: nat): nat {
    if Shl(i, l) + Pow2(l) <= n then Shl(i, l) + Pow2(l) else n
  }

  /** The hash of node `(l, i)` in the tree over the first `n` leaves of `d`. */
  function Node(h: LogHasher, d: seq<Hash>, l: nat, i: nat, n: nat): Hash
    requires Exists(l, i, n) && n <= |d|
  {
    MTH(h, d, Shl(i, l), End(l, i, n))
  }

  /** The levels of a tree of `n` leaves, not counting the leaves. */
  function Height(n: nat): nat
    requires n > 0
  {
    BitLen(n - 1)
  }

  lemma ExistsIff(l: nat, i: nat, n: nat)
    requires n > 0
    ensures Exists(l, i, n) <==> i <= Shr(n - 1, l)
  {
    ShrCompare(i, l, n - 1);
  }

  /** A node with two children is their hash; a node with one child is a copy of it. */
  lemma NodeStep(h: LogHasher, d: seq<Hash>, l: nat, i: nat, n: nat)
    requires Exists(l + 1, i, n) && n <= |d|
    ensures Exists(l, 2 * i, n)
    ensures Exists(l, 2 * i + 1, n) ==>
              Node(h, d, l + 1, i, n) == h.HashChildren(Node(h, d, l, 2 * i, n), Node(h, d, l, 2 * i + 1, n))
    ensures !Exists(l, 2 * i + 1, n) ==> Node(h, d, l + 1, i, n) == Node(h, d, l, 2 * i, n)
  {
    ShlDouble(i, l);
    ShlSucc(2 * i, l);
    if Exists(l, 2 * i + 1, n) {
      SplitIsPow2(End(l + 1, i, n) - Shl(i, l + 1), l);
    }
  }

  lemma LeafNode(h: LogHasher, d: seq<Hash>, i: nat, n: nat)
    requires i < n <= |d|
    ensures Node(h, d, 0, i, n) == d[i]
  {
  }

  /** Above the height of the tree there is one node, the root. */
  lemma RootNode(h: LogHasher, d: seq<Hash>, l: nat, n: nat)
    requires 0 < n <= |d| && n <= Pow2(l)
    ensures Exists(l, 0, n) && Node(h, d, l, 0, n) == MTH(h, d, 0, n)
  {
    ShlZero(l);
  }

  lemma HeightCovers(n: nat)
    requires n > 0
    ensures n <= Pow2(Height(n))
    ensures Shr(n - 1, Height(n)) == 0
  {
    BitLenLeast(n - 1, Height(n));
  }

  /** The loops that climb the right edge of a tree stop at its height. */
  lemma BelowHeight(n: nat, l: nat)
    requires n > 0
    ensures l < Height(n) <==> Shr(n - 1, l) != 0
  {
    BitLenLeast(n - 1, l);
  }

  /** A node whose right end lies within the first `m` leaves no longer changes. */
  lemma NodeStable(h: LogHasher, d: seq<Hash>, l: nat, i: nat, m: nat, n: nat)
    requires Shl(i, l) + Pow2(l) <= m <= n <= |d|
    ensures Node(h, d, l, i, m) == Node(h, d, l, i, n)
  {
  }

  /** Nodes over a shared prefix of the leaves have the same hash. */
  lemma NodePrefix(h: LogHasher, d: seq<Hash>, e: seq<Hash>, l: nat, i: nat, n: nat)
    requires n <= |d| && n <= |e| && d[..n] == e[..n] && Exists(l, i, n)
    ensures Node(h, d, l, i, n) == Node(h, e, l, i, n)
  {
    var lo, hi := Shl(i, l), End(l, i, n);
    forall k | 0 <= k < n ensures d[k] == e[k] { assert d[k] == d[..n][k] == e[..n][k]; }
    assert d[lo..hi] == e[lo..hi];
    MTHLocal(h, d, e, lo, hi, 0);
  }

  // ---------- proofs read bottom-up ----------

  /** The sibling of `i`'s ancestor at level `l`, if a tree of `n` leaves has one. */
  function SiblingAt(h: LogHasher, d: seq<Hash>, i: nat, n: nat, l: nat): seq<Hash>
    requires i < n <= |d|
  {
    var x := Shr(i, l);
    if x % 2 == 1 && Exists(l, x - 1, n) then [Node(h, d, l, x - 1, n)]
    else if x % 2 == 0 && Exists(l, x + 1, n) then [Node(h, d, l, x + 1, n)]
    else []
  }

  /** The siblings met on the way up from level `a` to level `b`. */
  function SiblingPath(h: LogHasher, d: seq<Hash>, i: nat, n: nat, a: nat, b: nat): seq<Hash>
    requires i < n <= |d|
  {
    if b <= a then []
    else SiblingPath(h, d, i, n, a, b - 1) + SiblingAt(h, d, i, n, b - 1)
  }

  /** `(l, Shr(i, l))` is the node at level `l` above leaf `i`. */
  lemma AncestorExists(i: nat, n: nat, l: nat)
    requires i < n
    ensures Exists(l, Shr(i, l), n)
    ensures Shr(i, l) % 2 == 1 ==> Exists(l, Shr(i, l) - 1, n)
    ensures Shl(Shr(i, l), l) <= i < End(l, Shr(i, l), n)
  {
    ShrBounds(i, l);
    if Shr(i, l) % 2 == 1 { ShlMonotone(Shr(i, l) - 1, Shr(i, l), l); }
  }

  /** The bounds of the node above `(l, x)`, in terms of its two children. */
  lemma ParentBounds(l: nat, x: nat, n: nat)
    requires Exists(l, x, n)
    ensures Shl(x / 2, l + 1) == Shl(2 * (x / 2), l)
    ensures Shl(2 * (x / 2) + 1, l) == Shl(2 * (x / 2), l) + Pow2(l)
    ensures Exists(l, 2 * (x / 2) + 1, n) ==>
              && End(l, 2 * (x / 2), n) == Shl(2 * (x / 2) + 1, l)
              && End(l, 2 * (x / 2) + 1, n) == End(l + 1, x / 2, n)
              && Split(End(l + 1, x / 2, n) - Shl(x / 2, l + 1)) == Pow2(l)
    ensures !Exists(l, 2 * (x / 2) + 1, n) ==> x % 2 == 0 && End(l, x, n) == End(l + 1, x / 2, n)
  {
    ShlDouble(x / 2, l);
    ShlSucc(2 * (x / 2), l);
    if Exists(l, 2 * (x / 2) + 1, n) {
      SplitIsPow2(End(l + 1, x / 2, n) - Shl(x / 2, l + 1), l);
    }
  }

  /** The ancestor of `i` at level `l` has a sibling in a tree of `n` leaves. */
  predicate HasSibling(i: nat, n: nat, l: nat) {
    Shr(i, l) % 2 == 1 || Exists(l, Shr(i, l) + 1, n)
  }

  /** The node above an ancestor of `i` is that ancestor hashed with its sibling, if there is one. */
  lemma NodeAbove(h: LogHasher, d: seq<Hash>, i: nat, n: nat, l: nat)
    requires i < n <= |d|
    ensures Exists(l, Shr(i, l), n) && Exists(l + 1, Shr(i, l + 1), n)
    ensures HasSibling(i, n, l) ==>
              && |SiblingAt(h, d, i, n, l)| == 1
              && Node(h, d, l + 1, Shr(i, l + 1), n) ==
                 var x, s := Node(h, d, l, Shr(i, l), n), SiblingAt(h, d, i, n, l)[0];
                 if Shr(i, l) % 2 == 1 then h.HashChildren(s, x) else h.HashChildren(x, s)
    ensures !HasSibling(i, n, l) ==>
              && SiblingAt(h, d, i, n, l) == []
              && Node(h, d, l + 1, Shr(i, l + 1), n) == Node(h, d, l, Shr(i, l), n)
  {
    AncestorExists(i, n, l);
    AncestorExists(i, n, l + 1);
    NodeStep(h, d, l, Shr(i, l + 1), n);
  }

  lemma PathSplits(h: LogHasher, d: seq<Hash>, i: nat, lo: nat, k: nat, hi: nat)
    requires lo <= i < hi <= |d| && hi - lo > 1 && k == lo + Split(hi - lo)
    ensures i < k ==> Path(h, d, i, lo, hi) == Path(h, d, i, lo, k) + [MTH(h, d, k, hi)]
    ensures k <= i ==> Path(h, d, i, lo, hi) == Path(h, d, i, k, hi) + [MTH(h, d, lo, k)]
  {
    hide MTH, Split;
  }

  /** The sibling at level `l`, in the terms of the RFC's recursion on `d[lo..hi]`. */
  lemma SiblingCases(h: LogHasher, d: seq<Hash>, i: nat, n: nat, l: nat) returns (lo: nat, k: nat, hi: nat)
    requires i < n <= |d|
    ensures lo == Shl(Shr(i, l + 1), l + 1) <= i < hi == End(l + 1, Shr(i, l + 1), n) <= |d|
    ensures !Exists(l, 2 * Shr(i, l + 1) + 1, n) ==>
              && Shr(i, l) % 2 == 0
              && Shl(Shr(i, l), l) == lo && End(l, Shr(i, l), n) == hi
              && SiblingAt(h, d, i, n, l) == []
    ensures Exists(l, 2 * Shr(i, l + 1) + 1, n) ==> hi - lo > 1 && k == lo + Split(hi - lo)
    ensures Exists(l, 2 * Shr(i, l + 1) + 1, n) && Shr(i, l) % 2 == 0 ==>
              && Shl(Shr(i, l), l) == lo && End(l, Shr(i, l), n) == k && i < k
              && SiblingAt(h, d, i, n, l) == [MTH(h, d, k, hi)]
    ensures Exists(l, 2 * Shr(i, l + 1) + 1, n) && Shr(i, l) % 2 == 1 ==>
              && Shl(Shr(i, l), l) == k && End(l, Shr(i, l), n) == hi && k <= i
              && SiblingAt(h, d, i, n, l) == [MTH(h, d, lo, k)]
  {
    hide Split, MTH, Shl, Pow2;
    var x := Shr(i, l);
    AncestorExists(i, n, l);
    AncestorExists(i, n, l + 1);
    ParentBounds(l, x, n);
    lo, k, hi := Shl(x / 2, l + 1), Shl(2 * (x / 2) + 1, l), End(l + 1, x / 2, n);
  }

  /** One level up, PATH gains the sibling at that level. */
  lemma PathStep(h: LogHasher, d: seq<Hash>, i: nat, n: nat, l: nat) returns (lo: nat, hi: nat, lo': nat, hi': nat)
    requires i < n <= |d|
    ensures lo == Shl(Shr(i, l), l) <= i < hi == End(l, Shr(i, l), n) <= |d|
    ensures lo' == Shl(Shr(i, l + 1), l + 1) <= i < hi' == End(l + 1, Shr(i, l + 1), n) <= |d|
    ensures Path(h, d, i, lo', hi') == Path(h, d, i, lo, hi) + SiblingAt(h, d, i, n, l)
  {
    AncestorExists(i, n, l);
    var k;
    lo, hi := Shl(Shr(i, l), l), End(l, Shr(i, l), n);
    lo', k, hi' := SiblingCases(h, d, i, n, l);
    if Exists(l, 2 * Shr(i, l + 1) + 1, n) { PathSplits(h, d, i, lo', k, hi'); }
  }

  /** PATH is the list of siblings between the leaf and the root. */
  lemma {:induction false} PathIsSiblings(h: LogHasher, d: seq<Hash>, i: nat, n: nat, l: nat)
    requires i < n <= |d|
    ensures Shl(Shr(i, l), l) <= i < End(l, Shr(i, l), n) <= |d|
    ensures Path(h, d, i, Shl(Shr(i, l), l), End(l, Shr(i, l), n)) == SiblingPath(h, d, i, n, 0, l)
  {
    hide MTH, SiblingAt;
    AncestorExists(i, n, l);
    if l != 0 {
      PathIsSiblings(h, d, i, n, l - 1);
      var _, _, _, _ := PathStep(h, d, i, n, l - 1);
    }
  }

  lemma InclusionProofIsSiblings(h: LogHasher, d: seq<Hash>, i: nat, n: nat)
    requires i < n <= |d|
    ensures InclusionProof(h, d, i, n) == SiblingPath(h, d, i, n, 0, Height(n))
  {
    hide Path, SiblingPath;
    HeightCovers(n);
    ShrMonotone(i, n - 1, Height(n));
    PathIsSiblings(h, d, i, n, Height(n));
    ShlZero(Height(n));
  }

  /** The number of one bits at the right end of `x`: how far up a right edge is complete. */
  function TrailingOnes(x: nat): nat {
    if x % 2 == 0 then 0 else 1 + TrailingOnes(x / 2)
  }

  lemma {:induction false} TrailingOnesBelowBitLen(i: nat)
    ensures TrailingOnes(i) <= BitLen(i)
  {
    if i % 2 == 1 { TrailingOnesBelowBitLen(i / 2); }
  }

  /** With `a` trailing ones in `i`, the leaves up to `i` end in the complete node `(a, Shr(i, a))`. */
  lemma {:induction false} CompleteEdge(i: nat, l: nat)
    requires l <= TrailingOnes(i)
    ensures Shl(Shr(i, l), l) + Pow2(l) == i + 1
    ensures TrailingOnes(Shr(i, l)) == TrailingOnes(i) - l
  {
    if l != 0 {
      CompleteEdge(i, l - 1);
      var y := Shr(i, l - 1);
      ShlDouble(y / 2, l - 1);
      ShlSucc(2 * (y / 2), l - 1);
    }
  }

  /** Below the trailing ones every bit is set, and the bit above them is not. */
  lemma TrailingOnesStep(i: nat, l: nat)
    requires l <= TrailingOnes(i)
    ensures Shr(i, l) % 2 == 1 <==> l < TrailingOnes(i)
  {
    CompleteEdge(i, l);
  }

  lemma {:induction false} EdgeEndsBelow(i: nat, n: nat, l: nat)
    requires i + 1 < n && TrailingOnes(i) < l
    ensures i + 1 < Shl(Shr(i, l), l) + Pow2(l)
    ensures i + 1 < End(l, Shr(i, l), n)
  {
    var y := Shr(i, l - 1);
    ShlDouble(y / 2, l - 1);
    ShlSucc(2 * (y / 2), l - 1);
    if l == TrailingOnes(i) + 1 {
      CompleteEdge(i, l - 1);
    } else {
      EdgeEndsBelow(i, n, l - 1);
    }
  }

  lemma EdgeBelowHeight(i: nat, n: nat)
    requires i + 1 < n
    ensures TrailingOnes(i) < Height(n)
  {
    var a := TrailingOnes(i);
    CompleteEdge(i, a);
    HeightCovers(n);
    if Height(n) <= a { Pow2Monotone(Height(n), a); }
  }

  /** The node that a consistency proof from the size `i + 1` starts with, unless it is the old root. */
  function ProofHead(h: LogHasher, d: seq<Hash>, i: nat): seq<Hash>
    requires i < |d|
  {
    var a := TrailingOnes(i);
    var x := Shr(i, a);
    if x == 0 || !Exists(a, x, i + 1) then [] else [Node(h, d, a, x, i + 1)]
  }

  /** At the top of the complete edge, SUBPROOF is the node itself, unless that is the old root. */
  lemma SubProofBase(h: LogHasher, d: seq<Hash>, i: nat, n: nat, l: nat) returns (lo: nat)
    requires i < n <= |d| && l == TrailingOnes(i)
    ensures lo == Shl(Shr(i, l), l) <= i && i + 1 == End(l, Shr(i, l), n)
    ensures SubProof(h, d, i + 1, lo, i + 1, Shr(i, l) == 0) == ProofHead(h, d, i)
  {
    CompleteEdge(i, l);
    lo := Shl(Shr(i, l), l);
  }

  /** The three ways SUBPROOF of `d[lo..hi]` extends to SUBPROOF of the node above it. */
  lemma SubProofClimb(h: LogHasher, d: seq<Hash>, m: nat, lo: nat, hi: nat, b: bool,
                      lo': nat, k: nat, hi': nat, b': bool, sibling: seq<Hash>)
    requires lo' < m < hi' <= |d| && lo < m <= hi <= |d|
    requires
      || (lo == lo' && hi == hi' && b == b' && sibling == [])
      || (k == lo' + Split(hi' - lo')
          && ((lo == lo' && hi == k && b == b' && sibling == [MTH(h, d, k, hi')])
              || (lo == k && hi == hi' && !b && sibling == [MTH(h, d, lo', k)])))
    ensures SubProof(h, d, m, lo', hi', b') == SubProof(h, d, m, lo, hi, b) + sibling
  {
  }

  /** One level up, SUBPROOF gains the sibling at that level. */
  lemma SubProofStep(h: LogHasher, d: seq<Hash>, i: nat, n: nat, l: nat)
      returns (lo: nat, hi: nat, lo': nat, hi': nat)
    requires i + 1 < n <= |d| && TrailingOnes(i) <= l
    ensures lo == Shl(Shr(i, l), l) <= i < hi == End(l, Shr(i, l), n) <= |d|
    ensures lo' == Shl(Shr(i, l + 1), l + 1) <= i < hi' == End(l + 1, Shr(i, l + 1), n) <= |d|
    ensures SubProof(h, d, i + 1, lo', hi', Shr(i, l + 1) == 0)
            == SubProof(h, d, i + 1, lo, hi, Shr(i, l) == 0) + SiblingAt(h, d, i, n, l)
  {
    hide SubProof, MTH;
    AncestorExists(i, n, l);
    EdgeEndsBelow(i, n, l + 1);
    var k;
    lo, hi := Shl(Shr(i, l), l), End(l, Shr(i, l), n);
    lo', k, hi' := SiblingCases(h, d, i, n, l);
    var b, b', sibling := Shr(i, l) == 0, Shr(i, l + 1) == 0, SiblingAt(h, d, i, n, l);
    assert Shr(i, l) % 2 == 0 ==> b == b';
    SubProofClimb(h, d, i + 1, lo, hi, b, lo', k, hi', b', sibling);
  }

  lemma ConcatAssociates<T>(a: seq<T>, b: seq<T>, c: seq<T>)
    ensures a + (b + c) == (a + b) + c
  {
  }

  /** PROOF is that node followed by the siblings between it and the new root. */
  lemma {:induction false} SubProofIsSiblings(h: LogHasher, d: seq<Hash>, i: nat, n: nat, l: nat)
      returns (lo: nat, hi: nat)
    requires i + 1 < n <= |d| && TrailingOnes(i) <= l
    ensures lo == Shl(Shr(i, l), l) <= i < hi == End(l, Shr(i, l), n) <= |d|
    ensures SubProof(h, d, i + 1, lo, hi, Shr(i, l) == 0)
            == ProofHead(h, d, i) + SiblingPath(h, d, i, n, TrailingOnes(i), l)
  {
    hide SubProof, SiblingAt;
    var a := TrailingOnes(i);
    if l == a {
      lo := SubProofBase(h, d, i, n, l);
      hi := i + 1;
    } else {
      var lo0, hi0 := SubProofIsSiblings(h, d, i, n, l - 1);
      lo0, hi0, lo, hi := SubProofStep(h, d, i, n, l - 1);
      ConcatAssociates(ProofHead(h, d, i), SiblingPath(h, d, i, n, a, l - 1), SiblingAt(h, d, i, n, l - 1));
    }
  }

  lemma ConsistencyProofIsSiblings(h: LogHasher, d: seq<Hash>, i: nat, n: nat)
    requires i + 1 < n <= |d|
    ensures TrailingOnes(i) < Height(n)
    ensures ConsistencyProof(h, d, i + 1, n)
            == ProofHead(h, d, i) + SiblingPath(h, d, i, n, TrailingOnes(i), Height(n))
  {
    hide MTH, Node, Shl, Pow2, SubProof;
    HeightCovers(n);
    EdgeBelowHeight(i, n);
    ShrMonotone(i, n - 1, Height(n));
    var _, _ := SubProofIsSiblings(h, d, i, n, Height(n));
    ShlZero(Height(n));
  }

  // ---------- storage ----------

  /** Storage holds every leaf, and every node above the leaves that has two children. */
  predicate Stored(c: Coord, n: nat) {
    if c.level == 0 then c.index < n else Shl(2 * c.index + 1, c.level - 1) < n
  }

  lemma StoredExists(c: Coord, n: nat)
    requires Stored(c, n)
    ensures Exists(c.level, c.index, n)
  {
    if c.level != 0 {
      ShlDouble(c.index, c.level - 1);
      ShlSucc(2 * c.index, c.level - 1);
    }
  }

  /** `s` holds exactly the stored nodes of the tree over `d`, each with its hash. */
  ghost predicate Canonical(h: LogHasher, d: seq<Hash>, s: map<Coord, Hash>) {
    && (forall c: Coord :: c in s <==> Stored(c, |d|))
    && (forall c: Coord {:trigger s[c]} :: c in s ==> StoredValue(h, d, c, s[c]))
  }

  ghost predicate StoredValue(h: LogHasher, d: seq<Hash>, c: Coord, v: Hash) {
    Exists(c.level, c.index, |d|) && v == Node(h, d, c.level, c.index, |d|)
  }

  lemma EmptyCanonical(h: LogHasher)
    ensures Canonical(h, [], map[])
  {
    forall c: Coord ensures !Stored(c, 0) {}
  }
}
