/** The client's proof checks (merkle/log_verifier.go): two loops that hash from a leaf, or from the
    right edge of the older tree, towards the root. They are specified by functions that count levels
    and are then shown to accept the RFC 6962 proofs, and nothing else short of a hash collision. */
module LogVerifier {
  import opened Bits
  import opened Hashing
  import opened Rfc6962
  import opened LogTree

  datatype ProofError =
    | NegativeIndex | NegativeSize | IndexBeyondTree | SizesReversed
    | ProofNotEmpty | ProofEmpty | TooFewHashes | TooManyHashes
    | RootMismatch(calculated: Hash, expected: Hash)

  // ---------- how many hashes a proof holds ----------

  /** The number of levels from `a` up to `b` at which the ancestor of `i` has a sibling. */
  function SiblingCount(i: nat, n: nat, a: nat, b: nat): nat {
    if b <= a then 0 else SiblingCount(i, n, a, b - 1) + if HasSibling(i, n, b - 1) then 1 else 0
  }

  lemma SiblingCountMonotone(i: nat, n: nat, a: nat, b: nat, c: nat)
    requires b <= c
    ensures SiblingCount(i, n, a, b) <= SiblingCount(i, n, a, c)
    decreases c
  {
    if b < c { SiblingCountMonotone(i, n, a, b, c - 1); }
  }

  lemma {:induction false} SiblingPathLength(h: LogHasher, d: seq<Hash>, i: nat, n: nat, a: nat, b: nat)
    requires i < n <= |d|
    ensures |SiblingPath(h, d, i, n, a, b)| == SiblingCount(i, n, a, b)
  {
    if a < b {
      SiblingPathLength(h, d, i, n, a, b - 1);
      AncestorExists(i, n, b - 1);
    }
  }

  /** The top level always has a sibling, so running out of hashes earlier means the proof is too short. */
  lemma TopLevelHasSibling(i: nat, n: nat, a: nat, l: nat)
    requires i < n && a <= l < Height(n)
    ensures SiblingCount(i, n, a, l) < SiblingCount(i, n, a, Height(n))
  {
    var t := Height(n) - 1;
    BelowHeight(n, t);
    HeightCovers(n);
    ShrMonotone(i, n - 1, t);
    ExistsIff(t, Shr(i, t) + 1, n);
    SiblingCountMonotone(i, n, a, l, t);
  }

  // ---------- inclusion ----------

  /** The hash reached at level `l` from `leaf` at position `i`. */
  function Climb(h: LogHasher, i: nat, n: nat, l: nat, leaf: Hash, proof: seq<Hash>): Hash
    requires SiblingCount(i, n, 0, l) <= |proof|
  {
    if l == 0 then leaf
    else if HasSibling(i, n, l - 1) then
      var below := Climb(h, i, n, l - 1, leaf, proof);
      var sibling := proof[SiblingCount(i, n, 0, l - 1)];
      if Shr(i, l - 1) % 2 == 1 then h.HashChildren(sibling, below) else h.HashChildren(below, sibling)
    else Climb(h, i, n, l - 1, leaf, proof)
  }

  function InclusionRoot(h: LogHasher, index: int, size: int, proof: seq<Hash>, leaf: Hash): Result<Hash, ProofError> {
    if index < 0 then Err(NegativeIndex)
    else if size < 0 then Err(NegativeSize)
    else if index >= size then Err(IndexBeyondTree)
    else
      var want := SiblingCount(index, size, 0, Height(size));
      if |proof| < want then Err(TooFewHashes)
      else if |proof| > want then Err(TooManyHashes)
      else Ok(Climb(h, index, size, Height(size), leaf, proof))
  }

  method RootFromInclusionProof(h: LogHasher, leafIndex: int, treeSize: int, proof: seq<Hash>, leafHash: Hash)
      returns (r: Result<Hash, ProofError>)
    ensures r == InclusionRoot(h, leafIndex, treeSize, proof, leafHash)
    ensures 0 <= leafIndex < treeSize ==>
              RfcRoot(h, leafIndex, 0, treeSize, leafHash, proof) == if r.Ok? then Some(r.value) else None
  {
    hide Exists, RfcRoot;
    if 0 <= leafIndex < treeSize {
      InclusionIsRfc(h, seq(treeSize, _ => leafHash), leafIndex, treeSize, leafHash, proof);
    }
    if leafIndex < 0 { return Err(NegativeIndex); }
    if treeSize < 0 { return Err(NegativeSize); }
    var lastIndex := treeSize - 1;
    if leafIndex > lastIndex { return Err(IndexBeyondTree); }

    var cntIndex := leafIndex;
    var cntHash := leafHash;
    var proofIndex := 0;
    ghost var l := 0;
    BelowHeight(treeSize, 0);
    while lastIndex > 0
      invariant l <= Height(treeSize) && (lastIndex > 0 <==> l < Height(treeSize))
      invariant cntIndex == Shr(leafIndex, l) && lastIndex == Shr(treeSize - 1, l)
      invariant proofIndex == SiblingCount(leafIndex, treeSize, 0, l) <= |proof|
      invariant cntHash == Climb(h, leafIndex, treeSize, l, leafHash, proof)
    {
      TopLevelHasSibling(leafIndex, treeSize, 0, l);
      if proofIndex >= |proof| { return Err(TooFewHashes); }
      ExistsIff(l, cntIndex + 1, treeSize);
      if cntIndex % 2 == 1 {
        cntHash := h.HashChildren(proof[proofIndex], cntHash);
        proofIndex := proofIndex + 1;
      } else if cntIndex < lastIndex {
        cntHash := h.HashChildren(cntHash, proof[proofIndex]);
        proofIndex := proofIndex + 1;
      }
      cntIndex := cntIndex / 2;
      lastIndex := lastIndex / 2;
      l := l + 1;
      BelowHeight(treeSize, l);
    }
    if proofIndex != |proof| { return Err(TooManyHashes); }
    return Ok(cntHash);
  }

  function InclusionCheck(h: LogHasher, index: int, size: int, proof: seq<Hash>, root: Hash,
                          leaf: Hash): Result<(), ProofError> {
    match InclusionRoot(h, index, size, proof, leaf)
    case Err(e) => Err(e)
    case Ok(calculated) => if calculated == root then Ok(()) else Err(RootMismatch(calculated, root))
  }

  method VerifyInclusionProof(h: LogHasher, leafIndex: int, treeSize: int, proof: seq<Hash>, root: Hash, leafHash: Hash)
      returns (r: Result<(), ProofError>)
    ensures r == InclusionCheck(h, leafIndex, treeSize, proof, root, leafHash)
    ensures r.Ok? <==> 0 <= leafIndex < treeSize && RfcRoot(h, leafIndex, 0, treeSize, leafHash, proof) == Some(root)
    ensures r.Err? && r.error.RootMismatch? ==>
              && 0 <= leafIndex < treeSize && r.error.expected == root
              && RfcRoot(h, leafIndex, 0, treeSize, leafHash, proof) == Some(r.error.calculated)
  {
    hide RfcRoot;
    var calcRoot := RootFromInclusionProof(h, leafIndex, treeSize, proof, leafHash);
    match calcRoot {
      case Err(e) => return Err(e);
      case Ok(c) =>
        if c != root { return Err(RootMismatch(c, root)); }
        return Ok(());
    }
  }

  /** Fed the true siblings, the climb passes through the true nodes. */
  lemma {:induction false} ClimbTrue(h: LogHasher, d: seq<Hash>, i: nat, n: nat, l: nat, proof: seq<Hash>)
    requires i < n <= |d| && SiblingCount(i, n, 0, l) <= |proof|
    requires proof[..SiblingCount(i, n, 0, l)] == SiblingPath(h, d, i, n, 0, l)
    ensures Exists(l, Shr(i, l), n)
    ensures Climb(h, i, n, l, d[i], proof) == Node(h, d, l, Shr(i, l), n)
  {
    AncestorExists(i, n, l);
    if l != 0 {
      LastSibling(h, d, i, n, 0, l, proof);
      ClimbTrue(h, d, i, n, l - 1, proof);
      NodeAbove(h, d, i, n, l - 1);
    }
  }

  /** Splitting the last sibling off a matching prefix of a proof. */
  lemma LastSibling(h: LogHasher, d: seq<Hash>, i: nat, n: nat, a: nat, b: nat, proof: seq<Hash>)
    requires i < n <= |d| && a < b && SiblingCount(i, n, a, b) <= |proof|
    ensures SiblingCount(i, n, a, b - 1) <= SiblingCount(i, n, a, b)
    ensures proof[..SiblingCount(i, n, a, b)] == SiblingPath(h, d, i, n, a, b) <==>
              && proof[..SiblingCount(i, n, a, b - 1)] == SiblingPath(h, d, i, n, a, b - 1)
              && (HasSibling(i, n, b - 1) ==> SiblingAt(h, d, i, n, b - 1) == [proof[SiblingCount(i, n, a, b - 1)]])
  {
    var c := SiblingCount(i, n, a, b - 1);
    SiblingPathLength(h, d, i, n, a, b - 1);
    AncestorExists(i, n, b - 1);
    if HasSibling(i, n, b - 1) {
      assert proof[..c + 1] == proof[..c] + [proof[c]];
      var p, q := SiblingPath(h, d, i, n, a, b - 1), SiblingAt(h, d, i, n, b - 1);
      assert (p + q)[..c] == p && (p + q)[c..] == q;
      assert proof[..c + 1][..c] == proof[..c] && proof[..c + 1][c..] == [proof[c]];
    }
  }

  /** Looks down from level `l` for the first level at which the climb used other children than the tree. */
  function InclusionCollision(h: LogHasher, d: seq<Hash>, i: nat, n: nat, l: nat, leaf: Hash, proof: seq<Hash>): Pairs
    requires i < n <= |d| && SiblingCount(i, n, 0, l) <= |proof|
  {
    if l == 0 then Pairs(leaf, leaf, leaf, leaf)
    else
      var x := Shr(i, l - 1);
      var truth := SiblingAt(h, d, i, n, l - 1);
      if HasSibling(i, n, l - 1) && truth != [] && Exists(l - 1, x, n) then
        var below := Climb(h, i, n, l - 1, leaf, proof);
        var sibling := proof[SiblingCount(i, n, 0, l - 1)];
        var node := Node(h, d, l - 1, x, n);
        var found :=
          if x % 2 == 1 then Pairs(sibling, below, truth[0], node) else Pairs(below, sibling, node, truth[0]);
        if found.Collides(h) then found else InclusionCollision(h, d, i, n, l - 1, leaf, proof)
      else InclusionCollision(h, d, i, n, l - 1, leaf, proof)
  }

  /** A climb that meets the tree at level `l` started at the true leaf with the true siblings, or
      `InclusionCollision` is a collision. */
  lemma {:induction false} ClimbSound(h: LogHasher, d: seq<Hash>, i: nat, n: nat, l: nat, leaf: Hash, proof: seq<Hash>)
    requires i < n <= |d| && SiblingCount(i, n, 0, l) <= |proof|
    requires Exists(l, Shr(i, l), n) && Climb(h, i, n, l, leaf, proof) == Node(h, d, l, Shr(i, l), n)
    ensures
      || InclusionCollision(h, d, i, n, l, leaf, proof).Collides(h)
      || (leaf == d[i] && proof[..SiblingCount(i, n, 0, l)] == SiblingPath(h, d, i, n, 0, l))
  {
    hide MTH, HasSibling, SiblingAt;
    LeafNode(h, d, i, n);
    if l != 0 {
      LastSibling(h, d, i, n, 0, l, proof);
      NodeAbove(h, d, i, n, l - 1);
      if !InclusionCollision(h, d, i, n, l, leaf, proof).Collides(h) {
        ClimbSound(h, d, i, n, l - 1, leaf, proof);
      }
    }
  }

  /** The RFC 6962 audit path of a leaf is accepted. */
  lemma InclusionComplete(h: LogHasher, d: seq<Hash>, i: nat, n: nat)
    requires i < n <= |d|
    ensures InclusionCheck(h, i, n, InclusionProof(h, d, i, n), MTH(h, d, 0, n), d[i]).Ok?
  {
    hide Node;
    var t, proof := Height(n), InclusionProof(h, d, i, n);
    HeightCovers(n);
    ShrMonotone(i, n - 1, t);
    RootNode(h, d, t, n);
    InclusionProofIsSiblings(h, d, i, n);
    SiblingPathLength(h, d, i, n, 0, t);
    assert proof[..|proof|] == proof;
    ClimbTrue(h, d, i, n, t, proof);
  }

  /** The collision that a wrong but accepted inclusion proof gives away. */
  function InclusionWitness(h: LogHasher, d: seq<Hash>, i: int, leaf: Hash, proof: seq<Hash>): Pairs {
    if 0 <= i < |d| && SiblingCount(i, |d|, 0, Height(|d|)) <= |proof|
    then InclusionCollision(h, d, i, |d|, Height(|d|), leaf, proof)
    else Pairs(leaf, leaf, leaf, leaf)
  }

  /** A proof accepted against the root of `d` is for the leaf at that position and is the RFC 6962 audit
      path, or gives away a collision. */
  lemma InclusionSound(h: LogHasher, d: seq<Hash>, i: int, proof: seq<Hash>, leaf: Hash)
    requires InclusionCheck(h, i, |d|, proof, Root(h, d), leaf).Ok?
    ensures 0 <= i < |d|
    ensures
      || (leaf == d[i] && proof == InclusionProof(h, d, i, |d|))
      || InclusionWitness(h, d, i, leaf, proof).Collides(h)
  {
    hide Node;
    var n, t := |d|, Height(|d|);
    HeightCovers(n);
    ShrMonotone(i, n - 1, t);
    RootNode(h, d, t, n);
    InclusionProofIsSiblings(h, d, i, n);
    assert proof[..|proof|] == proof;
    ClimbSound(h, d, i, n, t, leaf, proof);
  }

  /** The root that a proof leads to, by the recursion of section 2.1.1 of RFC 6962: the last hash is that of the half
      of `[lo, hi)` that does not hold `i`. */
  function RfcRoot(h: LogHasher, i: nat, lo: nat, hi: nat, leaf: Hash, proof: seq<Hash>): Option<Hash>
    requires lo <= i < hi
    decreases hi - lo
  {
    if hi - lo == 1 then
      if proof == [] then Some(leaf) else None
    else if proof == [] then None
    else
      var k, rest, last := lo + Split(hi - lo), proof[..|proof| - 1], proof[|proof| - 1];
      if i < k then
        match RfcRoot(h, i, lo, k, leaf, rest)
        case Some(below) => Some(h.HashChildren(below, last))
        case None => None
      else
        match RfcRoot(h, i, k, hi, leaf, rest)
        case Some(below) => Some(h.HashChildren(last, below))
        case None => None
  }

  lemma RfcRootStep(h: LogHasher, i: nat, lo: nat, k: nat, hi: nat, leaf: Hash, rest: seq<Hash>, last: Hash)
    requires lo <= i < hi && hi - lo > 1 && k == lo + Split(hi - lo)
    ensures RfcRoot(h, i, lo, hi, leaf, []) == None
    ensures i < k ==>
              RfcRoot(h, i, lo, hi, leaf, rest + [last]) ==
              match RfcRoot(h, i, lo, k, leaf, rest) case Some(x) => Some(h.HashChildren(x, last)) case None => None
    ensures k <= i ==>
              RfcRoot(h, i, lo, hi, leaf, rest + [last]) ==
              match RfcRoot(h, i, k, hi, leaf, rest) case Some(x) => Some(h.HashChildren(last, x)) case None => None
  {
    hide Split;
    var proof := rest + [last];
    assert proof[..|proof| - 1] == rest && proof[|proof| - 1] == last;
  }

  lemma {:induction false} ClimbPrefix(h: LogHasher, i: nat, n: nat, l: nat, leaf: Hash, rest: seq<Hash>, last: Hash)
    requires SiblingCount(i, n, 0, l) <= |rest|
    ensures Climb(h, i, n, l, leaf, rest + [last]) == Climb(h, i, n, l, leaf, rest)
  {
    hide HasSibling, Shr;
    if l > 0 { ClimbPrefix(h, i, n, l - 1, leaf, rest, last); }
  }

  /** Level by level, the climb is that recursion. */
  lemma {:induction false} ClimbIsRfc(h: LogHasher, i: nat, n: nat, l: nat, leaf: Hash, proof: seq<Hash>)
    requires i < n
    ensures Shl(Shr(i, l), l) <= i < End(l, Shr(i, l), n)
    ensures RfcRoot(h, i, Shl(Shr(i, l), l), End(l, Shr(i, l), n), leaf, proof) ==
              if |proof| == SiblingCount(i, n, 0, l) then Some(Climb(h, i, n, l, leaf, proof)) else None
    decreases l
  {
    hide Split, Shl, RfcRoot, Exists, End, SiblingAt;
    AncestorExists(i, n, l);
    if l == 0 {
      RfcLeaf(h, i, n, leaf, proof);
    } else {
      var d := seq(n, _ => leaf);
      var lo, k, hi := SiblingCases(h, d, i, n, l - 1);
      SiblingIff(i, n, l - 1);
      if !HasSibling(i, n, l - 1) {
        ClimbIsRfc(h, i, n, l - 1, leaf, proof);
      } else if proof == [] {
        RfcRootStep(h, i, lo, k, hi, leaf, [], leaf);
      } else {
        var rest, last := proof[..|proof| - 1], proof[|proof| - 1];
        assert proof == rest + [last];
        ClimbIsRfc(h, i, n, l - 1, leaf, rest);
        RfcRootStep(h, i, lo, k, hi, leaf, rest, last);
        if SiblingCount(i, n, 0, l - 1) <= |rest| { ClimbPrefix(h, i, n, l - 1, leaf, rest, last); }
      }
    }
  }

  lemma RfcLeaf(h: LogHasher, i: nat, n: nat, leaf: Hash, proof: seq<Hash>)
    requires i < n
    ensures Shl(Shr(i, 0), 0) <= i < End(0, Shr(i, 0), n)
    ensures RfcRoot(h, i, Shl(Shr(i, 0), 0), End(0, Shr(i, 0), n), leaf, proof) ==
              if proof == [] then Some(leaf) else None
  {
  }

  /** A sibling is the other child of the node above. */
  lemma SiblingIff(i: nat, n: nat, l: nat)
    requires i < n
    ensures HasSibling(i, n, l) <==> Exists(l, 2 * Shr(i, l + 1) + 1, n)
  {
    hide Exists;
    AncestorExists(i, n, l);
  }

  /** For every proof, the code computes what the recursion of the RFC does, and fails exactly by the number of hashes:
      that of the RFC's own proof is the right one. */
  lemma InclusionIsRfc(h: LogHasher, d: seq<Hash>, i: nat, n: nat, leaf: Hash, proof: seq<Hash>)
    requires i < n <= |d|
    ensures
      var r, want := InclusionRoot(h, i, n, proof, leaf), |InclusionProof(h, d, i, n)|;
      && (|proof| < want <==> r == Err(TooFewHashes))
      && (|proof| > want <==> r == Err(TooManyHashes))
      && (|proof| == want <==> r.Ok?)
      && RfcRoot(h, i, 0, n, leaf, proof) == if r.Ok? then Some(r.value) else None
  {
    hide RfcRoot, Climb, Path, SiblingPath, SiblingCount;
    var t := Height(n);
    HeightCovers(n);
    ShrMonotone(i, n - 1, t);
    ShlZero(t);
    ClimbIsRfc(h, i, n, t, leaf, proof);
    InclusionProofIsSiblings(h, d, i, n);
    SiblingPathLength(h, d, i, n, 0, t);
  }

  /** The other errors. */
  lemma InclusionRangeErrors(h: LogHasher, index: int, size: int, proof: seq<Hash>, leaf: Hash)
    ensures InclusionRoot(h, index, size, proof, leaf) == Err(NegativeIndex) <==> index < 0
    ensures InclusionRoot(h, index, size, proof, leaf) == Err(NegativeSize) <==> index >= 0 && size < 0
    ensures InclusionRoot(h, index, size, proof, leaf) == Err(IndexBeyondTree) <==> 0 <= size <= index
  {
  }

  // ---------- consistency ----------

  /** A proof from the size `i + 1` begins with a node of its own, unless the old tree is perfect. */
  function HeadCount(i: nat): nat {
    if Shr(i, TrailingOnes(i)) == 0 then 0 else 1
  }

  /** The old and the new tree's hash of the ancestor of `i` at level `l`, starting from `seed` and
      using up the siblings `tail` of a proof. */
  function ClimbBoth(h: LogHasher, i: nat, n: nat, l: nat, seed: Hash, tail: seq<Hash>): (Hash, Hash)
    requires SiblingCount(i, n, TrailingOnes(i), l) <= |tail|
  {
    if l <= TrailingOnes(i) then (seed, seed)
    else if HasSibling(i, n, l - 1) then
      var (older, newer) := ClimbBoth(h, i, n, l - 1, seed, tail);
      var sibling := tail[SiblingCount(i, n, TrailingOnes(i), l - 1)];
      if Shr(i, l - 1) % 2 == 1 then (h.HashChildren(sibling, older), h.HashChildren(sibling, newer))
      else (older, h.HashChildren(newer, sibling))
    else ClimbBoth(h, i, n, l - 1, seed, tail)
  }

  function Seed(i: nat, root1: Hash, proof: seq<Hash>): Hash {
    if HeadCount(i) == 0 || proof == [] then root1 else proof[0]
  }

  /** Checks in the order of the code: the old root first, at the level where the old tree ends. */
  function ConsistencyCheck(h: LogHasher, size1: int, size2: int, root1: Hash, root2: Hash, proof: seq<Hash>)
    : Result<(), ProofError>
  {
    if size1 < 0 then Err(NegativeSize)
    else if size2 < size1 then Err(SizesReversed)
    else if size1 == size2 then
      if root1 != root2 then Err(RootMismatch(root1, root2)) else if proof != [] then Err(ProofNotEmpty) else Ok(())
    else if size1 == 0 then
      if proof != [] then Err(ProofNotEmpty) else Ok(())
    else if proof == [] then Err(ProofEmpty)
    else
      var i := size1 - 1;
      var seed, tail := Seed(i, root1, proof), proof[HeadCount(i)..];
      var oldCount := SiblingCount(i, size2, TrailingOnes(i), BitLen(i));
      var newCount := SiblingCount(i, size2, TrailingOnes(i), Height(size2));
      if |tail| < oldCount then Err(TooFewHashes)
      else
        var older := ClimbBoth(h, i, size2, BitLen(i), seed, tail).0;
        if older != root1 then Err(RootMismatch(older, root1))
        else if |tail| < newCount then Err(TooFewHashes)
        else
          var newer := ClimbBoth(h, i, size2, Height(size2), seed, tail).1;
          if newer != root2 then Err(RootMismatch(newer, root2))
          else if |tail| > newCount then Err(TooManyHashes)
          else Ok(())
  }

  /** Below the top of the old tree, at least one more hash is due. */
  lemma OldTopHasSibling(i: nat, n: nat, l: nat)
    requires TrailingOnes(i) <= l < BitLen(i)
    ensures SiblingCount(i, n, TrailingOnes(i), l) < SiblingCount(i, n, TrailingOnes(i), BitLen(i))
  {
    var t := BitLen(i) - 1;
    BitLenLeast(i, t);
    BitLenLeast(i, t + 1);
    SiblingCountMonotone(i, n, TrailingOnes(i), l, t);
  }

  lemma ClimbStart(h: LogHasher, i: nat, n: nat, seed: Hash, tail: seq<Hash>)
    ensures SiblingCount(i, n, TrailingOnes(i), TrailingOnes(i)) == 0
    ensures ClimbBoth(h, i, n, TrailingOnes(i), seed, tail) == (seed, seed)
  {
  }

  /** One level of the climb. */
  lemma ClimbStep(h: LogHasher, i: nat, n: nat, l: nat, seed: Hash, tail: seq<Hash>)
    requires TrailingOnes(i) <= l && SiblingCount(i, n, TrailingOnes(i), l) < |tail|
    ensures
      var k := SiblingCount(i, n, TrailingOnes(i), l);
      var (older, newer) := ClimbBoth(h, i, n, l, seed, tail);
      && SiblingCount(i, n, TrailingOnes(i), l + 1) == k + (if HasSibling(i, n, l) then 1 else 0)
      && ClimbBoth(h, i, n, l + 1, seed, tail) ==
           if !HasSibling(i, n, l) then (older, newer)
           else if Shr(i, l) % 2 == 1 then (h.HashChildren(tail[k], older), h.HashChildren(tail[k], newer))
           else (older, h.HashChildren(newer, tail[k]))
  {
    hide HasSibling, Shr, TrailingOnes;
  }

  method VerifyConsistencyProof(h: LogHasher, snapshot1: int, snapshot2: int, root1: Hash, root2: Hash,
                                proof: seq<Hash>)
      returns (r: Result<(), ProofError>)
    ensures r == ConsistencyCheck(h, snapshot1, snapshot2, root1, root2, proof)
    ensures r.Ok? <==>
              || (0 <= snapshot1 == snapshot2 && root1 == root2 && proof == [])
              || (0 == snapshot1 < snapshot2 && proof == [])
              || (0 < snapshot1 < snapshot2 &&
                  RfcRoots(h, snapshot1, 0, snapshot2, true, root1, proof) == Some((root1, root2)))
  {
    hide RfcRoots, ClimbBoth, SiblingCount, HeadCount, TrailingOnes, BitLen;
    r := CheckConsistency(h, snapshot1, snapshot2, root1, root2, proof);
    if 0 < snapshot1 < snapshot2 { ConsistencyIsRfc(h, snapshot1, snapshot2, root1, root2, proof); }
  }

  method CheckConsistency(h: LogHasher, snapshot1: int, snapshot2: int, root1: Hash, root2: Hash, proof: seq<Hash>)
      returns (r: Result<(), ProofError>)
    ensures r == ConsistencyCheck(h, snapshot1, snapshot2, root1, root2, proof)
  {
    hide Shr, Exists, BitLen, TrailingOnes, Height, SiblingCount, ClimbBoth;
    if snapshot1 < 0 { return Err(NegativeSize); }
    if snapshot2 < snapshot1 { return Err(SizesReversed); }
    if snapshot1 == snapshot2 {
      if root1 != root2 { return Err(RootMismatch(root1, root2)); }
      if |proof| > 0 { return Err(ProofNotEmpty); }
      return Ok(());
    }
    if snapshot1 == 0 {
      if |proof| > 0 { return Err(ProofNotEmpty); }
      return Ok(());
    }
    if |proof| == 0 { return Err(ProofEmpty); }

    ghost var i := snapshot1 - 1;
    ghost var a, t, top := TrailingOnes(i), BitLen(i), Height(snapshot2);
    ghost var l := 0;
    var node := snapshot1 - 1;
    var lastNode := snapshot2 - 1;
    var proofIndex := 0;
    ShrStep(i, 0);
    ShrStep(snapshot2 - 1, 0);
    TrailingOnesStep(i, 0);
    while node % 2 == 1
      invariant node == Shr(i, l) && lastNode == Shr(snapshot2 - 1, l)
      invariant l <= a && (node % 2 == 1 <==> l < a)
      decreases a - l
    {
      ShrStep(i, l);
      node := node / 2;
      ShrStep(snapshot2 - 1, l);
      lastNode := lastNode / 2;
      l := l + 1;
      TrailingOnesStep(i, l);
    }
    TrailingOnesBelowBitLen(i);
    BitLenLeast(i, a);

    var node1Hash, node2Hash;
    if node > 0 {
      node1Hash, node2Hash := proof[0], proof[0];
      proofIndex := proofIndex + 1;
    } else {
      node1Hash, node2Hash := root1, root1;
    }
    ghost var seed, tail, head := Seed(i, root1, proof), proof[HeadCount(i)..], HeadCount(i);
    ClimbStart(h, i, snapshot2, seed, tail);

    while node > 0
      invariant a <= l <= t && (node > 0 <==> l < t)
      invariant node == Shr(i, l) && lastNode == Shr(snapshot2 - 1, l)
      invariant proofIndex - head == SiblingCount(i, snapshot2, a, l) <= |tail|
      invariant (node1Hash, node2Hash) == ClimbBoth(h, i, snapshot2, l, seed, tail)
      decreases t - l
    {
      OldTopHasSibling(i, snapshot2, l);
      if proofIndex >= |proof| { return Err(TooFewHashes); }
      ExistsIff(l, node + 1, snapshot2);
      ClimbStep(h, i, snapshot2, l, seed, tail);
      if node % 2 == 1 {
        node1Hash := h.HashChildren(proof[proofIndex], node1Hash);
        node2Hash := h.HashChildren(proof[proofIndex], node2Hash);
        proofIndex := proofIndex + 1;
      } else if node < lastNode {
        node2Hash := h.HashChildren(node2Hash, proof[proofIndex]);
        proofIndex := proofIndex + 1;
      }
      ShrStep(i, l);
      node := node / 2;
      ShrStep(snapshot2 - 1, l);
      lastNode := lastNode / 2;
      l := l + 1;
      BitLenLeast(i, l);
    }
    if node1Hash != root1 { return Err(RootMismatch(node1Hash, root1)); }

    OldTopBelowNewTop(i, snapshot2);
    BelowHeight(snapshot2, l);
    while lastNode > 0
      invariant t <= l <= top && (lastNode > 0 <==> l < top)
      invariant lastNode == Shr(snapshot2 - 1, l)
      invariant proofIndex - head == SiblingCount(i, snapshot2, a, l) <= |tail|
      invariant node2Hash == ClimbBoth(h, i, snapshot2, l, seed, tail).1
      decreases top - l
    {
      TopLevelHasSibling(i, snapshot2, a, l);
      if proofIndex >= |proof| { return Err(TooFewHashes); }
      BitLenLeast(i, l);
      ExistsIff(l, 1, snapshot2);
      ClimbStep(h, i, snapshot2, l, seed, tail);
      node2Hash := h.HashChildren(node2Hash, proof[proofIndex]);
      proofIndex := proofIndex + 1;
      ShrStep(snapshot2 - 1, l);
      lastNode := lastNode / 2;
      l := l + 1;
      BelowHeight(snapshot2, l);
    }
    if node2Hash != root2 { return Err(RootMismatch(node2Hash, root2)); }
    if proofIndex != |proof| { return Err(TooManyHashes); }
    return Ok(());
  }

  lemma OldTopBelowNewTop(i: nat, n: nat)
    requires i < n
    ensures BitLen(i) <= Height(n)
  {
    HeightCovers(n);
    BitLenLeast(i, Height(n));
  }

  /** The older tree ends at `i`, so an ancestor of `i` never has a right sibling in it. */
  lemma OldNodeAbove(h: LogHasher, d: seq<Hash>, i: nat, n: nat, l: nat)
    requires i + 1 <= n <= |d| && TrailingOnes(i) <= l
    ensures Exists(l, Shr(i, l), i + 1) && Exists(l + 1, Shr(i, l + 1), i + 1)
    ensures Shr(i, l) % 2 == 1 ==>
              && |SiblingAt(h, d, i, n, l)| == 1
              && Node(h, d, l + 1, Shr(i, l + 1), i + 1)
                 == h.HashChildren(SiblingAt(h, d, i, n, l)[0], Node(h, d, l, Shr(i, l), i + 1))
    ensures Shr(i, l) % 2 == 0 ==> Node(h, d, l + 1, Shr(i, l + 1), i + 1) == Node(h, d, l, Shr(i, l), i + 1)
  {
    hide MTH, Node, Shl, Pow2;
    var x := Shr(i, l);
    AncestorExists(i, n, l);
    AncestorExists(i, i + 1, l);
    NodeAbove(h, d, i, i + 1, l);
    ExistsIff(l, x + 1, i + 1);
    if x % 2 == 1 {
      ShlSucc(x - 1, l);
      ShrBounds(i, l);
      NodeStable(h, d, l, x - 1, i + 1, n);
    }
  }

  /** Fed the true siblings, both climbs pass through the true nodes of their trees. */
  lemma {:induction false} ClimbBothTrue(h: LogHasher, d: seq<Hash>, i: nat, n: nat, l: nat, seed: Hash,
                                         tail: seq<Hash>)
    requires i < n <= |d| && TrailingOnes(i) <= l && SiblingCount(i, n, TrailingOnes(i), l) <= |tail|
    requires Exists(TrailingOnes(i), Shr(i, TrailingOnes(i)), n)
    requires seed == Node(h, d, TrailingOnes(i), Shr(i, TrailingOnes(i)), n)
    requires tail[..SiblingCount(i, n, TrailingOnes(i), l)] == SiblingPath(h, d, i, n, TrailingOnes(i), l)
    ensures Exists(l, Shr(i, l), i + 1) && Exists(l, Shr(i, l), n)
    ensures ClimbBoth(h, i, n, l, seed, tail) == (Node(h, d, l, Shr(i, l), i + 1), Node(h, d, l, Shr(i, l), n))
  {
    hide Node, Shl, Shr, Exists, End, SiblingAt, SiblingCount, SiblingPath;
    var a := TrailingOnes(i);
    AncestorExists(i, i + 1, l);
    AncestorExists(i, n, l);
    if l == a {
      EdgeStable(h, d, i, n);
    } else {
      LastSibling(h, d, i, n, a, l, tail);
      ClimbBothTrue(h, d, i, n, l - 1, seed, tail);
      NodeAbove(h, d, i, n, l - 1);
      OldNodeAbove(h, d, i, n, l - 1);
    }
  }

  lemma EdgeStable(h: LogHasher, d: seq<Hash>, i: nat, n: nat)
    requires i < n <= |d|
    ensures var a := TrailingOnes(i);
            && Exists(a, Shr(i, a), i + 1) && Exists(a, Shr(i, a), n)
            && Node(h, d, a, Shr(i, a), i + 1) == Node(h, d, a, Shr(i, a), n)
  {
    CompleteEdge(i, TrailingOnes(i));
    NodeStable(h, d, TrailingOnes(i), Shr(i, TrailingOnes(i)), i + 1, n);
  }

  /** Looks down from level `l` for the first level at which the newer climb left the tree over `d`. */
  function ConsistencyCollision(h: LogHasher, d: seq<Hash>, i: nat, n: nat, l: nat, seed: Hash, tail: seq<Hash>): Pairs
    requires i < n <= |d| && SiblingCount(i, n, TrailingOnes(i), l) <= |tail|
  {
    if l <= TrailingOnes(i) then Pairs(seed, seed, seed, seed)
    else
      var x := Shr(i, l - 1);
      var truth := SiblingAt(h, d, i, n, l - 1);
      if HasSibling(i, n, l - 1) && truth != [] && Exists(l - 1, x, n) then
        var newer := ClimbBoth(h, i, n, l - 1, seed, tail).1;
        var sibling := tail[SiblingCount(i, n, TrailingOnes(i), l - 1)];
        var node := Node(h, d, l - 1, x, n);
        var found :=
          if x % 2 == 1 then Pairs(sibling, newer, truth[0], node) else Pairs(newer, sibling, node, truth[0]);
        if found.Collides(h) then found else ConsistencyCollision(h, d, i, n, l - 1, seed, tail)
      else ConsistencyCollision(h, d, i, n, l - 1, seed, tail)
  }

  /** If the newer climb meets the tree over `d`, the older climb meets the tree over `d[..i + 1]`. */
  lemma {:induction false} ClimbBothSound(h: LogHasher, d: seq<Hash>, i: nat, n: nat, l: nat, seed: Hash,
                                          tail: seq<Hash>)
    requires i < n <= |d| && TrailingOnes(i) <= l && SiblingCount(i, n, TrailingOnes(i), l) <= |tail|
    requires Exists(l, Shr(i, l), n) && Exists(l, Shr(i, l), i + 1)
    requires Exists(TrailingOnes(i), Shr(i, TrailingOnes(i)), n)
    requires ClimbBoth(h, i, n, l, seed, tail).1 == Node(h, d, l, Shr(i, l), n)
    ensures
      || ConsistencyCollision(h, d, i, n, l, seed, tail).Collides(h)
      || (&& ClimbBoth(h, i, n, l, seed, tail).0 == Node(h, d, l, Shr(i, l), i + 1)
          && seed == Node(h, d, TrailingOnes(i), Shr(i, TrailingOnes(i)), n)
          && tail[..SiblingCount(i, n, TrailingOnes(i), l)] == SiblingPath(h, d, i, n, TrailingOnes(i), l))
  {
    hide Node, MTH, HasSibling, SiblingAt, Shl, Shr, Exists, Pow2;
    var a := TrailingOnes(i);
    if l == a {
      EdgeStable(h, d, i, n);
    } else {
      LastSibling(h, d, i, n, a, l, tail);
      NodeAbove(h, d, i, n, l - 1);
      OldNodeAbove(h, d, i, n, l - 1);
      if !ConsistencyCollision(h, d, i, n, l, seed, tail).Collides(h) {
        ClimbBothSound(h, d, i, n, l - 1, seed, tail);
      }
    }
  }

  /** The seed and tail of a proof against the RFC 6962 proof. */
  lemma ProofParts(h: LogHasher, d: seq<Hash>, i: nat, n: nat, root1: Hash, proof: seq<Hash>)
    requires i + 1 < n <= |d| && proof != []
    ensures |ProofHead(h, d, i)| == HeadCount(i)
    ensures Exists(TrailingOnes(i), Shr(i, TrailingOnes(i)), n)
    ensures
      var a, top := TrailingOnes(i), Height(n);
      var seed, tail := Seed(i, root1, proof), proof[HeadCount(i)..];
      && (HeadCount(i) == 0 ==> Node(h, d, a, Shr(i, a), n) == MTH(h, d, 0, i + 1))
      && (proof == ConsistencyProof(h, d, i + 1, n) <==>
            && tail == SiblingPath(h, d, i, n, a, top)
            && (HeadCount(i) != 0 ==> seed == Node(h, d, a, Shr(i, a), n)))
  {
    var a, top := TrailingOnes(i), Height(n);
    hide Node, SiblingPath, Path, SubProof;
    EdgeStable(h, d, i, n);
    ConsistencyProofIsSiblings(h, d, i, n);
    var head, rest := ProofHead(h, d, i), SiblingPath(h, d, i, n, a, top);
    assert proof == proof[..HeadCount(i)] + proof[HeadCount(i)..];
    if HeadCount(i) == 0 {
      CompleteEdge(i, a);
      ShlZero(a);
      RootNode(h, d, a, i + 1);
      assert head == [];
    } else {
      assert head == [Node(h, d, a, Shr(i, a), i + 1)];
      assert (head + rest)[0] == head[0] && (head + rest)[1..] == rest;
    }
  }

  /** The top of the climb in the terms of the two roots. */
  lemma ClimbBothTop(h: LogHasher, d: seq<Hash>, i: nat, n: nat, seed: Hash, tail: seq<Hash>)
    requires i + 1 < n <= |d|
    requires SiblingCount(i, n, TrailingOnes(i), Height(n)) <= |tail|
    ensures TrailingOnes(i) <= BitLen(i) <= Height(n)
    ensures SiblingCount(i, n, TrailingOnes(i), BitLen(i)) <= |tail|
    ensures ClimbBoth(h, i, n, BitLen(i), seed, tail).0 == ClimbBoth(h, i, n, Height(n), seed, tail).0
    ensures Shr(i, Height(n)) == 0
    ensures Exists(Height(n), 0, n) && Node(h, d, Height(n), 0, n) == MTH(h, d, 0, n)
    ensures Exists(Height(n), 0, i + 1) && Node(h, d, Height(n), 0, i + 1) == MTH(h, d, 0, i + 1)
  {
    TrailingOnesBelowBitLen(i);
    OldTopBelowNewTop(i, n);
    SiblingCountMonotone(i, n, TrailingOnes(i), BitLen(i), Height(n));
    OldClimbDone(h, i, n, Height(n), seed, tail);
    BitLenLeast(i, Height(n));
    HeightCovers(n);
    RootNode(h, d, Height(n), n);
    RootNode(h, d, Height(n), i + 1);
  }

  /** Above the top of the old tree its hash no longer changes. */
  lemma {:induction false} OldClimbDone(h: LogHasher, i: nat, n: nat, l: nat, seed: Hash, tail: seq<Hash>)
    requires TrailingOnes(i) <= BitLen(i) <= l
    requires SiblingCount(i, n, TrailingOnes(i), l) <= |tail|
    ensures SiblingCount(i, n, TrailingOnes(i), BitLen(i)) <= |tail|
    ensures ClimbBoth(h, i, n, BitLen(i), seed, tail).0 == ClimbBoth(h, i, n, l, seed, tail).0
  {
    hide Shl, Shr, Pow2;
    if BitLen(i) < l {
      OldClimbDone(h, i, n, l - 1, seed, tail);
      BitLenLeast(i, l - 1);
    }
  }

  /** The old and the new root that a proof leads to, by the recursion of section 2.1.2 of RFC 6962: the last hash is
      that of the half of `[lo, hi)` in which the first `m` leaves do not end, and the first one, unless the old tree is
      a node of the new, that of the old leaves in the last part. */
  function RfcRoots(h: LogHasher, m: nat, lo: nat, hi: nat, b: bool, root1: Hash,
                    proof: seq<Hash>): Option<(Hash, Hash)>
    requires lo < m <= hi
    decreases hi - lo
  {
    if m == hi then
      if b && proof == [] then Some((root1, root1))
      else if !b && |proof| == 1 then Some((proof[0], proof[0]))
      else None
    else if proof == [] then None
    else
      var k, rest, last := lo + Split(hi - lo), proof[..|proof| - 1], proof[|proof| - 1];
      if m <= k then
        match RfcRoots(h, m, lo, k, b, root1, rest)
        case Some((older, newer)) => Some((older, h.HashChildren(newer, last)))
        case None => None
      else
        match RfcRoots(h, m, k, hi, false, root1, rest)
        case Some((older, newer)) => Some((h.HashChildren(last, older), h.HashChildren(last, newer)))
        case None => None
  }

  /** The two roots at level `l`, if the proof has as many hashes as it takes. */
  function RootsAt(h: LogHasher, i: nat, n: nat, l: nat, root1: Hash, proof: seq<Hash>): Option<(Hash, Hash)> {
    if |proof| == HeadCount(i) + SiblingCount(i, n, TrailingOnes(i), l) then
      Some(ClimbBoth(h, i, n, l, Seed(i, root1, proof), proof[HeadCount(i)..]))
    else None
  }

  lemma RfcRootsStep(h: LogHasher, m: nat, lo: nat, k: nat, hi: nat, b: bool, root1: Hash, rest: seq<Hash>, last: Hash)
    requires lo < m < hi && k == lo + Split(hi - lo)
    ensures RfcRoots(h, m, lo, hi, b, root1, []) == None
    ensures m <= k ==>
              RfcRoots(h, m, lo, hi, b, root1, rest + [last]) ==
              match RfcRoots(h, m, lo, k, b, root1, rest)
              case Some((older, newer)) => Some((older, h.HashChildren(newer, last)))
              case None => None
    ensures k < m ==>
              RfcRoots(h, m, lo, hi, b, root1, rest + [last]) ==
              match RfcRoots(h, m, k, hi, false, root1, rest)
              case Some((older, newer)) => Some((h.HashChildren(last, older), h.HashChildren(last, newer)))
              case None => None
  {
    hide Split;
    var proof := rest + [last];
    assert proof[..|proof| - 1] == rest && proof[|proof| - 1] == last;
  }

  lemma {:induction false} ClimbBothPrefix(h: LogHasher, i: nat, n: nat, l: nat, seed: Hash, rest: seq<Hash>,
                                           last: Hash)
    requires SiblingCount(i, n, TrailingOnes(i), l) <= |rest|
    ensures ClimbBoth(h, i, n, l, seed, rest + [last]) == ClimbBoth(h, i, n, l, seed, rest)
  {
    hide HasSibling, Shr, TrailingOnes;
    if l > TrailingOnes(i) { ClimbBothPrefix(h, i, n, l - 1, seed, rest, last); }
  }

  /** One more hash, for a sibling at level `l`. */
  lemma RootsAtStep(h: LogHasher, i: nat, n: nat, l: nat, root1: Hash, rest: seq<Hash>, last: Hash)
    requires TrailingOnes(i) <= l && HasSibling(i, n, l)
    ensures RootsAt(h, i, n, l + 1, root1, []) == None
    ensures RootsAt(h, i, n, l + 1, root1, rest + [last]) ==
              match RootsAt(h, i, n, l, root1, rest)
              case None => None
              case Some((older, newer)) =>
                Some(if Shr(i, l) % 2 == 1 then (h.HashChildren(last, older), h.HashChildren(last, newer))
                     else (older, h.HashChildren(newer, last)))
  {
    hide HasSibling, Shr, TrailingOnes, ClimbBoth;
    var head, proof := HeadCount(i), rest + [last];
    if |rest| == head + SiblingCount(i, n, TrailingOnes(i), l) {
      assert proof[head..] == rest[head..] + [last];
      assert Seed(i, root1, proof) == Seed(i, root1, rest);
      ClimbBothPrefix(h, i, n, l, Seed(i, root1, rest), rest[head..], last);
      ClimbStep(h, i, n, l, Seed(i, root1, rest), proof[head..]);
    }
  }

  /** At the top of the complete edge of the old tree. */
  lemma RfcRootsBase(h: LogHasher, i: nat, n: nat, root1: Hash, proof: seq<Hash>)
    requires i < n
    ensures
      var a := TrailingOnes(i);
      && Shl(Shr(i, a), a) <= i && i + 1 == End(a, Shr(i, a), n)
      && RfcRoots(h, i + 1, Shl(Shr(i, a), a), i + 1, Shr(i, a) == 0, root1, proof) == RootsAt(h, i, n, a, root1, proof)
  {
    CompleteEdge(i, TrailingOnes(i));
    if |proof| == HeadCount(i) { ClimbStart(h, i, n, Seed(i, root1, proof), proof[HeadCount(i)..]); }
  }

  /** Level by level, the climb is that recursion. */
  lemma {:induction false} ClimbBothIsRfc(h: LogHasher, i: nat, n: nat, l: nat, root1: Hash, proof: seq<Hash>)
    requires i + 1 < n && TrailingOnes(i) <= l
    ensures Shl(Shr(i, l), l) <= i < End(l, Shr(i, l), n)
    ensures RfcRoots(h, i + 1, Shl(Shr(i, l), l), End(l, Shr(i, l), n), Shr(i, l) == 0, root1, proof) ==
            RootsAt(h, i, n, l, root1, proof)
    decreases l
  {
    hide Split, Shl, RfcRoots, Exists, End, SiblingAt, RootsAt, TrailingOnes, Pow2, HasSibling;
    AncestorExists(i, n, l);
    if l == TrailingOnes(i) {
      RfcRootsBase(h, i, n, root1, proof);
    } else {
      var d := seq(n, _ => root1);
      var lo, k, hi := SiblingCases(h, d, i, n, l - 1);
      EdgeEndsBelow(i, n, l);
      SiblingIff(i, n, l - 1);
      ShrStep(i, l - 1);
      if !HasSibling(i, n, l - 1) {
        ClimbBothIsRfc(h, i, n, l - 1, root1, proof);
        NoSiblingStep(h, i, n, l - 1, root1, proof);
      } else if proof == [] {
        RfcRootsStep(h, i + 1, lo, k, hi, Shr(i, l) == 0, root1, [], root1);
        RootsAtStep(h, i, n, l - 1, root1, [], root1);
      } else {
        var rest, last := proof[..|proof| - 1], proof[|proof| - 1];
        assert proof == rest + [last];
        ClimbBothIsRfc(h, i, n, l - 1, root1, rest);
        RfcRootsStep(h, i + 1, lo, k, hi, Shr(i, l) == 0, root1, rest, last);
        RootsAtStep(h, i, n, l - 1, root1, rest, last);
      }
    }
  }

  lemma NoSiblingStep(h: LogHasher, i: nat, n: nat, l: nat, root1: Hash, proof: seq<Hash>)
    requires TrailingOnes(i) <= l && !HasSibling(i, n, l)
    ensures RootsAt(h, i, n, l + 1, root1, proof) == RootsAt(h, i, n, l, root1, proof)
  {
    hide HasSibling, Shr, TrailingOnes;
  }

  /** For every proof and any two roots, between two trees with leaves: accepted exactly if the recursion of the RFC
      leads to both roots. */
  lemma ConsistencyIsRfc(h: LogHasher, m: nat, n: nat, root1: Hash, root2: Hash, proof: seq<Hash>)
    requires 0 < m < n
    ensures ConsistencyCheck(h, m, n, root1, root2, proof).Ok? <==>
            RfcRoots(h, m, 0, n, true, root1, proof) == Some((root1, root2))
  {
    hide RfcRoots, ClimbBoth, SiblingCount, Shr, TrailingOnes, Shl;
    var i, t := m - 1, Height(n);
    HeightCovers(n);
    ShrMonotone(i, n - 1, t);
    ShlZero(t);
    EdgeBelowHeight(i, n);
    ClimbBothIsRfc(h, i, n, t, root1, proof);
    TopLevelHasSibling(i, n, TrailingOnes(i), TrailingOnes(i));
    ClimbStart(h, i, n, root1, proof);
    TrailingOnesBelowBitLen(i);
    OldTopBelowNewTop(i, n);
    SiblingCountMonotone(i, n, TrailingOnes(i), BitLen(i), t);
    if proof != [] && |proof| == HeadCount(i) + SiblingCount(i, n, TrailingOnes(i), t) {
      OldClimbDone(h, i, n, t, Seed(i, root1, proof), proof[HeadCount(i)..]);
    }
  }

  /** If it leads to other roots, the old one is reported first. */
  lemma WrongRootsReported(h: LogHasher, m: nat, n: nat, root1: Hash, root2: Hash, proof: seq<Hash>, older: Hash,
                           newer: Hash)
    requires 0 < m < n && RfcRoots(h, m, 0, n, true, root1, proof) == Some((older, newer))
    ensures older != root1 ==> ConsistencyCheck(h, m, n, root1, root2, proof) == Err(RootMismatch(older, root1))
    ensures older == root1 && newer != root2 ==>
              ConsistencyCheck(h, m, n, root1, root2, proof) == Err(RootMismatch(newer, root2))
  {
    hide RfcRoots, ClimbBoth, SiblingCount, Shr, TrailingOnes, Shl;
    var i, t := m - 1, Height(n);
    HeightCovers(n);
    ShrMonotone(i, n - 1, t);
    ShlZero(t);
    EdgeBelowHeight(i, n);
    ClimbBothIsRfc(h, i, n, t, root1, proof);
    TopLevelHasSibling(i, n, TrailingOnes(i), TrailingOnes(i));
    ClimbStart(h, i, n, root1, proof);
    TrailingOnesBelowBitLen(i);
    OldTopBelowNewTop(i, n);
    SiblingCountMonotone(i, n, TrailingOnes(i), BitLen(i), t);
    OldClimbDone(h, i, n, t, Seed(i, root1, proof), proof[HeadCount(i)..]);
  }

  /** From the empty tree: only the empty proof, and the old root is not looked at unless the new tree is empty too. */
  lemma ConsistencyFromEmpty(h: LogHasher, n: nat, root1: Hash, root2: Hash, proof: seq<Hash>)
    ensures ConsistencyCheck(h, 0, n, root1, root2, proof).Ok? <==> proof == [] && (n == 0 ==> root1 == root2)
    ensures proof != [] && (n == 0 ==> root1 == root2) ==>
              ConsistencyCheck(h, 0, n, root1, root2, proof) == Err(ProofNotEmpty)
  {
  }

  /** Which error is reported: by the sizes, then by the number of hashes, which is that of the RFC's proof, unless one
      of the roots is not reached before the hashes run out. */
  lemma ConsistencyErrors(h: LogHasher, d: seq<Hash>, size1: int, size2: int, root1: Hash, root2: Hash,
                          proof: seq<Hash>)
    ensures
      var r := ConsistencyCheck(h, size1, size2, root1, root2, proof);
      && (r == Err(NegativeSize) <==> size1 < 0)
      && (r == Err(SizesReversed) <==> size1 >= 0 && size2 < size1)
      && (r == Err(ProofNotEmpty) <==>
            size1 >= 0 && proof != [] && if size1 == size2 then root1 == root2 else 0 == size1 < size2)
      && (0 <= size1 == size2 && root1 != root2 ==> r == Err(RootMismatch(root1, root2)))
      && (r == Err(ProofEmpty) <==> 0 < size1 < size2 && proof == [])
      && (0 < size1 < size2 <= |d| && proof != [] ==>
            var want := |ConsistencyProof(h, d, size1, size2)|;
            && (|proof| < want ==> r == Err(TooFewHashes) || (r.Err? && r.error.RootMismatch?))
            && (|proof| > want ==> r == Err(TooManyHashes) || (r.Err? && r.error.RootMismatch?))
            && (|proof| == want ==> r.Ok? || r.error.RootMismatch?))
  {
    hide ClimbBoth, SiblingCount, Shr, TrailingOnes, SubProof, SiblingPath, ProofHead;
    if 0 < size1 < size2 <= |d| && proof != [] {
      var i, n := size1 - 1, size2;
      ConsistencyProofIsSiblings(h, d, i, n);
      SiblingPathLength(h, d, i, n, TrailingOnes(i), Height(n));
      ProofParts(h, d, i, n, root1, proof);
      TrailingOnesBelowBitLen(i);
      OldTopBelowNewTop(i, n);
      SiblingCountMonotone(i, n, TrailingOnes(i), BitLen(i), Height(n));
    }
  }

  /** PROOF, and no hashes from the empty tree. */
  function ProofBetween(h: LogHasher, d: seq<Hash>, m: nat, n: nat): seq<Hash>
    requires m <= n <= |d|
  {
    if m == 0 then [] else ConsistencyProof(h, d, m, n)
  }

  /** Between the roots of two prefixes of `d` the RFC 6962 proof is accepted. */
  lemma ConsistencyComplete(h: LogHasher, d: seq<Hash>, m: nat, n: nat)
    requires m <= n <= |d|
    ensures ConsistencyCheck(h, m, n, MTH(h, d, 0, m), MTH(h, d, 0, n), ProofBetween(h, d, m, n)).Ok?
  {
    hide MTH, ConsistencyCheck, SubProof;
    if m == 0 {
      ConsistencyFromEmpty(h, n, MTH(h, d, 0, 0), MTH(h, d, 0, n), []);
    } else if m == n {
      SameSizes(h, d, n);
    } else {
      TrueProofAccepted(h, d, m - 1, n);
    }
  }

  lemma SameSizes(h: LogHasher, d: seq<Hash>, n: nat)
    requires 0 < n <= |d|
    ensures ConsistencyCheck(h, n, n, MTH(h, d, 0, n), MTH(h, d, 0, n), ConsistencyProof(h, d, n, n)).Ok?
  {
    hide MTH;
  }

  lemma TrueProofAccepted(h: LogHasher, d: seq<Hash>, i: nat, n: nat)
    requires i + 1 < n <= |d|
    ensures ConsistencyCheck(h, i + 1, n, MTH(h, d, 0, i + 1), MTH(h, d, 0, n), ConsistencyProof(h, d, i + 1, n)).Ok?
  {
    hide MTH, Node, Shl, ClimbBoth, Height, SiblingPath, TrailingOnes, SubProof, Seed, HeadCount, SiblingCount;
    var a, top, proof := TrailingOnes(i), Height(n), ConsistencyProof(h, d, i + 1, n);
    ConsistencyProofIsSiblings(h, d, i, n);
    SiblingPathLength(h, d, i, n, a, top);
    TopLevelHasSibling(i, n, a, a);
    assert proof != [];
    ProofParts(h, d, i, n, MTH(h, d, 0, i + 1), proof);
    SeedOfRoot(i, MTH(h, d, 0, i + 1), proof);
    var seed, tail := Seed(i, MTH(h, d, 0, i + 1), proof), proof[HeadCount(i)..];
    assert tail[..|tail|] == tail;
    ClimbBothTop(h, d, i, n, seed, tail);
    ClimbBothTrue(h, d, i, n, top, seed, tail);
  }

  lemma SeedOfRoot(i: nat, root1: Hash, proof: seq<Hash>)
    ensures HeadCount(i) <= 1 && (HeadCount(i) == 0 ==> Seed(i, root1, proof) == root1)
  {
  }

  /** The collision that a wrong but accepted consistency proof gives away. */
  function ConsistencyWitness(h: LogHasher, d: seq<Hash>, m: nat, root1: Hash, proof: seq<Hash>): Pairs {
    if 0 < m < |d| && proof != []
       && |proof| >= HeadCount(m - 1) + SiblingCount(m - 1, |d|, TrailingOnes(m - 1), Height(|d|))
    then ConsistencyCollision(h, d, m - 1, |d|, Height(|d|), Seed(m - 1, root1, proof), proof[HeadCount(m - 1)..])
    else Pairs(root1, root1, root1, root1)
  }

  /** Append-only: a proof accepted against the root of `d` forces the older root to be that of a prefix of `d`, unless
      the older tree is empty and the newer is not, and to be the RFC 6962 proof, or gives away a collision. */
  lemma ConsistencySound(h: LogHasher, d: seq<Hash>, m: nat, root1: Hash, proof: seq<Hash>)
    requires ConsistencyCheck(h, m, |d|, root1, Root(h, d), proof).Ok?
    ensures m <= |d|
    ensures
      || (proof == ProofBetween(h, d, m, |d|) && (m > 0 || d == [] ==> root1 == MTH(h, d, 0, m)))
      || ConsistencyWitness(h, d, m, root1, proof).Collides(h)
  {
    hide Pow2, ConsistencyCollision, ProofHead, ConsistencyWitness;
    if 0 < m < |d| { AcceptedProofSound(h, d, m - 1, root1, proof); }
  }

  lemma AcceptedProofSound(h: LogHasher, d: seq<Hash>, i: nat, root1: Hash, proof: seq<Hash>)
    requires i + 1 < |d| && ConsistencyCheck(h, i + 1, |d|, root1, Root(h, d), proof).Ok?
    ensures
      || (root1 == MTH(h, d, 0, i + 1) && proof == ConsistencyProof(h, d, i + 1, |d|))
      || ConsistencyWitness(h, d, i + 1, root1, proof).Collides(h)
  {
    hide Pow2, ConsistencyCollision, ProofHead;
    var n := |d|;
    var a, top := TrailingOnes(i), Height(n);
    var seed, tail := Seed(i, root1, proof), proof[HeadCount(i)..];
    assert tail[..|tail|] == tail;
    ProofParts(h, d, i, n, root1, proof);
    ClimbBothTop(h, d, i, n, seed, tail);
    ClimbBothSound(h, d, i, n, top, seed, tail);
  }

  /** For example: from zero leaves to one, any two different old roots are accepted. */
  lemma EmptyRootUnchecked(h: LogHasher, leaf: Hash, a: Hash, b: Hash)
    requires a != b
    ensures ConsistencyCheck(h, 0, 1, a, Root(h, [leaf]), []).Ok?
            && ConsistencyCheck(h, 0, 1, b, Root(h, [leaf]), []).Ok?
    ensures a != MTH(h, [leaf], 0, 0) || b != MTH(h, [leaf], 0, 0)
  {
  }

  /** Two honest roots with an accepted proof between them belong to one log: the older leaves are a prefix of
      the newer, or the proof or the two lists give away a collision. */
  lemma HonestRootsArePrefixes(h: LogHasher, d: seq<Hash>, e: seq<Hash>, proof: seq<Hash>)
    requires 0 < |e| && ConsistencyCheck(h, |e|, |d|, Root(h, e), Root(h, d), proof).Ok?
    ensures |e| <= |d|
    ensures
      || e == d[..|e|]
      || ConsistencyWitness(h, d, |e|, Root(h, e), proof).Collides(h)
      || RootCollision(h, e, d, 0, |e|).Collides(h)
  {
    hide MTH, ConsistencyCheck, ConsistencyWitness, RootCollision;
    ConsistencySound(h, d, |e|, Root(h, e), proof);
    if Root(h, e) == MTH(h, d, 0, |e|) {
      MTHInjective(h, e, d, 0, |e|);
      assert e == e[0..|e|];
    }
  }
}
