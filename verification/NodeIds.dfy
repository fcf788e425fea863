/** Node ids (storage/types.go): a path of bytes of which the leading `prefixLenBits` bits count. They are values
    here: what the source changes in place is a new value. */
module NodeIds {
  import opened Bits
  import opened Hashing
  import opened LogTree
  import opened MerklePath

  type Byte = b: nat | b < 256

  /** Bit `k` of a path, counted from the left. */
  predicate PathBit(path: seq<Byte>, k: nat)
    requires k < 8 * |path|
  {
    BitSet(path[k / 8], 7 - k % 8)
  }

  datatype NodeID = NodeID(path: seq<Byte>, prefixLenBits: nat) {
    predicate Valid() {
      prefixLenBits <= 8 * |path|
    }

    /** The bits that count, which `String` spells out and `Equivalent` compares. */
    function Bits(): (r: seq<bool>)
      requires Valid()
      ensures |r| == prefixLenBits && forall k :: 0 <= k < prefixLenBits ==> r[k] == PathBit(path, k)
    {
      seq(prefixLenBits, k requires 0 <= k < prefixLenBits => PathBit(path, k))
    }

    /** Bit `i` counted from the right. */
    function Bit(i: nat): nat
      requires i < 8 * |path|
    {
      Shr(path[(8 * |path| - i - 1) / 8], i % 8) % 2
    }
  }

  /** The place in a subtree: how many bits, and those bits from the left of a byte string. */
  datatype Suffix = Suffix(bits: Byte, path: seq<Byte>)

  /** `String`: the bits that count, from the left. */
  method String(n: NodeID) returns (r: string)
    requires n.Valid()
    ensures |r| == n.prefixLenBits
    ensures forall k :: 0 <= k < |r| ==> r[k] == if PathBit(n.path, k) then '1' else '0'
  {
    hide Shl, Shr, BitSet;
    r := "";
    var i, limit := 8 * |n.path|, 8 * |n.path| - n.prefixLenBits;
    while i > limit
      invariant limit <= i <= 8 * |n.path| && |r| == 8 * |n.path| - i
      invariant forall k :: 0 <= k < |r| ==> r[k] == if PathBit(n.path, k) then '1' else '0'
    {
      i := i - 1;
      BitIsPathBit(n, i);
      r := r + [if n.Bit(i) == 1 then '1' else '0'];
    }
  }

  lemma BitIsPathBit(n: NodeID, i: nat)
    requires i < 8 * |n.path|
    ensures n.Bit(i) == 1 <==> PathBit(n.path, 8 * |n.path| - 1 - i)
  {
    hide Shr;
    var k := 8 * |n.path| - 1 - i;
    assert 7 - k % 8 == i % 8;
  }

  /** Strings tell nodes apart: ids have one string exactly if they are equivalent. */
  lemma SameStringIff(n1: NodeID, r1: string, n2: NodeID, r2: string)
    requires n1.Valid() && |r1| == n1.prefixLenBits && n2.Valid() && |r2| == n2.prefixLenBits
    requires forall k :: 0 <= k < |r1| ==> r1[k] == if PathBit(n1.path, k) then '1' else '0'
    requires forall k :: 0 <= k < |r2| ==> r2[k] == if PathBit(n2.path, k) then '1' else '0'
    ensures r1 == r2 <==> n1.Bits() == n2.Bits()
  {
    hide PathBit;
    if r1 == r2 {
      forall k | 0 <= k < |r1| ensures n1.Bits()[k] == n2.Bits()[k] { assert r1[k] == r2[k]; }
    }
    if n1.Bits() == n2.Bits() {
      forall k | 0 <= k < |r1| ensures r1[k] == r2[k] { assert n1.Bits()[k] == n2.Bits()[k]; }
    }
  }

  /** The key of a log node in the maps of the sequencer. In paths of at most 64 bits: the binary digits of its index,
      as many as there are levels above it. */
  method CoordKey(depth: int, index: int, maxPathBits: int) returns (r: Result<string, CoordError>)
    ensures r.Ok? <==> InRange(depth, index, maxPathBits)
    ensures r.Ok? && maxPathBits <= WORD ==>
              && |r.value| == maxPathBits - depth
              && forall k :: 0 <= k < |r.value| ==> r.value[k] == if BitSet(index, |r.value| - 1 - k) then '1' else '0'
  {
    hide BitLen, PathBit, BitSet, Shl, Shr, Pow2;
    var id := NewNodeIDForTreeCoords(depth, index, maxPathBits);
    if id.Err? { return Err(OutOfRange); }
    var s := String(id.value);
    forall k | 0 <= k < |s| && maxPathBits <= WORD ensures s[k] == if BitSet(index, |s| - 1 - k) then '1' else '0' {
      CoordBit(id.value, k);
    }
    return Ok(s);
  }

  /** No two nodes share a key. */
  lemma SameKeyIff(c1: Coord, s1: string, c2: Coord, s2: string, maxPathBits: nat)
    requires Representable(c1, maxPathBits) && |s1| == maxPathBits - c1.level
    requires Representable(c2, maxPathBits) && |s2| == maxPathBits - c2.level
    requires forall k :: 0 <= k < |s1| ==> s1[k] == if BitSet(c1.index, |s1| - 1 - k) then '1' else '0'
    requires forall k :: 0 <= k < |s2| ==> s2[k] == if BitSet(c2.index, |s2| - 1 - k) then '1' else '0'
    ensures s1 == s2 <==> c1 == c2
  {
    hide BitSet, BitLen;
    if s1 == s2 {
      var w := |s1|;
      BitLenLeast(c1.index, w);
      BitLenLeast(c2.index, w);
      forall l | 0 <= l < w ensures BitSet(c1.index, l) <==> BitSet(c2.index, l) {
        assert s1[w - 1 - l] == s2[w - 1 - l];
      }
      SameBits(c1.index, c2.index, w);
    }
  }

  // ---------- bytes ----------

  lemma SameByte(b: Byte, c: Byte)
    requires forall j :: 0 <= j < 8 ==> (BitSet(b, j) <==> BitSet(c, j))
    ensures b == c
  {
    SameBits(b, c, 8);
  }

  lemma SamePath(p: seq<Byte>, q: seq<Byte>)
    requires |p| == |q| && forall k :: 0 <= k < 8 * |p| ==> (PathBit(p, k) <==> PathBit(q, k))
    ensures p == q
  {
    forall i | 0 <= i < |p| ensures p[i] == q[i] {
      forall j | 0 <= j < 8 ensures BitSet(p[i], j) <==> BitSet(q[i], j) {
        assert (8 * i + 7 - j) / 8 == i && 7 - (8 * i + 7 - j) % 8 == j;
        assert PathBit(p, 8 * i + 7 - j) <==> PathBit(q, 8 * i + 7 - j);
      }
      SameByte(p[i], q[i]);
    }
  }

  /** A byte with its left `n` bits set. */
  function LeftMask(n: nat): Byte
    requires 1 <= n <= 8
  {
    [0x80, 0xC0, 0xE0, 0xF0, 0xF8, 0xFC, 0xFE, 0xFF][n - 1]
  }

  lemma LeftMaskIs(n: nat)
    requires 1 <= n <= 8
    ensures LeftMask(n) == Shl(Pow2(n) - 1, 8 - n)
  {
    if n == 1 { assert Shl(1, 7) == 0x80; }
    else if n == 2 { assert Shl(3, 6) == 0xC0; }
    else if n == 3 { assert Shl(7, 5) == 0xE0; }
    else if n == 4 { assert Shl(15, 4) == 0xF0; }
    else if n == 5 { assert Pow2(5) == 32; assert Shl(31, 3) == 0xF8; }
    else if n == 6 { assert Pow2(6) == 64; assert Shl(63, 2) == 0xFC; }
    else if n == 7 { assert Pow2(7) == 128; assert Shl(127, 1) == 0xFE; }
    else { assert Pow2(8) == 256; assert Shl(255, 0) == 0xFF; }
  }

  lemma {:induction false} OnesBits(n: nat, l: nat)
    ensures BitSet(Pow2(n) - 1, l) <==> l < n
  {
    if n == 0 {
      ShrZero(l);
    } else if l > 0 {
      ShrHalf(Pow2(n) - 1, l - 1);
      OnesBits(n - 1, l - 1);
    }
  }

  lemma LeftMaskBits(n: nat, l: nat)
    requires 1 <= n <= 8 && l < 8
    ensures BitSet(LeftMask(n), l) <==> l >= 8 - n
  {
    LeftMaskIs(n);
    ShlBits(Pow2(n) - 1, 8 - n, l);
    if l >= 8 - n { OnesBits(n, l - (8 - n)); }
  }

  lemma {:induction false} AndBelow(x: nat, y: nat)
    ensures And(x, y) <= y
  {
    if x != 0 && y != 0 { AndBelow(x / 2, y / 2); }
  }

  /** The left `n` bits of a byte. */
  function Masked(b: Byte, n: nat): (r: Byte)
    requires 1 <= n <= 8
    ensures forall l :: 0 <= l < 8 ==> (BitSet(r, l) <==> l >= 8 - n && BitSet(b, l))
  {
    AndBelow(b, LeftMask(n));
    MaskedBits(b, n);
    And(b, LeftMask(n))
  }

  lemma MaskedBits(b: Byte, n: nat)
    requires 1 <= n <= 8
    ensures forall l :: 0 <= l < 8 ==> (BitSet(And(b, LeftMask(n)), l) <==> l >= 8 - n && BitSet(b, l))
  {
    hide And, LeftMask, BitSet;
    forall l | 0 <= l < 8 ensures BitSet(And(b, LeftMask(n)), l) <==> l >= 8 - n && BitSet(b, l) {
      AndBits(b, LeftMask(n), l);
      LeftMaskBits(n, l);
    }
  }

  function BytesForBits(n: nat): nat {
    (n + 7) / 8
  }

  /** How many bits of the last byte count, when there are `n` bits in all. */
  function LastBits(n: nat): nat
    requires n > 0
  {
    (n - 1) % 8 + 1
  }

  /** `path` keeps its first `n` bits, which end in its last byte. */
  function MaskLast(path: seq<Byte>, n: nat): (r: seq<Byte>)
    requires n > 0 && |path| == BytesForBits(n)
    ensures |r| == |path| && forall k :: 0 <= k < 8 * |path| ==> (PathBit(r, k) <==> k < n && PathBit(path, k))
  {
    var i := |path| - 1;
    var r := path[i := Masked(path[i], LastBits(n))];
    MaskLastBits(path, r, n);
    r
  }

  lemma MaskLastBits(path: seq<Byte>, r: seq<Byte>, n: nat)
    requires n > 0 && |path| == BytesForBits(n) && r == path[|path| - 1 := Masked(path[|path| - 1], LastBits(n))]
    ensures forall k :: 0 <= k < 8 * |path| ==> (PathBit(r, k) <==> k < n && PathBit(path, k))
  {
    hide BitSet, Masked;
    forall k | 0 <= k < 8 * |path| ensures PathBit(r, k) <==> k < n && PathBit(path, k) {
      if k / 8 == |path| - 1 {
        assert BitSet(r[k / 8], 7 - k % 8) <==> 7 - k % 8 >= 8 - LastBits(n) && BitSet(path[k / 8], 7 - k % 8);
      }
    }
  }

  // ---------- splitting ----------

  /** `Split`: the path down to a subtree and the place in it. */
  function Split(n: NodeID, prefixBytes: nat, suffixBits: nat): (r: (seq<Byte>, Suffix))
    requires n.Valid() && (n.prefixLenBits > 0 ==> 0 < n.prefixLenBits - 8 * prefixBytes <= suffixBits)
    ensures n.prefixLenBits == 0 ==> r == ([], Suffix(0, [0]))
    ensures n.prefixLenBits > 0 ==>
              var bits := n.prefixLenBits - 8 * prefixBytes;
              && r.0 == n.path[..prefixBytes]
              && r.1.bits == bits % 256 && |r.1.path| == BytesForBits(bits)
              && forall k :: 0 <= k < 8 * BytesForBits(bits) ==>
                               (PathBit(r.1.path, k) <==> k < bits && PathBit(n.path, 8 * prefixBytes + k))
  {
    if n.prefixLenBits == 0 then ([], Suffix(0, [0]))
    else
      var bits := n.prefixLenBits - 8 * prefixBytes;
      var path := n.path[prefixBytes..prefixBytes + BytesForBits(bits)];
      PathSlice(n.path, path, prefixBytes);
      (n.path[..prefixBytes], Suffix(bits % 256, MaskLast(path, bits)))
  }

  lemma PathSlice(path: seq<Byte>, s: seq<Byte>, from: nat)
    requires from + |s| <= |path| && s == path[from..from + |s|]
    ensures forall k :: 0 <= k < 8 * |s| ==> (PathBit(s, k) <==> PathBit(path, 8 * from + k))
  {
    hide BitSet;
    forall k | 0 <= k < 8 * |s| ensures PathBit(s, k) <==> PathBit(path, 8 * from + k) {
      assert s[k / 8] == path[(8 * from + k) / 8] && (8 * from + k) % 8 == k % 8;
    }
  }

  /** `NewNodeIDFromPrefixSuffix`: copies both into a path of `maxPathBits` bits. */
  function FromPrefixSuffix(prefix: seq<Byte>, suffix: Suffix, maxPathBits: nat): NodeID
    requires |prefix| + |suffix.path| <= maxPathBits / 8
  {
    NodeID(prefix + suffix.path + Zeros(maxPathBits / 8 - |prefix| - |suffix.path|), 8 * |prefix| + suffix.bits)
  }

  /** The rebuilt path agrees with the original as far as it counts. */
  lemma RejoinedBits(n: NodeID, prefixBytes: nat, suffixBits: nat, joined: seq<Byte>, k: nat)
    requires n.Valid() && 0 < n.prefixLenBits - 8 * prefixBytes <= suffixBits && k < n.prefixLenBits
    requires var r := Split(n, prefixBytes, suffixBits);
             |joined| >= prefixBytes + |r.1.path| && joined[..prefixBytes + |r.1.path|] == r.0 + r.1.path
    ensures PathBit(joined, k) <==> PathBit(n.path, k)
  {
    hide BitSet, Split;
    var r := Split(n, prefixBytes, suffixBits);
    if k < 8 * prefixBytes {
      assert joined[k / 8] == joined[..prefixBytes + |r.1.path|][k / 8] == n.path[k / 8];
    } else {
      assert joined[prefixBytes..prefixBytes + |r.1.path|] == r.1.path;
      PathSlice(joined, r.1.path, prefixBytes);
      var j := k - 8 * prefixBytes;
      assert PathBit(r.1.path, j) <==> PathBit(joined, 8 * prefixBytes + j);
    }
  }

  /** Splitting and rejoining gives an equivalent id exactly if the number of suffix bits fits in its byte. */
  lemma SplitRoundTrip(n: NodeID, prefixBytes: nat, suffixBits: nat)
    requires n.Valid() && |n.path| > 0 && (n.prefixLenBits > 0 ==> 0 < n.prefixLenBits - 8 * prefixBytes <= suffixBits)
    ensures
      var r := Split(n, prefixBytes, suffixBits);
      var back := FromPrefixSuffix(r.0, r.1, 8 * |n.path|);
      && back.Valid()
      && (back.Bits() == n.Bits() <==> n.prefixLenBits - 8 * prefixBytes < 256)
  {
    hide BitSet, Split, PathBit;
    var r := Split(n, prefixBytes, suffixBits);
    if n.prefixLenBits > 0 {
      var bits := n.prefixLenBits - 8 * prefixBytes;
      var back := FromPrefixSuffix(r.0, r.1, 8 * |n.path|);
      assert back.path[..prefixBytes + |r.1.path|] == r.0 + r.1.path;
      if bits < 256 {
        forall k | 0 <= k < n.prefixLenBits ensures back.Bits()[k] == n.Bits()[k] {
          RejoinedBits(n, prefixBytes, suffixBits, back.path, k);
        }
      } else {
        assert |back.Bits()| != |n.Bits()|;
      }
    }
  }

  /** An id of 256 bits in a single stratum comes back as the root. */
  lemma SplitLosesCount()
    ensures
      var n := NodeID(Zeros(32), 256);
      var r := Split(n, 0, 256);
      r.1.bits == 0 && FromPrefixSuffix(r.0, r.1, 256).Bits() == [] != n.Bits()
  {
    hide Split, PathBit;
    SplitRoundTrip(NodeID(Zeros(32), 256), 0, 256);
  }

  // ---------- strata ----------

  /** The subtree that the bits from `8 * i` on belong to: where it begins and how deep it is. */
  datatype Stratum = Stratum(prefixBytes: nat, depth: nat)

  const MAX_TREE_DEPTH: nat := 256

  predicate ValidStrata(strata: seq<nat>, total: nat) {
    if strata == [] then total == 0
    else strata[0] > 0 && strata[0] % 8 == 0 && strata[0] <= total && ValidStrata(strata[1..], total - strata[0])
  }

  /** Every stratum is listed for each byte it covers, and for no other. */
  predicate Layered(info: seq<Stratum>) {
    forall i :: 0 <= i < |info| ==>
      var s := info[i];
      && s.prefixBytes <= i && s.depth % 8 == 0 && i < s.prefixBytes + s.depth / 8 <= |info|
      && forall j :: s.prefixBytes <= j < s.prefixBytes + s.depth / 8 ==> info[j] == s
  }

  function StratumFor(info: seq<Stratum>, n: NodeID): Stratum
    requires Layered(info) && 0 < |info| && n.prefixLenBits <= 8 * |info|
  {
    info[if n.prefixLenBits == 0 then 0 else (n.prefixLenBits - 1) / 8]
  }

  /** `splitNodeID`: the slot of a node. */
  function Slot(info: seq<Stratum>, n: NodeID): (seq<Byte>, Suffix)
    requires Layered(info) && 0 < |info| && n.prefixLenBits <= 8 * |info| && n.Valid()
  {
    StratumFits(info, n);
    Split(n, StratumFor(info, n).prefixBytes, StratumFor(info, n).depth)
  }

  /** A node has at least one bit, and not too many, in its stratum: `Split` does not panic. */
  lemma StratumFits(info: seq<Stratum>, n: NodeID)
    requires Layered(info) && 0 < |info| && n.prefixLenBits <= 8 * |info|
    ensures n.prefixLenBits > 0 ==>
              var s := StratumFor(info, n);
              0 < n.prefixLenBits - 8 * s.prefixBytes <= s.depth
  {
    if n.prefixLenBits > 0 {
      var i := (n.prefixLenBits - 1) / 8;
      assert info[i].prefixBytes <= i < info[i].prefixBytes + info[i].depth / 8;
    }
  }

  /** Nodes share a slot exactly if they are the same node: none hides another. */
  lemma SlotsAreNodes(info: seq<Stratum>, n1: NodeID, n2: NodeID)
    requires Layered(info) && 0 < |info| <= MAX_TREE_DEPTH / 8 && |n1.path| == |n2.path|
    requires n1.Valid() && n1.prefixLenBits <= 8 * |info| && n2.Valid() && n2.prefixLenBits <= 8 * |info|
    ensures Slot(info, n1) == Slot(info, n2) <==> n1.Bits() == n2.Bits()
  {
    hide Split, PathBit, Layered;
    StratumFits(info, n1);
    StratumFits(info, n2);
    if n1.Bits() == n2.Bits() {
      assert n1.prefixLenBits == |n1.Bits()| == |n2.Bits()| == n2.prefixLenBits;
      if n1.prefixLenBits > 0 { SameSlot(n1, n2, StratumFor(info, n1).prefixBytes, StratumFor(info, n1).depth); }
    } else if Slot(info, n1) == Slot(info, n2) {
      StratumSize(info, n1);
      StratumSize(info, n2);
      SameNode(n1, n2, StratumFor(info, n1), StratumFor(info, n2));
    }
  }

  /** A node is kept as a leaf of its subtree exactly if it lies at the bottom of its stratum and the stratum has
      fewer than 256 levels: the byte that counts the bits cannot hold 256. */
  lemma LeafSlots(info: seq<Stratum>, n: NodeID)
    requires Layered(info) && 0 < |info| <= MAX_TREE_DEPTH / 8 && n.Valid() && n.prefixLenBits <= 8 * |info|
    ensures var s := StratumFor(info, n);
            Slot(info, n).1.bits == s.depth <==> n.prefixLenBits == 8 * s.prefixBytes + s.depth && s.depth < 256
  {
    hide Split, PathBit;
    StratumFits(info, n);
    StratumSize(info, n);
  }

  lemma StratumSize(info: seq<Stratum>, n: NodeID)
    requires Layered(info) && 0 < |info| <= MAX_TREE_DEPTH / 8 && n.prefixLenBits <= 8 * |info|
    ensures StratumFor(info, n).depth <= MAX_TREE_DEPTH
  {
  }

  lemma SameSlot(n1: NodeID, n2: NodeID, prefixBytes: nat, depth: nat)
    requires n1.Valid() && n2.Valid() && |n1.path| == |n2.path| && 0 < n1.prefixLenBits - 8 * prefixBytes <= depth
    requires n1.Bits() == n2.Bits() && n1.prefixLenBits == n2.prefixLenBits
    ensures Split(n1, prefixBytes, depth) == Split(n2, prefixBytes, depth)
  {
    hide Split, BitSet;
    var a, b := Split(n1, prefixBytes, depth), Split(n2, prefixBytes, depth);
    forall k | 0 <= k < n1.prefixLenBits ensures PathBit(n1.path, k) <==> PathBit(n2.path, k) {
      assert n1.Bits()[k] == n2.Bits()[k];
    }
    PathSlice(n1.path, a.0, 0);
    PathSlice(n2.path, b.0, 0);
    SamePath(a.0, b.0);
    SamePath(a.1.path, b.1.path);
  }

  /** The byte that counts the bits and the number of bytes they fill tell their number, up to 256. */
  lemma SameSize(a: nat, b: nat)
    requires 0 < a <= MAX_TREE_DEPTH && 0 < b <= MAX_TREE_DEPTH && a % 256 == b % 256
             && BytesForBits(a) == BytesForBits(b)
    ensures a == b
  {
  }

  lemma NoSuchSize(a: int)
    ensures 0 < a <= MAX_TREE_DEPTH && a % 256 == 0 ==> BytesForBits(a) != 1
  {
  }

  lemma SameNode(n1: NodeID, n2: NodeID, s1: Stratum, s2: Stratum)
    requires n1.Valid() && n2.Valid() && |n1.path| == |n2.path| && s1.depth <= MAX_TREE_DEPTH
             && s2.depth <= MAX_TREE_DEPTH
    requires n1.prefixLenBits > 0 ==> 0 < n1.prefixLenBits - 8 * s1.prefixBytes <= s1.depth
    requires n2.prefixLenBits > 0 ==> 0 < n2.prefixLenBits - 8 * s2.prefixBytes <= s2.depth
    requires Split(n1, s1.prefixBytes, s1.depth) == Split(n2, s2.prefixBytes, s2.depth)
    ensures n1.Bits() == n2.Bits()
  {
    hide Split, BitSet, PathBit, BytesForBits;
    var r := Split(n1, s1.prefixBytes, s1.depth);
    if n1.prefixLenBits == 0 || n2.prefixLenBits == 0 {
      NoSuchSize(n1.prefixLenBits - 8 * s1.prefixBytes);
      NoSuchSize(n2.prefixLenBits - 8 * s2.prefixBytes);
    } else {
      assert s1.prefixBytes == |r.0| == s2.prefixBytes;
      SameSize(n1.prefixLenBits - 8 * s1.prefixBytes, n2.prefixLenBits - 8 * s2.prefixBytes);
      forall k | 0 <= k < n1.prefixLenBits ensures PathBit(n1.path, k) <==> PathBit(n2.path, k) {
        RejoinedBits(n1, s1.prefixBytes, s1.depth, r.0 + r.1.path, k);
        RejoinedBits(n2, s2.prefixBytes, s2.depth, r.0 + r.1.path, k);
      }
    }
  }

  // ---------- siblings ----------

  function Zeros(n: nat): seq<Byte> {
    seq(n, _ => 0)
  }

  /** `MaskLeft` */
  function MaskLeft(n: NodeID, depth: nat): (r: NodeID)
    requires depth <= 8 * |n.path|
    ensures |r.path| == |n.path| && r.prefixLenBits == if depth < n.prefixLenBits then depth else n.prefixLenBits
    ensures forall k :: 0 <= k < 8 * |n.path| ==> (PathBit(r.path, k) <==> k < depth && PathBit(n.path, k))
  {
    var bytes := BytesForBits(depth);
    var path := (if depth > 0 then MaskLast(n.path[..bytes], depth) else []) + Zeros(|n.path| - bytes);
    MaskLeftBits(n.path, path, depth);
    NodeID(path, if depth < n.prefixLenBits then depth else n.prefixLenBits)
  }

  lemma MaskLeftBits(from: seq<Byte>, path: seq<Byte>, depth: nat)
    requires depth <= 8 * |from|
    requires var bytes := BytesForBits(depth);
             path == (if depth > 0 then MaskLast(from[..bytes], depth) else []) + Zeros(|from| - bytes)
    ensures forall k :: 0 <= k < 8 * |from| ==> (PathBit(path, k) <==> k < depth && PathBit(from, k))
  {
    hide MaskLast, BitSet;
    var bytes := BytesForBits(depth);
    forall k | 0 <= k < 8 * |from| ensures PathBit(path, k) <==> k < depth && PathBit(from, k) {
      if k / 8 < bytes {
        assert PathBit(MaskLast(from[..bytes], depth), k) <==> k < depth && PathBit(from[..bytes], k);
      } else {
        assert path[k / 8] == 0;
        NoBits(7 - k % 8);
      }
    }
  }

  lemma NoBits(l: nat)
    ensures !BitSet(0, l)
  {
    ShrZero(l);
  }

  /** `x ^ (1 << p)`. */
  function Flipped(x: nat, p: nat): nat {
    if p == 0 then Sibling(x) else 2 * Flipped(x / 2, p - 1) + x % 2
  }

  lemma {:induction false} FlippedBits(x: nat, p: nat, l: nat)
    ensures BitSet(Flipped(x, p), l) <==> (if l == p then !BitSet(x, l) else BitSet(x, l))
  {
    var y := Flipped(x, p);
    FlippedHalf(x, p);
    if l > 0 {
      ShrHalf(x, l - 1);
      ShrHalf(y, l - 1);
      if p > 0 { FlippedBits(x / 2, p - 1, l - 1); }
    }
  }

  lemma {:induction false} FlippedFits(x: nat, p: nat, w: nat)
    requires x < Pow2(w) && p < w
    ensures Flipped(x, p) < Pow2(w)
  {
    hide Pow2;
    HalfFits(x, w);
    HalfFits(Flipped(x, p), w);
    FlippedHalf(x, p);
    if p > 0 { FlippedFits(x / 2, p - 1, w - 1); }
  }

  lemma HalfFits(x: nat, w: nat)
    requires w > 0
    ensures x < Pow2(w) <==> x / 2 < Pow2(w - 1)
  {
  }

  lemma FlippedHalf(x: nat, p: nat)
    ensures Flipped(x, p) / 2 == if p > 0 then Flipped(x / 2, p - 1) else x / 2
  {
  }

  /** `FlipRightBit`: bit `i` from the right changes and no other. */
  function FlipRightBit(n: NodeID, i: nat): (r: NodeID)
    requires i < 8 * |n.path|
    ensures |r.path| == |n.path| && r.prefixLenBits == n.prefixLenBits
    ensures forall k :: 0 <= k < 8 * |n.path| ==>
                          (PathBit(r.path, k) <==>
                            (if k == 8 * |n.path| - 1 - i then !PathBit(n.path, k) else PathBit(n.path, k)))
  {
    var b := (8 * |n.path| - i - 1) / 8;
    assert Pow2(8) == 256;
    FlippedFits(n.path[b], i % 8, 8);
    var path := n.path[b := Flipped(n.path[b], i % 8)];
    FlipBits(n.path, path, i);
    NodeID(path, n.prefixLenBits)
  }

  lemma FlipBits(from: seq<Byte>, path: seq<Byte>, i: nat)
    requires i < 8 * |from|
    requires var b := (8 * |from| - i - 1) / 8;
             Flipped(from[b], i % 8) < 256 && path == from[b := Flipped(from[b], i % 8)]
    ensures forall k :: 0 <= k < 8 * |from| ==>
                          (PathBit(path, k) <==>
                            (if k == 8 * |from| - 1 - i then !PathBit(from, k) else PathBit(from, k)))
  {
    hide BitSet, Flipped;
    var b := (8 * |from| - i - 1) / 8;
    forall k | 0 <= k < 8 * |from|
      ensures PathBit(path, k) <==> (if k == 8 * |from| - 1 - i then !PathBit(from, k) else PathBit(from, k))
    {
      if k / 8 == b { FlippedBits(from[b], i % 8, 7 - k % 8); }
    }
  }

  /** `Neighbor`: the other child of the node's parent. */
  function Neighbor(n: NodeID): NodeID
    requires n.Valid() && n.prefixLenBits > 0
  {
    FlipRightBit(n, 8 * |n.path| - n.prefixLenBits)
  }

  /** The siblings of a node's path, from the bottom up: each shares all but the last bit with the path, and has
      only zeros after it. */
  method Siblings(n: NodeID) returns (sibs: seq<NodeID>)
    requires n.Valid()
    ensures |sibs| == n.prefixLenBits
    ensures forall h :: 0 <= h < |sibs| ==> IsSibling(n, h, sibs[h])
  {
    sibs := [];
    for height := 0 to n.prefixLenBits
      invariant |sibs| == height && forall h :: 0 <= h < |sibs| ==> IsSibling(n, h, sibs[h])
    {
      var depth := n.prefixLenBits - height;
      sibs := sibs + [Neighbor(MaskLeft(n, depth))];
    }
  }

  predicate IsSibling(n: NodeID, h: nat, s: NodeID)
    requires n.Valid() && h < n.prefixLenBits
  {
    && |s.path| == |n.path| && s.prefixLenBits == n.prefixLenBits - h
    && forall k :: 0 <= k < 8 * |n.path| ==>
                     (PathBit(s.path, k) <==>
                      (if k < s.prefixLenBits - 1 then PathBit(n.path, k)
                          else k == s.prefixLenBits - 1 && !PathBit(n.path, k)))
  }

  // ---------- paths as numbers ----------

  /** The number that a path spells, first byte first. */
  function BigInt(path: seq<Byte>): nat {
    if path == [] then 0 else Shl(BigInt(path[..|path| - 1]), 8) + path[|path| - 1]
  }

  lemma {:induction false} BigIntFits(path: seq<Byte>)
    ensures BigInt(path) < Pow2(8 * |path|)
  {
    if path != [] {
      var rest := path[..|path| - 1];
      BigIntFits(rest);
      ShlMonotone(BigInt(rest), Pow2(8 * |rest|), 8);
      Pow2Shl(8 * |rest|, 8);
      assert Pow2(8) == 256;
    }
  }

  lemma {:induction false} Pow2Shl(a: nat, b: nat)
    ensures Shl(Pow2(a), b) == Pow2(a + b)
  {
    if b > 0 { Pow2Shl(a, b - 1); }
  }

  /** Adding below a shifted number. */
  lemma LowBits(x: nat, b: Byte, l: nat)
    ensures BitSet(Shl(x, 8) + b, l) <==> (if l < 8 then BitSet(b, l) else BitSet(x, l - 8))
  {
    hide Shl;
    assert Pow2(8) == 256;
    var y := Shl(x, 8) + b;
    ShrUnique(y, 8, x);
    if l >= 8 {
      ShrBits(y, 8, l - 8);
    } else {
      LowBitsBelow(x, b, 8, l);
    }
  }

  lemma {:induction false} LowBitsBelow(x: nat, b: nat, s: nat, l: nat)
    requires l < s
    ensures BitSet(Shl(x, s) + b, l) <==> BitSet(b, l)
  {
    if l > 0 {
      ShrHalf(Shl(x, s) + b, l - 1);
      ShrHalf(b, l - 1);
      assert (Shl(x, s) + b) / 2 == Shl(x, s - 1) + b / 2;
      LowBitsBelow(x, b / 2, s - 1, l - 1);
    }
  }

  lemma {:induction false} BigIntBits(path: seq<Byte>, k: nat)
    requires k < 8 * |path|
    ensures BitSet(BigInt(path), 8 * |path| - 1 - k) <==> PathBit(path, k)
  {
    hide BitSet, Shl;
    var rest, last := path[..|path| - 1], path[|path| - 1];
    LowBits(BigInt(rest), last, 8 * |path| - 1 - k);
    if k < 8 * |rest| {
      BigIntBits(rest, k);
      assert path[k / 8] == rest[k / 8];
    }
  }

  /** A sibling `h` levels up, as a number: flip the lowest bit of what is left of the path, and pad with zeros. */
  lemma SiblingNumber(n: NodeID, h: nat, s: NodeID)
    requires n.prefixLenBits == 8 * |n.path| && h < n.prefixLenBits && IsSibling(n, h, s)
    ensures BigInt(s.path) == Shl(Sibling(Shr(BigInt(n.path), h)), h)
  {
    hide BitSet, Shl, Shr, PathBit, BigInt;
    var w, x := 8 * |n.path|, BigInt(n.path);
    var y := Shl(Sibling(Shr(x, h)), h);
    BigIntFits(s.path);
    BigIntFits(n.path);
    SiblingFits(x, h, w);
    forall l | 0 <= l < w ensures BitSet(BigInt(s.path), l) <==> BitSet(y, l) {
      var k := w - 1 - l;
      BigIntBits(s.path, k);
      BigIntBits(n.path, k);
      ShlBits(Sibling(Shr(x, h)), h, l);
      if l >= h {
        FlippedBits(Shr(x, h), 0, l - h);
        ShrBits(x, h, l - h);
      }
    }
    SameBits(BigInt(s.path), y, w);
  }

  lemma SiblingFits(x: nat, h: nat, w: nat)
    requires x < Pow2(w) && h < w
    ensures Shl(Sibling(Shr(x, h)), h) < Pow2(w)
  {
    hide Shl, Shr;
    ShrBounds(x, h);
    ShlBelowPow2(Shr(x, h), h, w);
    ShlBelowPow2(Sibling(Shr(x, h)), h, w);
    FlippedFits(Shr(x, h), 0, w - h);
  }

  // ---------- log coordinates ----------

  const WORD: nat := 64

  /** The padded index, in a 64-bit word. */
  function PaddedIndex(depth: nat, index: nat): nat {
    Shl(index, depth) % Pow2(WORD)
  }

  /** The bits of the id of a log node. */
  function CoordBits(depth: nat, index: nat, maxPathBits: nat): (r: seq<bool>)
    requires depth <= maxPathBits
    ensures |r| == maxPathBits - depth
  {
    var x := PaddedIndex(depth, index);
    seq(maxPathBits - depth, k requires 0 <= k < maxPathBits - depth => BitSet(x, maxPathBits - 1 - k))
  }

  datatype CoordError = OutOfRange

  predicate InRange(depth: int, index: int, maxPathBits: int) {
    depth >= 0 && index >= 0 && Representable(Coord(depth, index), maxPathBits)
  }

  method NewNodeIDForTreeCoords(depth: int, index: int, maxPathBits: int) returns (r: Result<NodeID, CoordError>)
    ensures r.Ok? <==> InRange(depth, index, maxPathBits)
    ensures r.Ok? ==>
              && r.value.Valid() && 8 * |r.value.path| == maxPathBits
              && r.value.Bits() == CoordBits(depth, index, maxPathBits)
              && CoordOfId(r.value) == Coord(depth, Shr(Shl(index, depth) % Pow2(WORD), depth))
              && (maxPathBits <= WORD ==> CoordOfId(r.value) == Coord(depth, index))
  {
    hide Shl, Shr, BitSet, BigInt, Pow2, PathBit;
    if !InRange(depth, index, maxPathBits) { return Err(OutOfRange); }
    var uidx := PaddedIndex(depth, index);
    ghost var whole := uidx;
    PaddedFits(depth, index, maxPathBits);
    var path: seq<Byte>, i, low := [], maxPathBits / 8, 0;
    NoBytes(uidx);
    while uidx > 0 && i > 0
      invariant 0 <= i <= maxPathBits / 8 && |path| == maxPathBits / 8 - i
      invariant Shl(uidx, 8 * |path|) + BigInt(path) == whole
    {
      low := uidx % 256;
      PrependByte(uidx, low, path);
      path, uidx, i := [low] + path, uidx / 256, i - 1;
    }
    BigIntFits(path);
    Exhausted(uidx, BigInt(path), 8 * |path|, maxPathBits);
    PadLeft(i, path);
    ShlZero(8 * |path|);
    path := Zeros(i) + path;
    forall k | 0 <= k < maxPathBits - depth ensures PathBit(path, k) <==> BitSet(whole, maxPathBits - 1 - k) {
      BigIntBits(path, k);
    }
    ShrUnique(Shl(index, depth), depth, index);
    return Ok(NodeID(path, maxPathBits - depth));
  }

  lemma NoBytes(x: nat)
    ensures Shl(x, 0) + BigInt([]) == x
  {
  }

  lemma PaddedFits(depth: nat, index: nat, maxPathBits: nat)
    requires InRange(depth, index, maxPathBits)
    ensures PaddedIndex(depth, index) < Pow2(maxPathBits) && PaddedIndex(depth, index) <= Shl(index, depth)
    ensures maxPathBits <= WORD ==> PaddedIndex(depth, index) == Shl(index, depth)
  {
    hide Shl, BitLen, Pow2;
    BitLenLeast(index, maxPathBits - depth);
    ShlBelowPow2(index, depth, maxPathBits);
    if maxPathBits <= WORD { Pow2Monotone(maxPathBits, WORD); }
    ModBelow(Shl(index, depth), Pow2(WORD));
  }

  lemma ModBelow(x: nat, m: nat)
    requires m > 0
    ensures 0 <= x % m <= x && (x < m ==> x % m == x)
  {
  }

  /** Moving the lowest byte of the index to the front of the path. */
  lemma PrependByte(x: nat, low: Byte, path: seq<Byte>)
    requires low == x % 256
    ensures Shl(x / 256, 8 * (|path| + 1)) + BigInt([low] + path) == Shl(x, 8 * |path|) + BigInt(path)
  {
    hide Shl;
    ShlCompose(x / 256, 8, 8 * |path|);
    ShlByte(x / 256);
    ShlAdd(Shl(x / 256, 8), low, 8 * |path|);
    BigIntFront(low, path);
  }

  lemma ShlByte(x: nat)
    ensures Shl(x, 8) == 256 * x
  {
    assert Shl(x, 1) == 2 * x;
    assert Shl(x, 2) == 4 * x;
    assert Shl(x, 4) == 4 * Shl(x, 2);
    assert Shl(x, 6) == 4 * Shl(x, 4);
  }

  lemma BigIntFront(b: Byte, path: seq<Byte>)
    ensures BigInt([b] + path) == Shl(b, 8 * |path|) + BigInt(path)
  {
    hide Shl, BigInt;
    BigIntConcat([b], path);
    BigIntOne(b);
  }

  lemma BigIntOne(b: Byte)
    ensures BigInt([b]) == b
  {
    hide Shl;
    assert [b][..0] == [];
    ShlZero(8);
  }

  /** Once the path is full nothing is left of an index that fits. */
  lemma Exhausted(uidx: nat, low: nat, shift: nat, maxPathBits: nat)
    requires Shl(uidx, shift) + low < Pow2(maxPathBits) && shift <= maxPathBits
    ensures shift == maxPathBits ==> uidx == 0
  {
    ShlBelowPow2(uidx, shift, maxPathBits);
  }

  lemma {:induction false} PadLeft(n: nat, path: seq<Byte>)
    ensures BigInt(Zeros(n) + path) == BigInt(path)
  {
    if n > 0 {
      PadLeft(n - 1, path);
      assert Zeros(n) + path == [0] + (Zeros(n - 1) + path);
      BigIntFront(0, Zeros(n - 1) + path);
      ShlZero(8 * |Zeros(n - 1) + path|);
    } else {
      assert Zeros(n) + path == path;
    }
  }

  // ---------- coordinates and ids ----------

  ghost predicate CoordsFaithful(maxPathBits: nat) {
    forall d1: nat, i1: nat, d2: nat, i2: nat | InRange(d1, i1, maxPathBits) && InRange(d2, i2, maxPathBits) ::
      CoordBits(d1, i1, maxPathBits) == CoordBits(d2, i2, maxPathBits) ==> d1 == d2 && i1 == i2
  }

  lemma CoordFromBits(depth: nat, i1: nat, i2: nat, maxPathBits: nat)
    requires maxPathBits <= WORD && InRange(depth, i1, maxPathBits) && InRange(depth, i2, maxPathBits)
    ensures CoordBits(depth, i1, maxPathBits) == CoordBits(depth, i2, maxPathBits) ==> i1 == i2
  {
    hide Shl, Shr, BitSet, BitLen, PaddedIndex;
    var w := maxPathBits - depth;
    PaddedFits(depth, i1, maxPathBits);
    PaddedFits(depth, i2, maxPathBits);
    BitLenLeast(i1, w);
    BitLenLeast(i2, w);
    if CoordBits(depth, i1, maxPathBits) == CoordBits(depth, i2, maxPathBits) {
      forall l | 0 <= l < w ensures BitSet(i1, l) <==> BitSet(i2, l) {
        ShlBits(i1, depth, l + depth);
        ShlBits(i2, depth, l + depth);
        assert CoordBits(depth, i1, maxPathBits)[w - 1 - l] == CoordBits(depth, i2, maxPathBits)[w - 1 - l];
      }
      SameBits(i1, i2, w);
    }
  }

  /** Different coordinates have different ids exactly if paths are no longer than a word: above that the shifted
      index loses its high bits. */
  lemma CoordsAreFaithful(maxPathBits: nat)
    requires maxPathBits % 8 == 0
    ensures CoordsFaithful(maxPathBits) <==> maxPathBits <= WORD
  {
    hide PaddedIndex, BitLen;
    if maxPathBits <= WORD {
      forall d1: nat, i1: nat, d2: nat, i2: nat | InRange(d1, i1, maxPathBits) && InRange(d2, i2, maxPathBits)
        ensures CoordBits(d1, i1, maxPathBits) == CoordBits(d2, i2, maxPathBits) ==> d1 == d2 && i1 == i2
      {
        if CoordBits(d1, i1, maxPathBits) == CoordBits(d2, i2, maxPathBits) {
          assert maxPathBits - d1 == |CoordBits(d1, i1, maxPathBits)| == |CoordBits(d2, i2, maxPathBits)| ==
                 maxPathBits - d2;
          CoordFromBits(d1, i1, i2, maxPathBits);
        }
      }
    } else {
      CoordsCollide(maxPathBits);
    }
  }

  /** In longer paths nodes 0 and 1 at level 64 have one id. */
  lemma CoordsCollide(maxPathBits: nat)
    requires maxPathBits > WORD && maxPathBits % 8 == 0
    ensures InRange(WORD, 0, maxPathBits) && InRange(WORD, 1, maxPathBits)
    ensures CoordBits(WORD, 0, maxPathBits) == CoordBits(WORD, 1, maxPathBits)
  {
    hide Shl, Pow2, BitSet;
    ShlZero(WORD);
    assert PaddedIndex(WORD, 0) == PaddedIndex(WORD, 1);
  }

  // ---------- suffixes as numbers ----------

  /** The last `n` bytes of a number, first byte first. */
  function BytesOf(x: nat, n: nat): (r: seq<Byte>)
    ensures |r| == n
  {
    if n == 0 then [] else BytesOf(x / 256, n - 1) + [x % 256]
  }

  lemma {:induction false} BigIntOfBytes(x: nat, n: nat)
    requires x < Pow2(8 * n)
    ensures BigInt(BytesOf(x, n)) == x
  {
    hide Shl, Pow2;
    if n == 0 {
      ShiftNothing(0);
    } else {
      BelowByte(x, n);
      BigIntOfBytes(x / 256, n - 1);
      assert BytesOf(x, n)[..n - 1] == BytesOf(x / 256, n - 1);
      ShlByte(x / 256);
    }
  }

  lemma BelowByte(x: nat, n: nat)
    requires n > 0
    ensures x < Pow2(8 * n) <==> x / 256 < Pow2(8 * (n - 1))
  {
    hide Pow2, Shl;
    ShlByte(x / 256);
    ShlBelowPow2(x / 256, 8, 8 * n);
    Pow2Shl(8 * (n - 1), 8);
    ShlByte(Pow2(8 * (n - 1)));
  }

  lemma {:induction false} BytesOfBigInt(path: seq<Byte>)
    ensures BytesOf(BigInt(path), |path|) == path
  {
    hide Shl, BytesOf, BigInt;
    NoBytesOf(BigInt(path));
    if path == [] {
      assert BytesOf(BigInt(path), 0) == path;
    } else {
      var rest, last := path[..|path| - 1], path[|path| - 1];
      BytesOfBigInt(rest);
      assert path == rest + [last];
      BigIntLast(rest, last);
      BytesLast(BigInt(rest), last, |rest|);
    }
  }

  lemma NoBytesOf(x: nat)
    ensures BytesOf(x, 0) == []
  {
  }

  lemma BigIntLast(rest: seq<Byte>, last: Byte)
    ensures BigInt(rest + [last]) == 256 * BigInt(rest) + last
  {
    hide Shl;
    var path := rest + [last];
    assert path[..|path| - 1] == rest;
    ShlByte(BigInt(rest));
  }

  lemma BytesLast(x: nat, last: Byte, n: nat)
    ensures BytesOf(256 * x + last, n + 1) == BytesOf(x, n) + [last]
  {
    assert (256 * x + last) / 256 == x && (256 * x + last) % 256 == last;
  }

  /** The number made of the bits of a suffix. */
  function SuffixNumber(k: Suffix): nat {
    if k.bits <= 8 * |k.path| then Shr(BigInt(k.path), 8 * |k.path| - k.bits) else 0
  }

  /** The bytes that a suffix of `bits` bits takes: one zero byte for none. */
  function SuffixBytes(bits: nat): nat {
    if bits == 0 then 1 else BytesForBits(bits)
  }

  /** The suffix with the given bits, as `Split` makes it. */
  function SuffixFor(bits: Byte, number: nat): Suffix {
    Suffix(bits, BytesOf(Shl(number, 8 * SuffixBytes(bits) - bits), SuffixBytes(bits)))
  }

  /** `k` has as many bytes as its bits need, and zeros after them. */
  predicate WellFormed(k: Suffix) {
    |k.path| == SuffixBytes(k.bits) && BigInt(k.path) == Shl(SuffixNumber(k), 8 * |k.path| - k.bits)
  }

  lemma SuffixForNumber(bits: Byte, number: nat)
    requires number < Pow2(bits)
    ensures WellFormed(SuffixFor(bits, number)) && SuffixNumber(SuffixFor(bits, number)) == number
  {
    hide Shl, Shr, Pow2, BigInt;
    var n := 8 * SuffixBytes(bits);
    ShlBelowPow2(number, n - bits, n);
    BigIntOfBytes(Shl(number, n - bits), SuffixBytes(bits));
    Pow2Positive(n - bits);
    ShrUnique(Shl(number, n - bits), n - bits, number);
  }

  lemma Pow2Positive(n: nat)
    ensures Pow2(n) > 0
  {
  }

  lemma NumberFitsSuffix(k: Suffix)
    requires WellFormed(k)
    ensures SuffixNumber(k) < Pow2(k.bits) && SuffixFor(k.bits, SuffixNumber(k)) == k
  {
    hide Shl, Shr, Pow2, BigInt;
    var n := 8 * |k.path|;
    BigIntFits(k.path);
    ShlBelowPow2(SuffixNumber(k), n - k.bits, n);
    BytesOfBigInt(k.path);
  }

  // ---------- what Split does to the number ----------

  /** The tree coordinates that an id stands for. */
  function CoordOfId(n: NodeID): Coord
    requires n.Valid()
  {
    var level := 8 * |n.path| - n.prefixLenBits;
    Coord(level, Shr(BigInt(n.path), level))
  }

  lemma CoordBit(n: NodeID, k: nat)
    requires n.Valid() && k < n.prefixLenBits
    ensures BitSet(CoordOfId(n).index, n.prefixLenBits - 1 - k) <==> PathBit(n.path, k)
  {
    hide Shl, Shr, BitSet, BigInt, PathBit;
    BigIntBits(n.path, k);
    ShrBits(BigInt(n.path), CoordOfId(n).level, n.prefixLenBits - 1 - k);
  }

  lemma CoordFits(n: NodeID)
    requires n.Valid()
    ensures CoordOfId(n).index < Pow2(n.prefixLenBits)
  {
    hide Shr, BigInt, Pow2;
    BigIntFits(n.path);
    ShrCompose(BigInt(n.path), CoordOfId(n).level, n.prefixLenBits);
    ShrIsZero(BigInt(n.path), 8 * |n.path|);
    ShrIsZero(CoordOfId(n).index, n.prefixLenBits);
  }

  /** Ids of one length stand for the same coordinates exactly if they name the same node. */
  lemma SameCoordIff(n1: NodeID, n2: NodeID)
    requires n1.Valid() && n2.Valid() && |n1.path| == |n2.path|
    ensures n1.Bits() == n2.Bits() <==> CoordOfId(n1) == CoordOfId(n2)
  {
    hide Shr, BitSet, BigInt, PathBit, Pow2;
    if n1.prefixLenBits == n2.prefixLenBits {
      var w := n1.prefixLenBits;
      forall k | 0 <= k < w
        ensures n1.Bits()[k] == n2.Bits()[k] <==>
                (BitSet(CoordOfId(n1).index, w - 1 - k) <==> BitSet(CoordOfId(n2).index, w - 1 - k))
      {
        CoordBit(n1, k);
        CoordBit(n2, k);
      }
      CoordFits(n1);
      CoordFits(n2);
      if n1.Bits() == n2.Bits() {
        forall l | 0 <= l < w ensures BitSet(CoordOfId(n1).index, l) <==> BitSet(CoordOfId(n2).index, l) {
          assert n1.Bits()[w - 1 - l] == n2.Bits()[w - 1 - l];
        }
        SameBits(CoordOfId(n1).index, CoordOfId(n2).index, w);
      }
    }
  }

  lemma {:induction false} BigIntConcat(p: seq<Byte>, q: seq<Byte>)
    ensures BigInt(p + q) == Shl(BigInt(p), 8 * |q|) + BigInt(q)
  {
    hide Shl;
    if q == [] {
      assert p + q == p;
      ShiftNothing(BigInt(p));
    } else {
      var rest, last := q[..|q| - 1], q[|q| - 1];
      assert (p + q)[..|p + q| - 1] == p + rest && (p + q)[|p + q| - 1] == last;
      BigIntConcat(p, rest);
      ShlAdd(Shl(BigInt(p), 8 * |rest|), BigInt(rest), 8);
      ShlCompose(BigInt(p), 8 * |rest|, 8);
    }
  }

  lemma ShrAdd(y: nat, s: nat, e: nat)
    ensures Shr(Shl(y, e) + s, e) == y + Shr(s, e)
  {
    hide Shl, Shr;
    ShrBounds(s, e);
    ShlAdd(y, Shr(s, e), e);
    ShrUnique(Shl(y, e) + s, e, y + Shr(s, e));
  }

  /** Clearing the bits after the first `n` clears them from the number. */
  lemma MaskedNumber(path: seq<Byte>, n: nat)
    requires n > 0 && |path| == BytesForBits(n)
    ensures BigInt(MaskLast(path, n)) == Shl(Shr(BigInt(path), 8 * |path| - n), 8 * |path| - n)
  {
    hide Shl, Shr, BitSet, BigInt, MaskLast, PathBit;
    var masked, w, e := MaskLast(path, n), 8 * |path|, 8 * |path| - n;
    var x := BigInt(path);
    var y := Shl(Shr(x, e), e);
    BigIntFits(masked);
    BigIntFits(path);
    ShrBounds(x, e);
    forall l | 0 <= l < w ensures BitSet(BigInt(masked), l) <==> BitSet(y, l) {
      BigIntBits(masked, w - 1 - l);
      BigIntBits(path, w - 1 - l);
      ShlBits(Shr(x, e), e, l);
      if l >= e { ShrBits(x, e, l - e); }
    }
    SameBits(BigInt(masked), y, w);
  }

  /** `Split` cuts the node's number in two: the prefix above, the suffix below. */
  lemma SplitNumber(n: NodeID, prefixBytes: nat, suffixBits: nat)
    requires n.Valid() && 0 < n.prefixLenBits - 8 * prefixBytes <= suffixBits && n.prefixLenBits - 8 * prefixBytes < 256
    ensures
      var r, bits := Split(n, prefixBytes, suffixBits), n.prefixLenBits - 8 * prefixBytes;
      && |r.0| == prefixBytes && r.1.bits == bits && WellFormed(r.1)
      && CoordOfId(n).index == Shl(BigInt(r.0), bits) + SuffixNumber(r.1)
  {
    hide Shl, Shr, BitSet, BigInt, MaskLast, PathBit;
    var bits := n.prefixLenBits - 8 * prefixBytes;
    var count := BytesForBits(bits);
    var p, q, rest := n.path[..prefixBytes], n.path[prefixBytes..prefixBytes + count], n.path[prefixBytes + count..];
    var e := 8 * count - bits;
    assert n.path == (p + q) + rest;
    BigIntConcat(p + q, rest);
    BigIntConcat(p, q);
    BigIntFits(rest);
    ShrUnique(BigInt(n.path), 8 * |rest|, BigInt(p + q));
    ShrCompose(BigInt(n.path), 8 * |rest|, e);
    ShlCompose(BigInt(p), bits, e);
    ShrAdd(Shl(BigInt(p), bits), BigInt(q), e);
    MaskedNumber(q, bits);
    var masked := MaskLast(q, bits);
    Pow2Positive(e);
    ShrUnique(BigInt(masked), e, Shr(BigInt(q), e));
  }

  lemma SuffixLength(k: Suffix)
    requires WellFormed(k) && k.bits > 0
    ensures |k.path| == BytesForBits(k.bits) <= (k.bits + 7) / 8
  {
  }

  lemma SplitJoined(px: seq<Byte>, k: Suffix, n: NodeID, depth: nat)
    requires WellFormed(k) && 0 < k.bits <= depth && n.Valid() && n.prefixLenBits == 8 * |px| + k.bits
    requires |px| + |k.path| <= |n.path| && n.path[..|px| + |k.path|] == px + k.path
    ensures Split(n, |px|, depth) == (px, k)
  {
    hide Shl, Shr, BigInt, MaskLast;
    var q := n.path[|px|..|px| + BytesForBits(k.bits)];
    assert q == (px + k.path)[|px|..] == k.path;
    assert n.path[..|px|] == (px + k.path)[..|px|] == px;
    MaskedNumber(k.path, k.bits);
    BytesOfBigInt(MaskLast(k.path, k.bits));
    BytesOfBigInt(k.path);
  }

  /** `NewNodeIDFromPrefix`: node `index`, `depth` levels below the root of a subtree of `subDepth` levels. */
  function FromPrefix(prefix: seq<Byte>, depth: nat, index: nat, subDepth: nat, totalDepth: nat): NodeID
    requires totalDepth % 8 == 0 && subDepth % 8 == 0 && depth <= subDepth <= WORD && |prefix| <= totalDepth / 8
  {
    var room := totalDepth / 8 - |prefix|;
    var subPath := BytesOf(Shl(index, subDepth - depth) % Pow2(WORD), WORD / 8)[(WORD - subDepth) / 8..];
    var copied := if |subPath| <= room then subPath else subPath[..room];
    NodeID(prefix + copied + Zeros(room - |copied|), 8 * |prefix| + depth)
  }

  lemma LowByte(x: nat)
    ensures BytesOf(x % Pow2(WORD), WORD / 8)[WORD / 8 - 1..] == [x % 256]
  {
    hide Pow2, BytesOf;
    Pow2Shl(WORD - 8, 8);
    ShlByte(Pow2(WORD - 8));
    LowByteOf(x, Pow2(WORD - 8));
    LastByte(x % Pow2(WORD), WORD / 8);
  }

  lemma LastByte(y: nat, n: nat)
    requires n > 0
    ensures BytesOf(y, n)[n - 1..] == [y % 256]
  {
  }

  lemma LowByteOf(x: nat, k: nat)
    requires k > 0
    ensures x % (256 * k) % 256 == x % 256
  {
    var q, r := x / (256 * k), x % (256 * k);
    assert x == 256 * (k * q) + r;
  }
}
