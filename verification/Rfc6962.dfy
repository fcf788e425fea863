/** Merkle tree hashes and proofs as sections 2.1, 2.1.1 and 2.1.2 of RFC 6962 define them,
    over a list `d` of leaf hashes. `D[lo:hi]` of the RFC is the pair of bounds `lo`, `hi`,
    and leaf positions and sizes are counted from the start of `d`. */
module Rfc6962 {
  import opened Bits
  import opened Hashing

  /** The largest power of two smaller than `n`. */
  function Split(n: nat): (k: nat)
    requires n >= 2
    ensures 1 <= k < n <= 2 * k
  {
    if n == 2 then 1 else 2 * Split((n + 1) / 2)
  }

  /** MTH of section 2.1. */
  function MTH(h: LogHasher, d: seq<Hash>, lo: nat, hi: nat): Hash
    requires lo <= hi <= |d|
    decreases hi - lo
  {
    if lo == hi then h.emptyRoot
    else if hi - lo == 1 then d[lo]
    else
      var k := lo + Split(hi - lo);
      h.HashChildren(MTH(h, d, lo, k), MTH(h, d, k, hi))
  }

  /** PATH of section 2.1.1: the audit path of leaf `i` in `d[lo..hi]`. */
  function Path(h: LogHasher, d: seq<Hash>, i: nat, lo: nat, hi: nat): seq<Hash>
    requires lo <= i < hi <= |d|
    decreases hi - lo
  {
    if hi - lo == 1 then []
    else
      var k := lo + Split(hi - lo);
      if i < k then Path(h, d, i, lo, k) + [MTH(h, d, k, hi)]
      else Path(h, d, i, k, hi) + [MTH(h, d, lo, k)]
  }

  /** SUBPROOF of section 2.1.2: the first `m` leaves of `d` end inside `d[lo..hi]`. */
  function SubProof(h: LogHasher, d: seq<Hash>, m: nat, lo: nat, hi: nat, b: bool): seq<Hash>
    requires lo < m <= hi <= |d|
    decreases hi - lo
  {
    if m == hi then
      if b then [] else [MTH(h, d, lo, hi)]
    else
      var k := lo + Split(hi - lo);
      if m <= k then SubProof(h, d, m, lo, k, b) + [MTH(h, d, k, hi)]
      else SubProof(h, d, m, k, hi, false) + [MTH(h, d, lo, k)]
  }

  /** The root hash of the whole list. */
  function Root(h: LogHasher, d: seq<Hash>): Hash {
    MTH(h, d, 0, |d|)
  }

  /** PATH(i, D[n]). */
  function InclusionProof(h: LogHasher, d: seq<Hash>, i: nat, n: nat): seq<Hash>
    requires i < n <= |d|
  {
    Path(h, d, i, 0, n)
  }

  /** PROOF(m, D[n]). */
  function ConsistencyProof(h: LogHasher, d: seq<Hash>, m: nat, n: nat): seq<Hash>
    requires 0 < m <= n <= |d|
  {
    SubProof(h, d, m, 0, n, true)
  }

  /** `Split` is the power of two the RFC asks for. */
  lemma {:induction false} SplitIsPow2(n: nat, l: nat)
    requires Pow2(l) < n <= Pow2(l + 1)
    ensures Split(n) == Pow2(l)
  {
    if l != 0 { SplitIsPow2((n + 1) / 2, l - 1); }
  }

  /** MTH of a range only looks at the leaves of that range. */
  lemma {:induction false} MTHLocal(h: LogHasher, d: seq<Hash>, e: seq<Hash>, lo: nat, hi: nat, off: nat)
    requires lo <= hi <= |d| && hi + off <= |e|
    requires d[lo..hi] == e[lo + off..hi + off]
    ensures MTH(h, d, lo, hi) == MTH(h, e, lo + off, hi + off)
    decreases hi - lo
  {
    hide Split;
    if hi - lo == 1 {
      assert d[lo] == d[lo..hi][0] == e[lo + off..hi + off][0];
    } else if hi - lo > 1 {
      var s := Split(hi - lo);
      var k := lo + s;
      assert d[lo..k] == d[lo..hi][..s] == e[lo + off..hi + off][..s] == e[lo + off..k + off];
      assert d[k..hi] == d[lo..hi][s..] == e[lo + off..hi + off][s..] == e[k + off..hi + off];
      MTHLocal(h, d, e, lo, k, off);
      MTHLocal(h, d, e, k, hi, off);
    }
  }

  /** Where two lists of the same length and root first hash different pairs to the same value. */
  function RootCollision(h: LogHasher, d: seq<Hash>, e: seq<Hash>, lo: nat, hi: nat): Pairs
    requires lo < hi <= |d| && hi <= |e|
    decreases hi - lo
  {
    if hi - lo == 1 then Pairs(d[lo], d[lo], e[lo], e[lo])
    else
      var k := lo + Split(hi - lo);
      var found := Pairs(MTH(h, d, lo, k), MTH(h, d, k, hi), MTH(h, e, lo, k), MTH(h, e, k, hi));
      if found.Collides(h) then found
      else if d[lo..k] != e[lo..k] then RootCollision(h, d, e, lo, k)
      else RootCollision(h, d, e, k, hi)
  }

  /** Lists of one length with one root are equal, or `RootCollision` is a collision. */
  lemma {:induction false} MTHInjective(h: LogHasher, d: seq<Hash>, e: seq<Hash>, lo: nat, hi: nat)
    requires lo < hi <= |d| && hi <= |e| && MTH(h, d, lo, hi) == MTH(h, e, lo, hi)
    ensures d[lo..hi] == e[lo..hi] || RootCollision(h, d, e, lo, hi).Collides(h)
    decreases hi - lo
  {
    if hi - lo > 1 {
      var k := lo + Split(hi - lo);
      if !RootCollision(h, d, e, lo, hi).Collides(h) {
        if d[lo..k] != e[lo..k] {
          MTHInjective(h, d, e, lo, k);
        } else {
          MTHInjective(h, d, e, k, hi);
        }
        assert d[lo..hi] == d[lo..k] + d[k..hi] && e[lo..hi] == e[lo..k] + e[k..hi];
      }
    }
  }
}
