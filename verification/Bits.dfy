/** Shifts and bit lengths on natural numbers, defined level by level so that every
    fact about them follows from linear arithmetic. */
module Bits {

  /** `i << l`. */
  function Shl(i: nat, l: nat): nat {
    if l == 0 then i else 2 * Shl(i, l - 1)
  }

  /** `x >> l`. */
  function Shr(x: nat, l: nat): nat {
    if l == 0 then x else Shr(x, l - 1) / 2
  }

  /** `1 << l`. */
  function Pow2(l: nat): (p: nat)
    ensures p >= 1
  {
    if l == 0 then 1 else 2 * Pow2(l - 1)
  }

  /** Bit `l` of `x`, counted from the right. */
  predicate BitSet(x: nat, l: nat) {
    Shr(x, l) % 2 == 1
  }

  /** The number of binary digits of `x`; zero for zero. */
  function BitLen(x: nat): nat {
    if x == 0 then 0 else 1 + BitLen(x / 2)
  }

  lemma ShiftNothing(x: nat)
    ensures Shr(x, 0) == x == Shl(x, 0) && Pow2(0) == 1
  {
  }

  lemma Pow2Step(l: nat)
    ensures Pow2(l + 1) == 2 * Pow2(l)
  {
  }

  lemma ShrStep(x: nat, l: nat)
    ensures Shr(x, 0) == x
    ensures Shr(x, l + 1) == Shr(x, l) / 2
  {
  }

  lemma {:induction false} ShlSucc(i: nat, l: nat)
    ensures Shl(i + 1, l) == Shl(i, l) + Pow2(l)
  {
    if l != 0 { ShlSucc(i, l - 1); }
  }

  lemma {:induction false} ShlAdd(i: nat, j: nat, l: nat)
    ensures Shl(i + j, l) == Shl(i, l) + Shl(j, l)
  {
    if l != 0 { ShlAdd(i, j, l - 1); }
  }

  lemma {:induction false} ShlZero(l: nat)
    ensures Shl(0, l) == 0 && Shl(1, l) == Pow2(l)
  {
    if l != 0 { ShlZero(l - 1); }
  }

  lemma {:induction false} ShlDouble(i: nat, l: nat)
    ensures Shl(2 * i, l) == Shl(i, l + 1)
  {
    if l != 0 { ShlDouble(i, l - 1); }
  }

  lemma {:induction false} ShlMonotone(i: nat, j: nat, l: nat)
    requires i < j
    ensures Shl(i, l) + Pow2(l) <= Shl(j, l)
  {
    if l != 0 { ShlMonotone(i, j, l - 1); }
  }

  lemma {:induction false} ShlCompose(i: nat, a: nat, b: nat)
    ensures Shl(Shl(i, a), b) == Shl(i, a + b)
  {
    if b != 0 { ShlCompose(i, a, b - 1); }
  }

  /** Shifting by `l` fills `bits` places exactly from below `2^(bits - l)`. */
  lemma {:induction false} ShlBelowPow2(i: nat, l: nat, bits: nat)
    requires l <= bits
    ensures Shl(i, l) < Pow2(bits) <==> i < Pow2(bits - l)
  {
    if l > 0 { ShlBelowPow2(i, l - 1, bits - 1); }
  }

  /** `Shr(x, l)` is the index, at level `l`, of the block of `2^l` numbers holding `x`. */
  lemma {:induction false} ShrBounds(x: nat, l: nat)
    ensures Shl(Shr(x, l), l) <= x < Shl(Shr(x, l), l) + Pow2(l)
  {
    if l != 0 {
      ShrBounds(x, l - 1);
      var y := Shr(x, l - 1);
      ShlDouble(y / 2, l - 1);
      ShlSucc(2 * (y / 2), l - 1);
    }
  }

  lemma ShrUnique(x: nat, l: nat, i: nat)
    requires Shl(i, l) <= x < Shl(i, l) + Pow2(l)
    ensures Shr(x, l) == i
  {
    ShrBounds(x, l);
    var y := Shr(x, l);
    if y < i { ShlMonotone(y, i, l); }
    if i < y { ShlMonotone(i, y, l); }
  }

  /** A block begins at or below `x` exactly when its index is at most that of `x`'s block. */
  lemma ShrCompare(i: nat, l: nat, x: nat)
    ensures Shl(i, l) <= x <==> i <= Shr(x, l)
  {
    ShrBounds(x, l);
    var y := Shr(x, l);
    if i < y { ShlMonotone(i, y, l); }
    if y < i { ShlMonotone(y, i, l); }
  }

  lemma ShrMonotone(x: nat, y: nat, l: nat)
    requires x <= y
    ensures Shr(x, l) <= Shr(y, l)
  {
    ShrBounds(x, l);
    ShrCompare(Shr(x, l), l, y);
  }

  lemma ShrIsZero(x: nat, l: nat)
    ensures Shr(x, l) == 0 <==> x < Pow2(l)
  {
    ShlZero(l);
    ShrCompare(1, l, x);
  }

  lemma {:induction false} ShrHalf(x: nat, l: nat)
    ensures Shr(x / 2, l) == Shr(x, l + 1)
  {
    if l != 0 { ShrHalf(x, l - 1); }
  }

  lemma {:induction false} ShrCompose(x: nat, a: nat, b: nat)
    ensures Shr(Shr(x, a), b) == Shr(x, a + b)
  {
    if b != 0 { ShrCompose(x, a, b - 1); }
  }

  lemma {:induction false} Pow2Monotone(a: nat, b: nat)
    requires a <= b
    ensures Pow2(a) <= Pow2(b)
  {
    if a < b { Pow2Monotone(a, b - 1); }
  }

  lemma {:induction false} Pow2Grows(l: nat)
    ensures l < Pow2(l)
  {
    if l != 0 { Pow2Grows(l - 1); }
  }

  lemma {:induction false} BitLenBounds(x: nat)
    ensures x < Pow2(BitLen(x))
    ensures x > 0 ==> Pow2(BitLen(x) - 1) <= x
  {
    if x > 0 { BitLenBounds(x / 2); }
  }

  /** `BitLen` is the least number of places that hold `x`. */
  lemma BitLenLeast(x: nat, l: nat)
    ensures BitLen(x) <= l <==> x < Pow2(l)
    ensures BitLen(x) <= l <==> Shr(x, l) == 0
  {
    BitLenBounds(x);
    ShrIsZero(x, l);
    if BitLen(x) <= l { Pow2Monotone(BitLen(x), l); }
    if l < BitLen(x) { Pow2Monotone(l, BitLen(x) - 1); }
  }

  /** `x & y`. */
  function And(x: nat, y: nat): nat {
    if x == 0 || y == 0 then 0 else 2 * And(x / 2, y / 2) + if x % 2 == 1 && y % 2 == 1 then 1 else 0
  }

  lemma {:induction false} AndSelf(x: nat)
    ensures And(x, x) == x
  {
    if x != 0 { AndSelf(x / 2); }
  }

  /** `x & (x - 1)` clears the lowest one bit, so it is zero for powers of two only. */
  lemma {:induction false} AndPredIsZero(x: nat)
    requires x > 0
    ensures And(x, x - 1) == 0 <==> x == Pow2(BitLen(x) - 1)
  {
    if x > 1 {
      if x % 2 == 0 {
        assert (x - 1) / 2 == x / 2 - 1;
        AndPredIsZero(x / 2);
      } else {
        assert (x - 1) / 2 == x / 2;
        AndSelf(x / 2);
      }
    }
  }

  /** Numbers with the same bits are equal. */
  lemma {:induction false} SameBits(x: nat, y: nat, w: nat)
    requires x < Pow2(w) && y < Pow2(w) && forall l :: 0 <= l < w ==> (BitSet(x, l) <==> BitSet(y, l))
    ensures x == y
  {
    if w > 0 {
      assert BitSet(x, 0) <==> BitSet(y, 0);
      forall l | 0 <= l < w - 1 ensures BitSet(x / 2, l) <==> BitSet(y / 2, l) {
        ShrHalf(x, l);
        ShrHalf(y, l);
        assert BitSet(x, l + 1) <==> BitSet(y, l + 1);
      }
      SameBits(x / 2, y / 2, w - 1);
    }
  }

  lemma {:induction false} AndBits(x: nat, y: nat, l: nat)
    ensures BitSet(And(x, y), l) <==> BitSet(x, l) && BitSet(y, l)
  {
    ShrZero(l);
    if x != 0 && y != 0 && l > 0 {
      var z := And(x, y);
      ShrHalf(x, l - 1);
      ShrHalf(y, l - 1);
      ShrHalf(z, l - 1);
      assert z / 2 == And(x / 2, y / 2);
      AndBits(x / 2, y / 2, l - 1);
    }
  }

  lemma {:induction false} ShrZero(l: nat)
    ensures Shr(0, l) == 0
  {
    if l > 0 { ShrZero(l - 1); }
  }

  /** Shifting moves the bits and fills in zeros. */
  lemma {:induction false} ShlBits(x: nat, s: nat, l: nat)
    ensures BitSet(Shl(x, s), l) <==> l >= s && BitSet(x, l - s)
  {
    if s > 0 {
      ShlBits(x, s - 1, if l > 0 then l - 1 else 0);
      if l > 0 { ShrHalf(Shl(x, s), l - 1); }
    }
  }

  lemma ShrBits(x: nat, s: nat, l: nat)
    ensures BitSet(Shr(x, s), l) <==> BitSet(x, s + l)
  {
    ShrCompose(x, s, l);
  }
}
