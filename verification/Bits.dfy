/**
 Machine words and the bitwise operators of the modelled programs.

 A word of width w is the natural number below 2^w that it holds.  The operators are defined
 on the binary digits of that number, and `AndBit`, `OrBit` and `XorBit` say that each acts
 digit by digit.  The lemmas after them turn the masks and shifts that the programs use into
 ordinary arithmetic, once and for all.
 */
module Bits {
  import opened Arithmetic

  type u8 = x: int | 0 <= x < 0x100
  type u16 = x: int | 0 <= x < 0x1_0000
  type u32 = x: int | 0 <= x < 0x1_0000_0000
  type u64 = x: int | 0 <= x < 0x1_0000_0000_0000_0000

  function Pow2(k: nat): (p: nat)
    ensures p > 0
  {
    if k == 0 then 1 else 2 * Pow2(k - 1)
  }

  /** x >> k */
  function Shr(x: nat, k: nat): nat
    decreases k, x
  {
    if k == 0 then x else Shr(x / 2, k - 1)
  }

  /** x << k, before truncation to the word's width */
  function Shl(x: nat, k: nat): nat
    decreases k, x
  {
    if k == 0 then x else 2 * Shl(x, k - 1)
  }

  /** The low k bits of x */
  function Low(x: nat, k: nat): (y: nat)
    ensures y < Pow2(k)
    decreases k, x
  {
    if k == 0 then 0 else 2 * Low(x / 2, k - 1) + x % 2
  }

  /** x with its low k bits cleared */
  function ClearLow(x: nat, k: nat): nat
    decreases k, x
  {
    if k == 0 then x else 2 * ClearLow(x / 2, k - 1)
  }

  predicate Bit(x: nat, i: nat) {
    Shr(x, i) % 2 == 1
  }

  function And(x: nat, y: nat): nat
    decreases x, y
  {
    if x == 0 then 0
    else 2 * And(x / 2, y / 2) + (if x % 2 == 1 && y % 2 == 1 then 1 else 0)
  }

  function Or(x: nat, y: nat): nat
    decreases x, y
  {
    if x == 0 then y
    else 2 * Or(x / 2, y / 2) + (if x % 2 == 1 || y % 2 == 1 then 1 else 0)
  }

  function Xor(x: nat, y: nat): nat
    decreases x, y
  {
    if x == 0 then y
    else 2 * Xor(x / 2, y / 2) + (if x % 2 != y % 2 then 1 else 0)
  }

  // ----- the operators act on each binary digit -----

  lemma ZeroHasNoBits(i: nat)
    ensures Shr(0, i) == 0 && !Bit(0, i)
  {
    if i > 0 { ZeroHasNoBits(i - 1); }
  }

  lemma {:induction false} AndBit(x: nat, y: nat, i: nat)
    ensures Bit(And(x, y), i) <==> Bit(x, i) && Bit(y, i)
    decreases i
  {
    if x == 0 {
      ZeroHasNoBits(i);
    } else if i > 0 {
      AndBit(x / 2, y / 2, i - 1);
    }
  }

  lemma {:induction false} OrBit(x: nat, y: nat, i: nat)
    ensures Bit(Or(x, y), i) <==> Bit(x, i) || Bit(y, i)
    decreases i
  {
    if x == 0 {
      ZeroHasNoBits(i);
    } else if i > 0 {
      OrBit(x / 2, y / 2, i - 1);
    }
  }

  lemma {:induction false} XorBit(x: nat, y: nat, i: nat)
    ensures Bit(Xor(x, y), i) <==> Bit(x, i) != Bit(y, i)
    decreases i
  {
    if x == 0 {
      ZeroHasNoBits(i);
    } else if i > 0 {
      XorBit(x / 2, y / 2, i - 1);
    }
  }

  ghost predicate SameBits(x: nat, y: nat, from: nat, to: nat) {
    forall i :: from <= i < to ==> Bit(x, i) == Bit(y, i)
  }

  lemma SameBitsHalved(x: nat, y: nat, from: nat, to: nat)
    requires from > 0 && to > 0
    ensures SameBits(x, y, from, to) <==> SameBits(x / 2, y / 2, from - 1, to - 1)
  {
    if SameBits(x, y, from, to) {
      forall i | from - 1 <= i < to - 1 ensures Bit(x / 2, i) == Bit(y / 2, i) {
        assert Bit(x, i + 1) == Bit(y, i + 1);
      }
    }
    if SameBits(x / 2, y / 2, from - 1, to - 1) {
      forall i | from <= i < to ensures Bit(x, i) == Bit(y, i) {
        assert Bit(x / 2, i - 1) == Bit(y / 2, i - 1);
      }
    }
  }

  /** Two words of width w agree above bit s exactly when their upper bits agree one by one. */
  lemma {:induction false} SameHighBits(x: nat, y: nat, s: nat, w: nat)
    requires s <= w && x < Pow2(w) && y < Pow2(w)
    ensures Shr(x, s) == Shr(y, s) <==> SameBits(x, y, s, w)
    decreases w
  {
    if w == 0 {
    } else if s == 0 {
      SameHighBits(x / 2, y / 2, 0, w - 1);
      SameBitsHalved(x, y, 1, w);
      assert SameBits(x, y, 0, w) <==> SameBits(x, y, 1, w) && Bit(x, 0) == Bit(y, 0);
    } else {
      SameHighBits(x / 2, y / 2, s - 1, w - 1);
      SameBitsHalved(x, y, s, w);
    }
  }

  // ----- shifts and masks as arithmetic -----

  /** The numbers that agree with x above bit k form one range of length 2^k. */
  lemma {:induction false} SameHighIsRange(x: nat, y: nat, k: nat)
    ensures Shr(x, k) == Shr(y, k) <==> ClearLow(x, k) <= y < ClearLow(x, k) + Pow2(k)
    decreases k
  {
    if k > 0 { SameHighIsRange(x / 2, y / 2, k - 1); }
  }

  lemma {:induction false} SameHighIsSameClear(x: nat, y: nat, k: nat)
    ensures Shr(x, k) == Shr(y, k) <==> ClearLow(x, k) == ClearLow(y, k)
    decreases k
  {
    if k > 0 { SameHighIsSameClear(x / 2, y / 2, k - 1); }
  }

  lemma {:induction false} ClearLowFits(x: nat, k: nat, w: nat)
    requires k <= w && x < Pow2(w)
    ensures ClearLow(x, k) + Pow2(k) <= Pow2(w)
    decreases k
  {
    if k > 0 { ClearLowFits(x / 2, k - 1, w - 1); }
  }

  /** Clearing k bits leaves everything from bit j >= k on, and room for 2^k below it. */
  lemma {:induction false} ClearLowBelow(x: nat, k: nat, j: nat)
    requires k <= j
    ensures Shr(ClearLow(x, k), j) == Shr(x, j)
    ensures Low(ClearLow(x, k), j) + Pow2(k) <= Pow2(j)
    decreases j
  {
    if k == 0 {
    } else {
      ClearLowBelow(x / 2, k - 1, j - 1);
    }
  }

  lemma {:induction false} ClearLowShr(x: nat, k: nat, j: nat)
    ensures Shr(ClearLow(x, k + j), j) == ClearLow(Shr(x, j), k)
    decreases j
  {
    if j > 0 { ClearLowShr(x / 2, k, j - 1); }
  }

  lemma {:induction false} ShrAdds(x: nat, j: nat, k: nat)
    ensures Shr(x, j + k) == Shr(Shr(x, j), k)
    decreases j
  {
    if j > 0 { ShrAdds(x / 2, j - 1, k); }
  }

  lemma {:induction false} AndZero(x: nat)
    ensures And(x, 0) == 0
    decreases x
  {
    if x > 0 { AndZero(x / 2); }
  }

  lemma {:induction false} LowOfZero(k: nat)
    ensures Low(0, k) == 0 && ClearLow(0, k) == 0
  {
    if k > 0 { LowOfZero(k - 1); }
  }

  /** x & (2^k - 1) keeps the low k bits. */
  lemma {:induction false} AndLowMask(x: nat, k: nat)
    ensures And(x, Pow2(k) - 1) == Low(x, k)
    decreases k
  {
    if x == 0 {
      LowOfZero(k);
    } else if k == 0 {
      AndZero(x);
    } else {
      AndLowMask(x / 2, k - 1);
      assert (Pow2(k) - 1) / 2 == Pow2(k - 1) - 1;
    }
  }

  lemma {:induction false} LowIsAll(x: nat, w: nat)
    requires x < Pow2(w)
    ensures Low(x, w) == x && Shr(x, w) == 0
    decreases w
  {
    if w > 0 { LowIsAll(x / 2, w - 1); }
  }

  /** x & (2^w - 2^s) clears the low s bits of a word of width w. */
  lemma {:induction false} AndHighMask(x: nat, s: nat, w: nat)
    requires s <= w && x < Pow2(w)
    ensures Pow2(s) <= Pow2(w)
    ensures And(x, Pow2(w) - Pow2(s)) == ClearLow(x, s)
    decreases w
  {
    if s == 0 {
      AndLowMask(x, w);
      LowIsAll(x, w);
    } else {
      AndHighMask(x / 2, s - 1, w - 1);
      assert (Pow2(w) - Pow2(s)) / 2 == Pow2(w - 1) - Pow2(s - 1);
      LowOfZero(s);
    }
  }

  /** The mask that !0 << s leaves in a word of width w: all but the low s bits. */
  lemma ShiftedMask(s: nat, w: nat)
    requires s <= w
    ensures Pow2(s) <= Pow2(w)
    ensures Shl(Pow2(w) - 1, s) % Pow2(w) == Pow2(w) - Pow2(s)
  {
    Pow2Monotone(s, w);
    ShlIsTimes(Pow2(w) - 1, s);
    LessOneMultiple(Pow2(s), Pow2(w));
  }

  lemma LessOneMultiple(p: nat, q: nat)
    requires 0 < p <= q
    ensures (q - 1) * p % q == q - p
  {
    assert (q - 1) * p == q * (p - 1) + (q - p);
    DivModUnique((q - 1) * p, q, p - 1, q - p);
  }

  lemma Pow2Monotone(a: nat, b: nat)
    requires a <= b
    ensures Pow2(a) <= Pow2(b)
  {
    if a < b { Pow2Monotone(a, b - 1); }
  }

  /** x & 2^k tests bit k. */
  lemma {:induction false} AndSingle(x: nat, k: nat)
    ensures And(x, Pow2(k)) != 0 <==> Bit(x, k)
    decreases k
  {
    if x == 0 {
      ZeroHasNoBits(k);
    } else if k > 0 {
      AndSingle(x / 2, k - 1);
    } else {
      AndZero(x / 2);
    }
  }

  lemma {:induction false} OrZero(x: nat)
    ensures Or(x, 0) == x
    decreases x
  {
    if x > 0 { OrZero(x / 2); }
  }

  /** (hi << k) | lo is a sum when lo has no bit at or above k; the same holds for ^. */
  lemma {:induction false} OrDisjoint(hi: nat, lo: nat, k: nat)
    requires lo < Pow2(k)
    ensures Or(Shl(hi, k), lo) == Shl(hi, k) + lo
    decreases k
  {
    if k == 0 {
      OrZero(hi);
    } else {
      OrDisjoint(hi, lo / 2, k - 1);
    }
  }

  // ----- exclusive or is an abelian group in which every element is its own inverse -----

  lemma {:induction false} XorZero(x: nat)
    ensures Xor(x, 0) == x
    decreases x
  {
    if x > 0 { XorZero(x / 2); }
  }

  lemma {:induction false} XorCommutes(x: nat, y: nat)
    ensures Xor(x, y) == Xor(y, x)
    decreases x
  {
    if x == 0 {
      XorZero(y);
    } else if y > 0 {
      XorCommutes(x / 2, y / 2);
    } else {
      XorZero(x);
    }
  }

  /** One step of the digit recursion, which holds for zero operands too. */
  lemma XorUnfold(x: nat, y: nat)
    ensures Xor(x, y) / 2 == Xor(x / 2, y / 2)
    ensures Xor(x, y) % 2 == if x % 2 != y % 2 then 1 else 0
  {
  }

  lemma {:induction false} XorAssociates(x: nat, y: nat, z: nat)
    ensures Xor(Xor(x, y), z) == Xor(x, Xor(y, z))
    decreases x
  {
    if x > 0 {
      XorAssociates(x / 2, y / 2, z / 2);
      XorUnfold(x, y);
      XorUnfold(y, z);
      XorUnfold(Xor(x, y), z);
      XorUnfold(x, Xor(y, z));
    }
  }

  lemma {:induction false} XorIsZero(x: nat, y: nat)
    ensures Xor(x, y) == 0 <==> x == y
    decreases x
  {
    if x > 0 { XorIsZero(x / 2, y / 2); }
  }

  lemma {:induction false} XorBound(x: nat, y: nat, k: nat)
    requires x < Pow2(k) && y < Pow2(k)
    ensures Xor(x, y) < Pow2(k)
    decreases k
  {
    if k > 0 { XorBound(x / 2, y / 2, k - 1); }
  }

  lemma {:induction false} XorSplit(hi: nat, lo: nat, k: nat)
    requires lo < Pow2(k)
    ensures Xor(Shl(hi, k), lo) == Shl(hi, k) + lo
    decreases k
  {
    if k == 0 {
      XorZero(hi);
    } else {
      XorSplit(hi, lo / 2, k - 1);
    }
  }

  lemma {:induction false} XorShr(x: nat, y: nat, k: nat)
    ensures Shr(Xor(x, y), k) == Xor(Shr(x, k), Shr(y, k))
    decreases k
  {
    XorUnfold(x, y);
    if k > 0 { XorShr(x / 2, y / 2, k - 1); }
  }

  lemma XorClearedIsZero(x: nat, y: nat, s: nat)
    ensures ClearLow(Xor(x, y), s) == 0 <==> Shr(x, s) == Shr(y, s)
  {
    SameHighIsSameClear(Xor(x, y), 0, s);
    LowOfZero(s);
    ZeroHasNoBits(s);
    XorShr(x, y, s);
    XorIsZero(Shr(x, s), Shr(y, s));
  }

  // ----- the widths that the programs write as literals -----

  lemma Pow2Values()
    ensures Pow2(1) == 2 && Pow2(2) == 4 && Pow2(4) == 16 && Pow2(6) == 64 && Pow2(8) == 0x100
    ensures Pow2(13) == 0x2000 && Pow2(16) == 0x1_0000 && Pow2(24) == 0x100_0000
    ensures Pow2(30) == 0x4000_0000 && Pow2(31) == 0x8000_0000
    ensures Pow2(32) == 0x1_0000_0000
  {
  }

  lemma {:induction false} Recompose(x: nat, k: nat)
    ensures x == Shl(Shr(x, k), k) + Low(x, k)
    decreases k
  {
    if k > 0 { Recompose(x / 2, k - 1); }
  }

  lemma {:induction false} ShlIsTimes(x: nat, k: nat)
    ensures Shl(x, k) == x * Pow2(k)
    decreases k
  {
    if k > 0 { ShlIsTimes(x, k - 1); }
  }

  lemma SplitByPower(x: nat, k: nat, p: nat)
    requires p == Pow2(k)
    ensures Shr(x, k) == x / p && Low(x, k) == x % p && Shl(x, k) == p * x
  {
    var q, r := Shr(x, k), Low(x, k);
    Recompose(x, k);
    ShlIsTimes(q, k);
    ShlIsTimes(x, k);
    DivModUnique(x, p, q, r);
  }

  /** Shifts and masks by k bits are arithmetic with p. */
  ghost predicate Splits(x: nat, k: nat, p: nat)
    requires p > 0
  {
    Pow2(k) == p && Shr(x, k) == x / p && Low(x, k) == x % p && Shl(x, k) == p * x
  }

  /** That is so with the literal p that is 2^k. */
  lemma Split(x: nat, k: nat)
    ensures k == 2 ==> Splits(x, 2, 4)
    ensures k == 4 ==> Splits(x, 4, 16)
    ensures k == 6 ==> Splits(x, 6, 64)
    ensures k == 8 ==> Splits(x, 8, 0x100)
    ensures k == 13 ==> Splits(x, 13, 0x2000)
    ensures k == 16 ==> Splits(x, 16, 0x1_0000)
    ensures k == 24 ==> Splits(x, 24, 0x100_0000)
    ensures k == 30 ==> Splits(x, 30, 0x4000_0000)
    ensures k == 31 ==> Splits(x, 31, 0x8000_0000)
    ensures k == 32 ==> Splits(x, 32, 0x1_0000_0000)
  {
    Pow2Values();
    SplitByPower(x, k, Pow2(k));
  }
}
