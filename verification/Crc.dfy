/**
 The CRC-32C that selects a cache bucket (apec-demo/rs/maglev/src/table.rs), computed a byte at
 a time from a table, against the bit-by-bit reflected division that defines it
 (RFC 3720, section 12.1).
 */
module Crc {
  import opened Bits

  const POLY: u32 := 0x82F6_3B78

  /** One step of the reflected division: shift right, subtract the polynomial if a 1 fell out. */
  function Step(crc: nat): nat {
    if crc % 2 == 1 then Xor(crc / 2, POLY) else crc / 2
  }

  function Steps(crc: nat, k: nat): nat
    decreases k, crc
  {
    if k == 0 then crc else Steps(Step(crc), k - 1)
  }

  /** The reference: k bits of data, least significant first, each added before its step. */
  function Divide(crc: nat, data: nat, k: nat): nat
    decreases k, data
  {
    if k == 0 then crc else Divide(Step(Xor(crc, data % 2)), data / 2, k - 1)
  }

  // ----- the step is linear -----

  lemma XorCancels(x: nat, y: nat, p: nat)
    ensures Xor(Xor(x, p), Xor(y, p)) == Xor(x, y)
    ensures Xor(Xor(x, p), y) == Xor(Xor(x, y), p) == Xor(x, Xor(y, p))
  {
    XorAssociates(x, p, Xor(y, p));
    XorCommutes(y, p);
    XorAssociates(p, p, y);
    XorIsZero(p, p);
    XorAssociates(x, p, y);
    XorAssociates(x, y, p);
  }

  lemma StepLinear(x: nat, y: nat)
    ensures Step(Xor(x, y)) == Xor(Step(x), Step(y))
  {
    XorUnfold(x, y);
    XorCancels(x / 2, y / 2, POLY);
  }

  lemma {:induction false} StepsLinear(x: nat, y: nat, k: nat)
    ensures Steps(Xor(x, y), k) == Xor(Steps(x, k), Steps(y, k))
    decreases k
  {
    if k > 0 {
      StepLinear(x, y);
      StepsLinear(Step(x), Step(y), k - 1);
    }
  }

  /** Bits above the steps taken only move down. */
  lemma {:induction false} StepsShift(x: nat, k: nat)
    ensures Steps(Shl(x, k), k) == x
    decreases k
  {
    if k > 0 {
      assert Step(Shl(x, k)) == Shl(x, k - 1);
      StepsShift(x, k - 1);
    }
  }

  lemma {:induction false} StepsAdd(x: nat, j: nat, k: nat)
    ensures Steps(x, j + k) == Steps(Steps(x, j), k)
    decreases j
  {
    if j > 0 { StepsAdd(Step(x), j - 1, k); }
  }

  /** Feeding data bit by bit is adding it all at once and then stepping. */
  lemma {:induction false} DivideIsSteps(crc: nat, data: nat, k: nat)
    requires data < Pow2(k)
    ensures Divide(crc, data, k) == Steps(Xor(crc, data), k)
    decreases k
  {
    if k == 0 {
      XorZero(crc);
    } else {
      DivideIsSteps(Step(Xor(crc, data % 2)), data / 2, k - 1);
      StepAbsorbs(crc, data);
    }
  }

  lemma StepAbsorbs(crc: nat, data: nat)
    ensures Step(Xor(crc, data)) == Xor(Step(Xor(crc, data % 2)), data / 2)
  {
    XorUnfold(crc, data);
    XorLowBit(crc, data % 2);
    XorCancels(crc / 2, data / 2, POLY);
  }

  lemma XorLowBit(x: nat, bit: nat)
    requires bit < 2
    ensures Xor(x, bit) / 2 == x / 2 && Xor(x, bit) % 2 == if x % 2 != bit then 1 else 0
  {
    XorUnfold(x, bit);
    XorZero(x / 2);
  }

  lemma StepBound(x: nat)
    requires x < 0x1_0000_0000
    ensures Step(x) < 0x1_0000_0000
  {
    Split(0, 32);
    XorBound(x / 2, POLY, 32);
  }

  lemma {:induction false} StepsBound(x: nat, k: nat)
    requires x < 0x1_0000_0000
    ensures Steps(x, k) < 0x1_0000_0000
    decreases k
  {
    if k > 0 {
      StepBound(x);
      StepsBound(Step(x), k - 1);
    }
  }

  // ----- a byte at a time -----

  function TableEntry(i: u8): u32 {
    StepsBound(i, 8);
    Steps(i, 8)
  }

  function LowByte(x: nat): u8 {
    AndLowMask(x, 8);
    Split(x, 8);
    And(x, 0xff)
  }

  /** The table row of the low byte, and the rest of the register shifted down ... */
  function ByteUpdate(crc: u32, b: u8): (crc': u32)
    ensures crc' == Steps(Xor(crc, b), 8)
  {
    ByteStep(crc, b);
    Split(0, 32);
    XorBound(crc, b, 32);
    StepsBound(Xor(crc, b), 8);
    Xor(TableEntry(LowByte(Xor(crc, b))), Shr(crc, 8))
  }

  lemma TwoParts(x: nat)
    ensures Xor(Shl(x / 0x100, 8), x % 0x100) == x
  {
    Split(x / 0x100, 8);
    XorSplit(x / 0x100, x % 0x100, 8);
  }

  /** ... are eight steps. */
  lemma ByteStep(crc: u32, b: u8)
    ensures Xor(TableEntry(LowByte(Xor(crc, b))), Shr(crc, 8)) == Steps(Xor(crc, b), 8)
  {
    var z := Xor(crc, b);
    LowByteIsRemainder(z);
    RestOfXor(crc, b);
    TwoParts(z);
    StepsOfParts(z / 0x100, z % 0x100);
  }

  lemma LowByteIsRemainder(x: nat)
    ensures LowByte(x) == x % 0x100
  {
    AndLowMask(x, 8);
    Split(x, 8);
  }

  /** The bits above the lowest byte are those of the register. */
  lemma RestOfXor(crc: u32, b: u8)
    ensures Xor(crc, b) / 0x100 == Shr(crc, 8)
  {
    Split(Xor(crc, b), 8);
    Split(b, 8);
    XorShr(crc, b, 8);
    XorZero(Shr(crc, 8));
  }

  lemma StepsOfParts(hi: nat, lo: nat)
    ensures Steps(Xor(Shl(hi, 8), lo), 8) == Xor(Steps(lo, 8), hi)
  {
    StepsLinear(Shl(hi, 8), lo, 8);
    StepsShift(hi, 8);
    XorCommutes(hi, Steps(lo, 8));
  }

  /** The byte that the register absorbs next may be added at any time before. */
  lemma AbsorbNext(crc: nat, data: nat)
    ensures Steps(Xor(crc, data), 8) == Xor(Steps(Xor(crc, data % 0x100), 8), data / 0x100)
  {
    var hi, lo := data / 0x100, data % 0x100;
    TwoParts(data);
    XorCommutes(Shl(hi, 8), lo);
    XorAssociates(crc, lo, Shl(hi, 8));
    StepsLinear(Xor(crc, lo), Shl(hi, 8), 8);
    StepsShift(hi, 8);
  }

  ghost predicate IsTable(table: seq<u32>) {
    |table| == 256 && forall i :: 0 <= i < 256 ==> table[i] == TableEntry(i)
  }

  method BuildTable() returns (table: array<u32>)
    ensures IsTable(table[..])
  {
    table := new u32[256](_ => 0);
    var i := 0;
    while i < 256
      invariant 0 <= i <= 256 && forall k :: 0 <= k < i ==> table[k] == TableEntry(k)
    {
      var crc: u32, j := i, 0;
      while j < 8
        invariant 0 <= j <= 8 && Steps(crc, 8 - j) == Steps(i, 8)
        invariant forall k :: 0 <= k < i ==> table[k] == TableEntry(k)
      {
        BitTest(crc);
        StepBound(crc);
        crc := if And(crc, 1) != 0 then Xor(Shr(crc, 1), POLY) else Shr(crc, 1);
        j := j + 1;
      }
      assert crc == Steps(crc, 8 - j) == TableEntry(i);
      table[i] := crc;
      i := i + 1;
    }
  }

  lemma BitTest(crc: u32)
    ensures And(crc, 1) != 0 <==> crc % 2 == 1
    ensures Shr(crc, 1) == crc / 2
  {
    AndZero(crc / 2);
  }

  function LeBytes(x: u32): (b: seq<u8>)
    ensures |b| == 4
  {
    [x % 0x100, x / 0x100 % 0x100, x / 0x1_0000 % 0x100, x / 0x100_0000]
  }

  /** What one byte does to the division, while n more bits follow. */
  lemma OneByte(crc: u32, rest: u32, n: nat)
    ensures Steps(Xor(ByteUpdate(crc, rest % 0x100), rest / 0x100), n) == Steps(Xor(crc, rest), n + 8)
  {
    AbsorbNext(crc, rest);
    StepsAdd(Xor(crc, rest), 8, n);
  }

  /** What is left of the word after k bytes. */
  function Rest(data: u32, k: nat): u32
    requires k <= 4
  {
    if k == 0 then data else Rest(data, k - 1) / 0x100
  }

  lemma RestBytes(data: u32, k: nat)
    requires k < 4
    ensures LeBytes(data)[k] == Rest(data, k) % 0x100
    ensures Rest(data, 4) == 0
  {
    assert Rest(data, 1) == data / 0x100;
    assert Rest(data, 2) == data / 0x1_0000;
    assert Rest(data, 3) == data / 0x100_0000;
  }

  /** The four bytes of a little-endian word, through the table, divide its 32 bits. */
  method Crc32c(data: u32, init: u32) returns (crc: u32)
    ensures crc == Divide(init, data, 32)
  {
    var built := BuildTable();
    var table, k := built[..], 0;
    crc := init;
    while k < 4
      invariant 0 <= k <= 4
      invariant Steps(Xor(crc, Rest(data, k)), 8 * (4 - k)) == Steps(Xor(init, data), 32)
    {
      var b := LeBytes(data)[k];
      RestBytes(data, k);
      OneByte(crc, Rest(data, k), 8 * (4 - k) - 8);
      crc := TableStep(table, crc, b);
      k := k + 1;
    }
    RestBytes(data, 0);
    XorZero(crc);
    DivideWord(init, data);
  }

  method TableStep(table: seq<u32>, crc: u32, b: u8) returns (crc': u32)
    requires IsTable(table)
    ensures crc' == ByteUpdate(crc, b)
  {
    assert Xor(table[LowByte(Xor(crc, b))], Shr(crc, 8)) == ByteUpdate(crc, b);
    crc' := Xor(table[LowByte(Xor(crc, b))], Shr(crc, 8));
  }

  lemma DivideWord(init: nat, data: u32)
    ensures Divide(init, data, 32) == Steps(Xor(init, data), 32)
  {
    Split(data, 32);
    DivideIsSteps(init, data, 32);
  }

  // ----- what the checksum keeps apart -----

  lemma StepIsInjective(x: u32, y: u32)
    requires Step(x) == Step(y)
    ensures x == y
  {
    var z := Xor(x, y);
    Split(0, 32);
    XorBound(x, y, 32);
    StepLinear(x, y);
    XorIsZero(Step(x), Step(y));
    XorIsZero(z / 2, POLY);
    XorIsZero(x, y);
  }

  lemma {:induction false} StepsAreInjective(x: u32, y: u32, k: nat)
    requires Steps(x, k) == Steps(y, k)
    ensures x == y
    decreases k
  {
    if k > 0 {
      StepBound(x);
      StepBound(y);
      StepsAreInjective(Step(x), Step(y), k - 1);
      StepIsInjective(x, y);
    }
  }

  /** Different words have different checksums: the CRC only permutes the 32-bit words. */
  lemma CrcIsInjective(a: u32, b: u32, init: u32)
    ensures Divide(init, a, 32) == Divide(init, b, 32) <==> a == b
  {
    if Divide(init, a, 32) == Divide(init, b, 32) {
      DivideWord(init, a);
      DivideWord(init, b);
      Split(0, 32);
      XorBound(init, a, 32);
      XorBound(init, b, 32);
      StepsAreInjective(Xor(init, a), Xor(init, b), 32);
      XorAssociates(init, init, a);
      XorAssociates(init, init, b);
      XorIsZero(init, init);
    }
  }

  // ----- the polynomial -----

  /** A step of an odd register subtracts the polynomial 0x82F63B78, a step of an even one does not. */
  lemma StepSubtracts(q: nat)
    ensures Step(2 * q) == q && Step(2 * q + 1) == Xor(q, 0x82F6_3B78)
  {
    assert 2 * q % 2 == 0 && 2 * q / 2 == q;
    OddStep(2 * q + 1, q);
  }

  lemma OddStep(x: nat, q: nat)
    requires x == 2 * q + 1
    ensures Step(x) == Xor(q, POLY)
  {
    assert x % 2 == 1 && x / 2 == q;
  }

  /** A single bit i of the word starts the division 32 - i steps before its end; sums of bits add up. */
  lemma OneBit(i: nat, w: u32)
    requires i < 32 && w == Shl(1, i)
    ensures Divide(0, w, 32) == Steps(1, 32 - i)
  {
    DivideWord(0, w);
    StepsAdd(w, i, 32 - i);
    StepsShift(1, i);
  }

  lemma DivideAdds(x: u32, y: u32)
    ensures Divide(0, Xor(x, y), 32) == Xor(Divide(0, x, 32), Divide(0, y, 32))
  {
    Split(0, 32);
    XorBound(x, y, 32);
    DivideWord(0, x);
    DivideWord(0, y);
    DivideWord(0, Xor(x, y));
    StepsLinear(x, y, 32);
  }
}
