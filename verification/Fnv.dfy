/** The FNV-1a hash of rs/maglev/src/hash.rs, in wrapping 64-bit arithmetic. */
module Fnv {
  import opened Bits

  const BASIS: u64 := 0xcbf2_9ce4_8422_2325
  const PRIME: u64 := 0x0000_0100_0000_01b3
  const WORD64 := 0x1_0000_0000_0000_0000

  function Mix(h: u64, b: u8): u64 {
    Xor(h, b) * PRIME % WORD64
  }

  function HashFrom(h: u64, data: seq<u8>): u64
    decreases |data|
  {
    if data == [] then h else HashFrom(Mix(h, data[0]), data[1..])
  }

  function Hash(data: seq<u8>): u64 {
    HashFrom(BASIS, data)
  }

  method Fnv1a64(data: seq<u8>) returns (h: u64)
    ensures h == Hash(data)
  {
    h := BASIS;
    var i := 0;
    while i < |data|
      invariant 0 <= i <= |data|
      invariant HashFrom(h, data[i..]) == Hash(data)
    {
      assert data[i..][1..] == data[i + 1..];
      h := Mix(h, data[i]);
      i := i + 1;
    }
  }

  /** The multiplier is odd, so multiplying by it loses nothing mod 2^64. */
  lemma TimesPrimeIsInjective(x: u64, y: u64)
    requires x * PRIME % WORD64 == y * PRIME % WORD64
    ensures x == y
  {
    var t := x * PRIME / WORD64 - y * PRIME / WORD64;
    assert x * PRIME - y * PRIME == WORD64 * t;
    // the inverse of the multiplier, and the quotient of their product by 2^64
    var inverse, k := 0xce96_5057_aff6_957b, 887_285_111_055;
    assert PRIME * inverse == 1 + WORD64 * k;
    assert x - y == WORD64 * (t * inverse - k * (x - y));
  }

  lemma XorIsInjective(x: nat, y: nat, b: nat)
    requires Xor(x, b) == Xor(y, b)
    ensures x == y
  {
    XorAssociates(x, b, b);
    XorAssociates(y, b, b);
    XorIsZero(b, b);
    XorZero(x);
    XorZero(y);
  }

  lemma {:induction false} Pow2Shifts(a: nat, b: nat)
    ensures Pow2(a + b) == Shl(Pow2(a), b)
    decreases b
  {
    if b > 0 { Pow2Shifts(a, b - 1); }
  }

  lemma XorFits(h: u64, b: u8)
    ensures Xor(h, b) < WORD64
  {
    Pow2Shifts(32, 32);
    Split(Pow2(32), 32);
    XorBound(h, b, 64);
  }

  lemma MixIsInjective(h: u64, h': u64, b: u8, b': u8)
    requires Mix(h, b) == Mix(h', b')
    ensures h == h' <==> b == b'
  {
    XorFits(h, b);
    XorFits(h', b');
    TimesPrimeIsInjective(Xor(h, b), Xor(h', b'));
    if h == h' {
      XorCommutes(h, b);
      XorCommutes(h, b');
      XorIsInjective(b, b', h);
    }
    if b == b' { XorIsInjective(h, h', b); }
  }

  lemma {:induction false} SuffixKeepsApart(h: u64, h': u64, data: seq<u8>)
    requires h != h'
    ensures HashFrom(h, data) != HashFrom(h', data)
    decreases |data|
  {
    if data != [] {
      if Mix(h, data[0]) == Mix(h', data[0]) { MixIsInjective(h, h', data[0], data[0]); }
      SuffixKeepsApart(Mix(h, data[0]), Mix(h', data[0]), data[1..]);
    }
  }

  /** Inputs of one length that differ in a single byte never collide. */
  lemma {:induction false} OneByteNeverCollides(h: u64, a: seq<u8>, b: seq<u8>, k: nat)
    requires k < |a| == |b| && a[k] != b[k]
    requires forall i :: 0 <= i < |a| && i != k ==> a[i] == b[i]
    ensures HashFrom(h, a) != HashFrom(h, b)
    decreases k
  {
    if k == 0 {
      assert a[1..] == b[1..];
      if Mix(h, a[0]) == Mix(h, b[0]) { MixIsInjective(h, h, a[0], b[0]); }
      SuffixKeepsApart(Mix(h, a[0]), Mix(h, b[0]), a[1..]);
    } else {
      OneByteNeverCollides(Mix(h, a[0]), a[1..], b[1..], k - 1);
    }
  }

  // ----- the definition of the hash, byte by byte -----

  lemma {:induction false} FromEnd(h: u64, data: seq<u8>, b: u8)
    ensures HashFrom(h, data + [b]) == Mix(HashFrom(h, data), b)
    decreases |data|
  {
    if data == [] {
      assert (data + [b])[1..] == [];
    } else {
      assert (data + [b])[1..] == data[1..] + [b];
      FromEnd(Mix(h, data[0]), data[1..], b);
    }
  }

  /** FNV-1a for 64 bits: each further byte is added by exclusive or, and then comes the multiplication. */
  lemma HashIsFnv1a(data: seq<u8>, b: u8)
    ensures Hash([]) == 0xcbf2_9ce4_8422_2325
    ensures Hash(data + [b]) == Xor(Hash(data), b) * 0x100_0000_01b3 % 0x1_0000_0000_0000_0000
  {
    FromEnd(BASIS, data, b);
  }
}
