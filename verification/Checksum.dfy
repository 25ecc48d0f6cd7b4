/**
 One's-complement checksums (rs/maglev/src/checksum.rs): sums of big-endian words, the fold to
 16 bits, and the incremental update of RFC 1624, equation 3.
 */
module Checksum {
  import opened Bits

  type Bytes = seq<u8>

  /** The big-endian word at this place. */
  function Get16(d: Bytes, at: nat): u16
    requires at + 2 <= |d|
  {
    d[at] as int * 0x100 + d[at + 1]
  }

  function Not16(x: u16): u16 {
    0xffff - x
  }

  /** The sum of the big-endian words; a last odd byte counts as the high half of a word. */
  function WordSum(d: Bytes): nat {
    if d == [] then 0
    else if |d| == 1 then 0x100 * d[0]
    else Get16(d, 0) + WordSum(d[2..])
  }

  // ----- fold -----

  /** The end-around-carry sum: the residue mod 65535, with 65535 for a nonzero multiple of it. */
  function FoldOf(s: nat): u16
    decreases s
  {
    if s <= 0xffff then s else FoldOf(s - 0xffff)
  }

  predicate Congruent(x: int, y: int) {
    (x - y) % 0xffff == 0
  }

  lemma {:induction false} FoldIsResidue(s: nat)
    ensures Congruent(FoldOf(s), s)
    ensures FoldOf(s) == 0 <==> s == 0
  {
    if s > 0xffff {
      FoldIsResidue(s - 0xffff);
      MultipleIsCongruent(s - 0xffff, s, 1);
      CongruentChains(FoldOf(s), s - 0xffff, s);
    }
  }

  lemma MultipleIsCongruent(x: int, y: int, k: int)
    requires y == x + 0xffff * k
    ensures Congruent(x, y) && Congruent(y, x)
  {
  }

  lemma CongruentAdds(x: int, y: int, a: int, b: int)
    requires Congruent(x, y) && Congruent(a, b)
    ensures Congruent(x + a, y + b) && Congruent(y, x)
  {
    var p, q := (x - y) / 0xffff, (a - b) / 0xffff;
    assert x - y == 0xffff * p && a - b == 0xffff * q;
    MultipleIsCongruent(y + b, x + a, p + q);
    MultipleIsCongruent(y, x, p);
  }

  lemma CongruentChains(x: int, y: int, z: int)
    requires Congruent(x, y) && Congruent(y, z)
    ensures Congruent(x, z)
  {
    CongruentAdds(x, y, y, z);
  }

  /** The residue and the being zero determine the fold. */
  lemma FoldIsDetermined(s: nat, x: u16)
    requires Congruent(x, s) && (x == 0 <==> s == 0)
    ensures x == FoldOf(s)
  {
    FoldIsResidue(s);
    CongruentAdds(FoldOf(s), s, 0, 0);
    CongruentChains(x, s, FoldOf(s));
    CloseIsEqual(x, FoldOf(s));
  }

  lemma SameFold(s: nat, t: nat)
    requires s > 0 && t > 0
    ensures FoldOf(s) == FoldOf(t) <==> Congruent(s, t)
  {
    FoldIsResidue(s);
    FoldIsResidue(t);
    if Congruent(s, t) {
      CongruentChains(FoldOf(s), s, t);
      FoldIsDetermined(t, FoldOf(s));
    }
    if FoldOf(s) == FoldOf(t) {
      CongruentAdds(FoldOf(s), s, 0, 0);
      CongruentChains(s, FoldOf(s), t);
    }
  }

  lemma CloseIsEqual(x: u16, y: u16)
    requires Congruent(x, y) && (x == 0 <==> y == 0)
    ensures x == y
  {
  }

  lemma CarryKeepsFold(s: nat)
    requires s >= 0x1_0000
    ensures 0 < s % 0x1_0000 + s / 0x1_0000 < s
    ensures FoldOf(s % 0x1_0000 + s / 0x1_0000) == FoldOf(s)
  {
    var q, t := s / 0x1_0000, s % 0x1_0000 + s / 0x1_0000;
    MultipleIsCongruent(t, s, q);
    FoldIsResidue(t);
    CongruentChains(FoldOf(t), t, s);
    FoldIsDetermined(s, FoldOf(t));
  }

  method Fold(s: u32) returns (x: u16)
    ensures x == FoldOf(s)
  {
    var t: nat := s;
    Split(t, 16);
    while Shr(t, 16) != 0
      invariant FoldOf(t) == FoldOf(s)
      decreases t
    {
      Split(t, 16);
      AndLowMask(t, 16);
      CarryKeepsFold(t);
      t := And(t, 0xffff) + Shr(t, 16);
    }
    Split(t, 16);
    assert t == FoldOf(t);
    x := t;
  }

  // ----- sums of words -----

  lemma {:induction false} SumBound(d: Bytes)
    ensures WordSum(d) <= 0xffff * ((|d| + 1) / 2)
  {
    if |d| >= 2 { SumBound(d[2..]); }
  }

  /** A sum of up to 131074 bytes fits in 32 bits ... */
  lemma SumFits(d: Bytes)
    requires |d| <= 131074
    ensures WordSum(d) < 0x1_0000_0000
  {
    SumBound(d);
  }

  lemma {:induction false} SumOfOnes(d: Bytes)
    requires |d| % 2 == 0 && forall i :: 0 <= i < |d| ==> d[i] == 0xff
    ensures WordSum(d) == 0xffff * (|d| / 2)
  {
    if |d| >= 2 { SumOfOnes(d[2..]); }
  }

  /** ... and no longer one always does: all ones reach 2^32 - 1 there, and one byte more overflows. */
  lemma SumBoundIsTight(d: Bytes, b: u8)
    requires |d| == 131074 && forall i :: 0 <= i < |d| ==> d[i] == 0xff
    requires b > 0
    ensures WordSum(d) == 0xffff_ffff && WordSum(d + [b]) >= 0x1_0000_0000
  {
    SumOfOnes(d);
    SumSplits(d, [b]);
  }

  lemma {:induction false} SumSplits(a: Bytes, b: Bytes)
    requires |a| % 2 == 0
    ensures WordSum(a + b) == WordSum(a) + WordSum(b)
    decreases |a|
  {
    if a == [] {
      assert a + b == b;
    } else {
      assert (a + b)[2..] == a[2..] + b;
      SumSplits(a[2..], b);
    }
  }

  /** The program's 32-bit sum must not overflow. */
  method SumWords(data: Bytes) returns (s: u32)
    requires WordSum(data) < 0x1_0000_0000
    ensures s == WordSum(data)
  {
    s := 0;
    var i := 0;
    while i + 2 <= |data|
      invariant 0 <= i <= |data|
      invariant s + WordSum(data[i..]) == WordSum(data)
    {
      assert data[i..][2..] == data[i + 2..];
      s := s + Get16(data, i);
      i := i + 2;
    }
    if i < |data| {
      Split(data[i], 8);
      s := s + Shl(data[i], 8);
    }
  }

  function Put16(d: Bytes, at: nat, w: u16): (r: Bytes)
    requires at + 2 <= |d|
    ensures |r| == |d|
  {
    d[at := w / 0x100][at + 1 := w % 0x100]
  }

  /** Words are big-endian ... */
  lemma PairSum(hi: u8, lo: u8)
    ensures WordSum([hi, lo]) == 0x100 * hi as int + lo
  {
    assert [hi, lo][2..] == [];
  }

  /** ... and a last odd byte counts as if a zero followed it (RFC 1071). */
  lemma {:induction false} OddPadding(d: Bytes)
    requires |d| % 2 == 1
    ensures WordSum(d) == WordSum(d + [0])
    decreases |d|
  {
    if |d| == 1 {
      assert d + [0] == [d[0], 0];
      PairSum(d[0], 0);
    } else {
      assert (d + [0])[2..] == d[2..] + [0];
      OddPadding(d[2..]);
    }
  }

  /** Overwriting an aligned word changes the sum by the difference of the words. */
  lemma {:induction false} SumAfterPut(d: Bytes, at: nat, w: u16)
    requires at + 2 <= |d| && at % 2 == 0
    ensures WordSum(Put16(d, at, w)) + Get16(d, at) == WordSum(d) + w
    ensures WordSum(d) >= Get16(d, at)
    decreases at
  {
    if at == 0 {
      assert Put16(d, 0, w)[2..] == d[2..];
    } else {
      assert Put16(d, at, w)[2..] == Put16(d[2..], at - 2, w);
      SumAfterPut(d[2..], at - 2, w);
    }
  }

  // ----- full recomputation -----

  /** The length that an IPv4 header at l3 states: (f[l3] & 0x0f) * 4, in arithmetic. */
  function HeaderLength(f: Bytes, l3: nat): nat
    requires l3 < |f|
  {
    f[l3] % 0x10 * 4
  }

  /** The words of a header from index i on, without word 5, which is the checksum itself. */
  function HeaderSum(hdr: Bytes, i: nat): nat
    decreases |hdr| - 2 * i
  {
    if 2 * i + 2 > |hdr| then 0
    else (if i == 5 then 0 else Get16(hdr, 2 * i)) + HeaderSum(hdr, i + 1)
  }

  lemma {:induction false} HeaderSumAfter(hdr: Bytes, i: nat)
    requires |hdr| % 2 == 0 && 6 <= i && 2 * i <= |hdr|
    ensures HeaderSum(hdr, i) == WordSum(hdr[2 * i..])
    decreases |hdr| - 2 * i
  {
    if 2 * i + 2 <= |hdr| {
      assert hdr[2 * i..][2..] == hdr[2 * (i + 1)..];
      HeaderSumAfter(hdr, i + 1);
    }
  }

  lemma {:induction false} HeaderSumBefore(hdr: Bytes, i: nat)
    requires |hdr| % 2 == 0 && |hdr| >= 12 && i <= 5
    ensures HeaderSum(hdr, i) == WordSum(hdr[2 * i..10]) + WordSum(hdr[12..])
    decreases 5 - i
  {
    if i == 5 {
      HeaderSumAfter(hdr, 6);
    } else {
      assert hdr[2 * i..10][2..] == hdr[2 * (i + 1)..10];
      HeaderSumBefore(hdr, i + 1);
    }
  }

  /** The header checksum leaves out bytes 10 and 11 (RFC 791, section 3.1). */
  lemma HeaderSumSplits(hdr: Bytes)
    requires |hdr| % 2 == 0 && |hdr| >= 12
    ensures HeaderSum(hdr, 0) == WordSum(hdr[..10]) + WordSum(hdr[12..])
  {
    HeaderSumBefore(hdr, 0);
    assert hdr[0..10] == hdr[..10];
  }

  lemma {:induction false} OddByteIsLeftOut(hdr: Bytes, i: nat)
    requires 2 * i <= |hdr|
    ensures HeaderSum(hdr, i) == HeaderSum(hdr[..|hdr| / 2 * 2], i)
    decreases |hdr| - 2 * i
  {
    if 2 * i + 2 <= |hdr| { OddByteIsLeftOut(hdr, i + 1); }
  }

  lemma {:induction false} ShortHeaderSum(hdr: Bytes, i: nat)
    requires |hdr| % 2 == 0 && |hdr| <= 10 && 2 * i <= |hdr|
    ensures HeaderSum(hdr, i) == WordSum(hdr[2 * i..])
    decreases |hdr| - 2 * i
  {
    if 2 * i + 2 <= |hdr| {
      assert hdr[2 * i..][2..] == hdr[2 * (i + 1)..];
      ShortHeaderSum(hdr, i + 1);
    }
  }

  /** For headers of any length: whole words are summed, but for bytes 10 and 11. */
  lemma HeaderSumOfBytes(hdr: Bytes)
    ensures var e := hdr[..|hdr| / 2 * 2];
      HeaderSum(hdr, 0) == if |e| < 12 then WordSum(e) else WordSum(e[..10]) + WordSum(e[12..])
  {
    var e := hdr[..|hdr| / 2 * 2];
    OddByteIsLeftOut(hdr, 0);
    if |e| < 12 { ShortHeaderSum(e, 0); } else { HeaderSumSplits(e); }
  }

  function HeaderChecksum(hdr: Bytes): u16 {
    Not16(FoldOf(HeaderSum(hdr, 0)))
  }

  lemma {:induction false} HeaderSumBound(hdr: Bytes, i: nat)
    requires 2 * i <= |hdr|
    ensures HeaderSum(hdr, i) <= 0xffff * ((|hdr| - 2 * i) / 2)
    decreases |hdr| - 2 * i
  {
    if 2 * i + 2 <= |hdr| { HeaderSumBound(hdr, i + 1); }
  }

  /** So does the sum of any header that 4 bits of length can describe, and far longer ones. */
  lemma HeaderSumFits(hdr: Bytes)
    requires |hdr| <= 131074
    ensures HeaderSum(hdr, 0) < 0x1_0000_0000
  {
    HeaderSumBound(hdr, 0);
  }

  method Ipv4HeaderChecksum(hdr: Bytes) returns (c: u16)
    requires HeaderSum(hdr, 0) < 0x1_0000_0000
    ensures c == HeaderChecksum(hdr)
  {
    var s: u32, i := 0, 0;
    while 2 * i + 2 <= |hdr|
      invariant 0 <= 2 * i <= |hdr|
      invariant s + HeaderSum(hdr, i) == HeaderSum(hdr, 0)
    {
      if i != 5 {
        s := s + Get16(hdr, 2 * i);
      }
      i := i + 1;
    }
    c := Fold(s);
    c := Not16(c);
  }

  type Address4 = a: Bytes | |a| == 4 witness [0, 0, 0, 0]

  /** The pseudo-header, with the length as the 32 bits that the program makes of it, and the segment. */
  function L4Sum(saddr: Address4, daddr: Address4, proto: u8, segment: Bytes): nat {
    WordSum(saddr) + WordSum(daddr) + proto + |segment| % 0x1_0000_0000 + WordSum(segment)
  }

  /** The checksum is that of the bytes of the pseudo-header and the segment, one after the other. */
  lemma L4ChecksumIsOfBytes(saddr: Address4, daddr: Address4, proto: u8, segment: Bytes)
    requires |segment| < 0x1_0000
    ensures L4Checksum(saddr, daddr, proto, segment) ==
      Not16(FoldOf(WordSum(saddr + daddr + [0, proto, |segment| / 0x100, |segment| % 0x100] + segment)))
  {
    PseudoSum(saddr, daddr, proto, segment);
  }

  lemma PseudoSum(saddr: Address4, daddr: Address4, proto: u8, segment: Bytes)
    requires |segment| < 0x1_0000
    ensures L4Sum(saddr, daddr, proto, segment) ==
      WordSum(saddr + daddr + [0, proto, |segment| / 0x100, |segment| % 0x100] + segment)
  {
    var tail := [0, proto, |segment| / 0x100, |segment| % 0x100];
    SumSplits(saddr, daddr);
    SumSplits(saddr + daddr, tail);
    SumSplits(saddr + daddr + tail, segment);
    PseudoTail(proto, |segment|);
  }

  lemma PseudoTail(proto: u8, length: u16)
    ensures WordSum([0, proto, length / 0x100, length % 0x100]) == proto + length
  {
    var d := [0, proto, length / 0x100, length % 0x100];
    assert d == [0, proto] + [length / 0x100, length % 0x100];
    SumSplits([0, proto], [length / 0x100, length % 0x100]);
    PairSum(0, proto);
    PairSum(length / 0x100, length % 0x100);
  }

  /** Up to 131060 bytes of segment the sum stays in 32 bits. */
  lemma L4SumFits(saddr: Address4, daddr: Address4, proto: u8, segment: Bytes)
    requires |segment| <= 131060
    ensures L4Sum(saddr, daddr, proto, segment) < 0x1_0000_0000
  {
    SumBound(segment);
    SumBound(saddr);
    SumBound(daddr);
  }

  function L4Checksum(saddr: Address4, daddr: Address4, proto: u8, segment: Bytes): u16 {
    Not16(FoldOf(L4Sum(saddr, daddr, proto, segment)))
  }

  method ComputeL4Checksum(saddr: Address4, daddr: Address4, proto: u8, segment: Bytes) returns (c: u16)
    requires L4Sum(saddr, daddr, proto, segment) < 0x1_0000_0000
    ensures c == L4Checksum(saddr, daddr, proto, segment)
  {
    var s := SumWords(saddr);
    var t := SumWords(daddr);
    s := s + t;
    s := s + proto;
    s := s + |segment| % 0x1_0000_0000;
    t := SumWords(segment);
    s := s + t;
    c := Fold(s);
    c := Not16(c);
  }

  // ----- incremental update -----

  function IncrUpdate(csum: u16, was: u16, now: u16): u16 {
    Not16(FoldOf(Not16(csum) + Not16(was) + now))
  }

  /** Both words of an address, one after the other. */
  function UpdateBoth(csum: u16, from: Address4, to: Address4): u16 {
    IncrUpdate(IncrUpdate(csum, Get16(from, 0), Get16(to, 0)), Get16(from, 2), Get16(to, 2))
  }

  lemma AddressSum(a: Address4)
    ensures WordSum(a) == Get16(a, 0) + Get16(a, 2)
  {
    var b := a[2..];
    assert b[2..] == [];
    assert b[0] == a[2] && b[1] == a[3];
    assert WordSum(b) == Get16(b, 0);
  }

  /** From c to r the complement of the checksum moves by the difference of now and was. */
  ghost predicate Moves(c: u16, r: u16, was: nat, now: nat) {
    Congruent(Not16(r) + was, Not16(c) + now)
  }

  lemma IncrMoves(c: u16, was: u16, now: u16)
    ensures Moves(c, IncrUpdate(c, was, now), was, now)
  {
    var t := Not16(c) + Not16(was) + now;
    FoldIsResidue(t);
    CongruentAdds(FoldOf(t), t, was, was - 0xffff);
  }

  lemma MovesChain(c: u16, mid: u16, r: u16, o1: nat, n1: nat, o2: nat, n2: nat)
    requires Moves(c, mid, o1, n1) && Moves(mid, r, o2, n2)
    ensures Moves(c, r, o1 + o2, n1 + n2)
  {
    TwoUpdates(Not16(c), Not16(mid), Not16(r), o1, n1, o2, n2);
  }

  lemma BothMove(c: u16, o1: u16, n1: u16, o2: u16, n2: u16)
    ensures Moves(c, IncrUpdate(IncrUpdate(c, o1, n1), o2, n2), o1 + o2, n1 + n2)
  {
    var mid := IncrUpdate(c, o1, n1);
    IncrMoves(c, o1, n1);
    IncrMoves(mid, o2, n2);
    MovesChain(c, mid, IncrUpdate(mid, o2, n2), o1, n1, o2, n2);
  }

  lemma UpdateResidue(csum: u16, from: Address4, to: Address4)
    ensures Congruent(Not16(UpdateBoth(csum, from, to)) + WordSum(from), Not16(csum) + WordSum(to))
  {
    AddressSum(from);
    AddressSum(to);
    BothMove(csum, Get16(from, 0), Get16(to, 0), Get16(from, 2), Get16(to, 2));
  }

  lemma TwoUpdates(c: int, mid: int, r: int, o1: int, n1: int, o2: int, n2: int)
    requires Congruent(mid + o1, c + n1) && Congruent(r + o2, mid + n2)
    ensures Congruent(r + (o1 + o2), c + (n1 + n2))
  {
    CongruentAdds(mid + o1, c + n1, r + o2, mid + n2);
    CongruentAdds(mid + o1 + (r + o2), c + n1 + (mid + n2), -mid, -mid);
  }

  /** An update of the checksum of a sum that stays positive is the checksum of the new sum. */
  lemma IncrIsExact(sum: nat, was: u16, now: u16)
    requires sum > was
    ensures IncrUpdate(Not16(FoldOf(sum)), was, now) == Not16(FoldOf(sum - was + now))
  {
    var t := FoldOf(sum) + Not16(was) + now;
    FoldIsResidue(sum);
    FoldIsResidue(t);
    CongruentAdds(FoldOf(sum), sum, Not16(was) + now, now - was);
    CongruentChains(FoldOf(t), t, sum - was + now);
    FoldIsDetermined(sum - was + now, FoldOf(t));
  }

  lemma TwoAreExact(sum: nat, mid: nat, last: nat, o1: u16, n1: u16, o2: u16, n2: u16)
    requires sum > o1 && mid == sum - o1 + n1 && mid > o2 && last == mid - o2 + n2
    ensures IncrUpdate(IncrUpdate(Not16(FoldOf(sum)), o1, n1), o2, n2) == Not16(FoldOf(last))
  {
    IncrIsExact(sum, o1, n1);
    IncrIsExact(mid, o2, n2);
  }

  lemma UpdateIsExact(sum: nat, last: nat, from: Address4, to: Address4)
    requires sum > WordSum(from) && last == sum - WordSum(from) + WordSum(to)
    ensures UpdateBoth(Not16(FoldOf(sum)), from, to) == Not16(FoldOf(last))
  {
    AddressSum(from);
    AddressSum(to);
    var o1, n1 := Get16(from, 0), Get16(to, 0);
    TwoAreExact(sum, sum - o1 + n1, last, o1, n1, Get16(from, 2), Get16(to, 2));
  }

  /** The checksum stays what it is exactly when the two addresses have one residue. */
  lemma UnmovedIff(sum: nat, from: Address4, to: Address4)
    requires sum > WordSum(from)
    ensures UpdateBoth(Not16(FoldOf(sum)), from, to) == Not16(FoldOf(sum)) <==> Congruent(WordSum(from), WordSum(to))
  {
    var last := sum - WordSum(from) + WordSum(to);
    UpdateIsExact(sum, last, from, to);
    SameFold(sum, last);
    SameDifference(sum, last, WordSum(from), WordSum(to));
  }

  lemma SameDifference(a: int, b: int, c: int, d: int)
    requires a - b == c - d
    ensures Congruent(a, b) <==> Congruent(c, d)
  {
  }

  /** UDP sends a computed 0 as all ones (RFC 768). */
  function UdpForm(c: u16): (r: u16)
    ensures r != 0
  {
    if c == 0 then 0xffff else c
  }

  lemma UdpFormIsDetermined(c: u16, sum: nat)
    requires sum > 0 && Congruent(Not16(c), sum)
    ensures UdpForm(c) == UdpForm(Not16(FoldOf(sum)))
  {
    FoldIsResidue(sum);
    CongruentAdds(FoldOf(sum), sum, 0, 0);
    CongruentChains(Not16(c), sum, FoldOf(sum));
  }

  lemma UdpUpdateIsExact(sum: nat, last: nat, from: Address4, to: Address4)
    requires sum > WordSum(from) && last == sum - WordSum(from) + WordSum(to)
    ensures UdpForm(UpdateBoth(UdpForm(Not16(FoldOf(sum))), from, to)) == UdpForm(Not16(FoldOf(last)))
  {
    var c := UdpForm(Not16(FoldOf(sum)));
    UdpResidue(sum, last, c, from, to);
    UdpFormIsDetermined(UpdateBoth(c, from, to), last);
  }

  lemma UdpResidue(sum: nat, last: nat, c: u16, from: Address4, to: Address4)
    requires last == sum - WordSum(from) + WordSum(to) && c == UdpForm(Not16(FoldOf(sum)))
    ensures Congruent(Not16(UpdateBoth(c, from, to)), last)
  {
    UdpFormResidue(FoldOf(sum));
    FoldIsResidue(sum);
    UpdateResidue(c, from, to);
    OneUpdate(Not16(UpdateBoth(c, from, to)), Not16(c), FoldOf(sum), sum, last, WordSum(from), WordSum(to));
  }

  lemma OneUpdate(r: int, c: int, fold: int, sum: int, last: int, o: int, n: int)
    requires Congruent(r + o, c + n) && Congruent(c, fold) && Congruent(fold, sum) && last == sum - o + n
    ensures Congruent(r, last)
  {
    CongruentChains(c, fold, sum);
    CongruentAdds(r + o, c + n, c, sum);
    CongruentAdds(r + o + c, c + n + sum, -c - o, -c - o);
  }

  lemma UdpFormResidue(x: u16)
    ensures Congruent(Not16(UdpForm(Not16(x))), x)
  {
  }
}
