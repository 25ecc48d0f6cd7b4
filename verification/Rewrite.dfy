/**
 Rewriting the destination address of a frame in place (rs/maglev/src/checksum.rs), with both
 checksums updated incrementally.

 `Rewrite` is the program's effect on the bytes.  `RewriteIsRecomputation` says that correct
 checksums stay bit for bit what a full recomputation gives; `RewriteKeepsDefect` says what
 happens to checksums that were wrong.
 */
module Rewrite {
  import opened Bits
  import opened Checksum

  const TCP: u8 := 6
  const UDP: u8 := 17

  lemma LowNibble(x: u8)
    ensures And(x, 0x0f) == x % 0x10
  {
    AndLowMask(x, 4);
    Split(x, 4);
  }

  /** The checks that fail before any byte is written. */
  predicate HasHeader(f: Bytes, l3: nat) {
    |f| >= l3 + 20 && HeaderLength(f, l3) >= 20 && |f| >= l3 + HeaderLength(f, l3)
  }

  function Daddr(f: Bytes, l3: nat): Address4
    requires |f| >= l3 + 20
  {
    f[l3 + 16..l3 + 20]
  }

  function PutDaddr(f: Bytes, l3: nat, a: Address4): (g: Bytes)
    requires |f| >= l3 + 20
    ensures |g| == |f|
  {
    Put16(Put16(f, l3 + 16, Get16(a, 0)), l3 + 18, Get16(a, 2))
  }

  /** Where the transport checksum is, counted from the transport header, and what it needs. */
  function ChecksumAt(proto: u8): nat { if proto == TCP then 16 else 6 }

  function L4Start(f: Bytes, l3: nat): nat
    requires HasHeader(f, l3)
  {
    l3 + HeaderLength(f, l3)
  }

  /** The bytes of transport header that the program asks for. */
  function L4Needs(proto: u8): nat { if proto == TCP then 18 else 8 }

  predicate HasChecksum(f: Bytes, l3: nat, proto: u8)
    requires HasHeader(f, l3)
  {
    |f| >= L4Start(f, l3) + L4Needs(proto)
  }

  predicate HasL4(proto: u8) { proto == TCP || proto == UDP }

  function L4Stored(f: Bytes, l3: nat, proto: u8): u16
    requires HasHeader(f, l3) && HasChecksum(f, l3, proto)
  {
    Get16(f, L4Start(f, l3) + ChecksumAt(proto))
  }

  /** The transport checksum that replaces c. */
  function NewL4(c: u16, proto: u8, from: Address4, to: Address4): u16 {
    if proto == TCP then UpdateBoth(c, from, to)
    else if c == 0 then 0
    else UdpForm(UpdateBoth(c, from, to))
  }

  function NewHeader(f: Bytes, l3: nat, to: Address4): u16
    requires HasHeader(f, l3)
  {
    UpdateBoth(Get16(f, l3 + 10), Daddr(f, l3), to)
  }

  function NewTransport(f: Bytes, l3: nat, proto: u8, to: Address4): u16
    requires HasHeader(f, l3)
  {
    if HasL4(proto) && HasChecksum(f, l3, proto) then NewL4(L4Stored(f, l3, proto), proto, Daddr(f, l3), to) else 0
  }

  /** The header checksum is written as soon as the header is there. */
  function AfterHeader(f: Bytes, l3: nat, to: Address4): (g: Bytes)
    requires HasHeader(f, l3)
    ensures |g| == |f|
  {
    Put16(f, l3 + 10, NewHeader(f, l3, to))
  }

  function Rewrite(f: Bytes, l3: nat, proto: u8, to: Address4): (r: (bool, Bytes)) {
    if !HasHeader(f, l3) then (false, f)
    else if Daddr(f, l3) == to then (true, f)
    else if !HasL4(proto) then (true, PutDaddr(AfterHeader(f, l3, to), l3, to))
    else if !HasChecksum(f, l3, proto) then (false, AfterHeader(f, l3, to))
    else
      var at := L4Start(f, l3) + ChecksumAt(proto);
      (true, PutDaddr(Put16(AfterHeader(f, l3, to), at, NewTransport(f, l3, proto, to)), l3, to))
  }

  // ----- full recomputation over a frame -----

  function Header(f: Bytes, l3: nat): (h: Bytes)
    requires HasHeader(f, l3)
    ensures |h| == HeaderLength(f, l3)
  {
    f[l3..l3 + HeaderLength(f, l3)]
  }

  /** The stored header checksum is the one a full recomputation gives. */
  ghost predicate HeaderOk(f: Bytes, l3: nat)
    requires HasHeader(f, l3)
  {
    Get16(f, l3 + 10) == HeaderChecksum(Header(f, l3))
  }

  /** The segment ends here, at or behind the end of the frame's transport header; padding may follow. */
  predicate EndsAt(f: Bytes, l3: nat, proto: u8, end: nat)
    requires HasHeader(f, l3)
  {
    L4Start(f, l3) + L4Needs(proto) <= end <= |f|
  }

  /** The transport segment with its checksum field zeroed, as the recomputation sums it. */
  function Segment(f: Bytes, l3: nat, proto: u8, end: nat): Bytes
    requires HasHeader(f, l3) && EndsAt(f, l3, proto, end)
  {
    Put16(f[L4Start(f, l3)..end], ChecksumAt(proto), 0)
  }

  function L4Total(f: Bytes, l3: nat, proto: u8, end: nat): nat
    requires HasHeader(f, l3) && EndsAt(f, l3, proto, end)
  {
    L4Sum(f[l3 + 12..l3 + 16], Daddr(f, l3), proto, Segment(f, l3, proto, end))
  }

  /** A UDP checksum of 0 means that there is none. */
  ghost predicate L4Ok(f: Bytes, l3: nat, proto: u8, end: nat)
    requires HasHeader(f, l3) && EndsAt(f, l3, proto, end)
  {
    var c := Not16(FoldOf(L4Total(f, l3, proto, end)));
    if proto == TCP then L4Stored(f, l3, proto) == c
    else L4Stored(f, l3, proto) == 0 || L4Stored(f, l3, proto) == UdpForm(c)
  }

  // ----- which bytes a rewrite touches -----

  predicate InField(f: Bytes, l3: nat, proto: u8, i: nat)
    requires HasHeader(f, l3)
  {
    var at := L4Start(f, l3) + ChecksumAt(proto);
    l3 + 10 <= i < l3 + 12 || (HasL4(proto) && at <= i < at + 2)
  }

  /** g is f but for the two checksum fields and the destination address. */
  ghost predicate SameElsewhere(f: Bytes, g: Bytes, l3: nat, proto: u8)
    requires HasHeader(f, l3)
  {
    |g| == |f| &&
    forall i :: 0 <= i < |f| && !InField(f, l3, proto, i) && !(l3 + 16 <= i < l3 + 20) ==> g[i] == f[i]
  }

  lemma SameHeader(f: Bytes, g: Bytes, l3: nat, proto: u8)
    requires HasHeader(f, l3) && SameElsewhere(f, g, l3, proto)
    ensures HasHeader(g, l3) && L4Start(g, l3) == L4Start(f, l3)
    ensures HasChecksum(g, l3, proto) == HasChecksum(f, l3, proto)
    ensures g[l3 + 12..l3 + 16] == f[l3 + 12..l3 + 16]
  {
    assert g[l3] == f[l3];
  }

  lemma PutReads(d: Bytes, at: nat, w: u16, from: nat)
    requires at + 2 <= |d| && from + 2 <= |d| && (from + 2 <= at || at + 2 <= from || at == from)
    ensures Get16(Put16(d, at, w), from) == if at == from then w else Get16(d, from)
  {
  }

  lemma PutDaddrReads(d: Bytes, l3: nat, a: Address4, from: nat)
    requires |d| >= l3 + 20 && from + 2 <= |d| && (from + 2 <= l3 + 16 || l3 + 20 <= from)
    ensures Daddr(PutDaddr(d, l3, a), l3) == a && Get16(PutDaddr(d, l3, a), from) == Get16(d, from)
  {
  }

  /** The two checksums are w and v, and the address is `to`. */
  ghost predicate Written(f: Bytes, g: Bytes, l3: nat, proto: u8, to: Address4, w: u16, v: u16)
    requires HasHeader(f, l3)
  {
    && SameElsewhere(f, g, l3, proto) && HasHeader(g, l3)
    && Daddr(g, l3) == to && Get16(g, l3 + 10) == w
    && (HasL4(proto) ==> HasChecksum(f, l3, proto) && HasChecksum(g, l3, proto) && L4Stored(g, l3, proto) == v)
  }

  /** A successful rewrite sets the address and the two checksums, and nothing else. */
  lemma RewriteEffect(f: Bytes, l3: nat, proto: u8, to: Address4)
    requires Rewrite(f, l3, proto, to).0 && Daddr(f, l3) != to
    ensures Written(f, Rewrite(f, l3, proto, to).1, l3, proto, to,
                    NewHeader(f, l3, to), NewTransport(f, l3, proto, to))
  {
    if HasL4(proto) {
      EffectWithL4(f, l3, proto, NewHeader(f, l3, to), NewTransport(f, l3, proto, to), to);
    } else {
      EffectWithoutL4(f, l3, proto, NewHeader(f, l3, to), NewTransport(f, l3, proto, to), to);
    }
  }

  lemma EffectWithL4(f: Bytes, l3: nat, proto: u8, w: u16, v: u16, to: Address4)
    requires HasHeader(f, l3) && HasL4(proto) && HasChecksum(f, l3, proto)
    ensures var g := PutDaddr(Put16(Put16(f, l3 + 10, w), L4Start(f, l3) + ChecksumAt(proto), v), l3, to);
      Written(f, g, l3, proto, to, w, v)
  {
    var h, at := Put16(f, l3 + 10, w), L4Start(f, l3) + ChecksumAt(proto);
    PutReads(f, l3 + 10, w, l3 + 10);
    FieldsReadBack(h, l3, at, v, to);
    SameHeader(f, PutDaddr(Put16(h, at, v), l3, to), l3, proto);
  }

  lemma EffectWithoutL4(f: Bytes, l3: nat, proto: u8, w: u16, v: u16, to: Address4)
    requires HasHeader(f, l3) && !HasL4(proto)
    ensures Written(f, PutDaddr(Put16(f, l3 + 10, w), l3, to), l3, proto, to, w, v)
  {
    PutReads(f, l3 + 10, w, l3 + 10);
    PutDaddrReads(Put16(f, l3 + 10, w), l3, to, l3 + 10);
    SameHeader(f, PutDaddr(Put16(f, l3 + 10, w), l3, to), l3, proto);
  }

  /** What was written before the address is still there after it. */
  lemma FieldsReadBack(h: Bytes, l3: nat, at: nat, v: u16, to: Address4)
    requires |h| >= at + 2 && at >= l3 + 20
    ensures var g := PutDaddr(Put16(h, at, v), l3, to);
      Daddr(g, l3) == to && Get16(g, at) == v && Get16(g, l3 + 10) == Get16(h, l3 + 10)
  {
    PutReads(h, at, v, at);
    PutReads(h, at, v, l3 + 10);
    PutDaddrReads(Put16(h, at, v), l3, to, at);
    PutDaddrReads(Put16(h, at, v), l3, to, l3 + 10);
  }

  // ----- what that does to the sums -----

  lemma PutAddressSum(d: Bytes, at: nat, a: Address4)
    requires at + 4 <= |d| && at % 2 == 0
    ensures var e := Put16(Put16(d, at, Get16(a, 0)), at + 2, Get16(a, 2));
      WordSum(e) + WordSum(d[at..at + 4]) == WordSum(d) + WordSum(a)
    ensures WordSum(d) >= WordSum(d[at..at + 4])
  {
    SumAfterPut(d, at, Get16(a, 0));
    SumAfterPut(Put16(d, at, Get16(a, 0)), at + 2, Get16(a, 2));
    SumAfterPut(d, at, 0);
    SumAfterPut(Put16(d, at, 0), at + 2, 0);
    AddressSum(d[at..at + 4]);
    AddressSum(a);
  }

  lemma SliceOfSlice(f: Bytes, a: nat, b: nat, c: nat, d: nat)
    requires a <= b <= |f| && c <= d <= b - a
    ensures f[a..b][c..d] == f[a + c..a + d]
  {
    assert forall k :: c <= k < d ==> f[a..b][k] == f[a + k];
  }

  lemma HeaderPairMoves(h: Bytes, k: Bytes, a: Address4)
    requires |h| == |k| >= 20 && |h| % 2 == 0 && h[..10] == k[..10]
    requires k[12..] == Put16(Put16(h[12..], 4, Get16(a, 0)), 6, Get16(a, 2))
    ensures HeaderSum(k, 0) + WordSum(h[16..20]) == HeaderSum(h, 0) + WordSum(a)
    ensures HeaderSum(h, 0) >= WordSum(h[16..20]) + WordSum(h[..10])
  {
    HeaderSumSplits(h);
    HeaderSumSplits(k);
    assert h[12..][4..8] == h[16..20];
    PutAddressSum(h[12..], 4, a);
  }

  lemma HeaderTail(h: Bytes, k: Bytes)
    requires |h| == |k| >= 20
    requires forall i :: 12 <= i < |h| && !(16 <= i < 20) ==> h[i] == k[i]
    ensures var a := k[16..20];
      k[12..] == Put16(Put16(h[12..], 4, Get16(a, 0)), 6, Get16(a, 2))
  {
  }

  /** The header length that the program checks makes the first word nonzero. */
  lemma HeaderIsPositive(f: Bytes, l3: nat)
    requires HasHeader(f, l3)
    ensures WordSum(Header(f, l3)[..10]) > 0
  {
    SumAfterPut(Header(f, l3)[..10], 0, 0);
  }

  /** The header sum moves by the difference of the addresses, and never was only the address. */
  lemma HeaderSumMoves(f: Bytes, g: Bytes, l3: nat, proto: u8)
    requires HasHeader(f, l3) && SameElsewhere(f, g, l3, proto) && HasHeader(g, l3)
    ensures HeaderSum(Header(g, l3), 0) + WordSum(Daddr(f, l3)) == HeaderSum(Header(f, l3), 0) + WordSum(Daddr(g, l3))
    ensures HeaderSum(Header(f, l3), 0) > WordSum(Daddr(f, l3))
  {
    SameHeader(f, g, l3, proto);
    var h, k := Header(f, l3), Header(g, l3);
    SliceOfSlice(f, l3, l3 + HeaderLength(f, l3), 16, 20);
    SliceOfSlice(g, l3, l3 + HeaderLength(f, l3), 16, 20);
    HeaderTail(h, k);
    HeaderPairMoves(h, k, Daddr(g, l3));
    HeaderIsPositive(f, l3);
  }

  lemma L4TotalMoves(f: Bytes, g: Bytes, l3: nat, proto: u8, end: nat)
    requires HasHeader(f, l3) && SameElsewhere(f, g, l3, proto) && HasHeader(g, l3)
    requires HasL4(proto) && EndsAt(f, l3, proto, end) && EndsAt(g, l3, proto, end)
    ensures L4Total(g, l3, proto, end) + WordSum(Daddr(f, l3)) == L4Total(f, l3, proto, end) + WordSum(Daddr(g, l3))
    ensures L4Total(f, l3, proto, end) > WordSum(Daddr(f, l3))
  {
    SameHeader(f, g, l3, proto);
    assert Segment(g, l3, proto, end) == Segment(f, l3, proto, end);
  }

  // ----- correct checksums stay correct, bit for bit -----

  lemma HeaderStaysOk(f: Bytes, l3: nat, proto: u8, to: Address4)
    requires Rewrite(f, l3, proto, to).0 && HeaderOk(f, l3)
    ensures HasHeader(Rewrite(f, l3, proto, to).1, l3) && HeaderOk(Rewrite(f, l3, proto, to).1, l3)
  {
    if Daddr(f, l3) != to {
      var g := Rewrite(f, l3, proto, to).1;
      RewriteEffect(f, l3, proto, to);
      HeaderSumMoves(f, g, l3, proto);
      UpdateIsExact(HeaderSum(Header(f, l3), 0), HeaderSum(Header(g, l3), 0), Daddr(f, l3), to);
    }
  }

  lemma L4StaysOk(f: Bytes, l3: nat, proto: u8, end: nat, to: Address4)
    requires Rewrite(f, l3, proto, to).0 && HasL4(proto) && EndsAt(f, l3, proto, end) && L4Ok(f, l3, proto, end)
    ensures var g := Rewrite(f, l3, proto, to).1;
      HasHeader(g, l3) && EndsAt(g, l3, proto, end) && L4Ok(g, l3, proto, end)
  {
    if Daddr(f, l3) != to {
      var g := Rewrite(f, l3, proto, to).1;
      RewriteEffect(f, l3, proto, to);
      L4TotalMoves(f, g, l3, proto, end);
      if proto == TCP {
        UpdateIsExact(L4Total(f, l3, proto, end), L4Total(g, l3, proto, end), Daddr(f, l3), to);
      } else if L4Stored(f, l3, proto) != 0 {
        UdpUpdateIsExact(L4Total(f, l3, proto, end), L4Total(g, l3, proto, end), Daddr(f, l3), to);
      }
    }
  }

  /** The frame's checksums are all what a full recomputation gives. */
  ghost predicate Correct(f: Bytes, l3: nat, proto: u8, end: nat) {
    HasHeader(f, l3) && HeaderOk(f, l3) && (HasL4(proto) ==> EndsAt(f, l3, proto, end) && L4Ok(f, l3, proto, end))
  }

  /**
   A correct frame can always be rewritten, to a correct frame with the new address, wherever its
   segment ends.
   */
  lemma RewriteIsRecomputation(f: Bytes, l3: nat, proto: u8, end: nat, to: Address4)
    requires Correct(f, l3, proto, end)
    ensures var (ok, g) := Rewrite(f, l3, proto, to);
      && ok && Correct(g, l3, proto, end) && Daddr(g, l3) == to && SameElsewhere(f, g, l3, proto)
      && (proto == UDP ==> (L4Stored(g, l3, proto) == 0 <==> L4Stored(f, l3, proto) == 0))
  {
    HeaderStaysOk(f, l3, proto, to);
    if HasL4(proto) { L4StaysOk(f, l3, proto, end, to); }
    if Daddr(f, l3) != to { RewriteEffect(f, l3, proto, to); }
  }

  // ----- rewrites compose and cancel -----

  /** Correct frames that agree outside their checksums are equal. */
  lemma CorrectIsCanonical(f: Bytes, g: Bytes, l3: nat, proto: u8, end: nat)
    requires Correct(f, l3, proto, end) && Correct(g, l3, proto, end)
    requires SameElsewhere(f, g, l3, proto) && Daddr(f, l3) == Daddr(g, l3)
    requires proto == UDP ==> (L4Stored(g, l3, proto) == 0 <==> L4Stored(f, l3, proto) == 0)
    ensures f == g
  {
    SameHeader(f, g, l3, proto);
    HeaderSumMoves(f, g, l3, proto);
    SameWord(f, g, l3 + 10);
    if HasL4(proto) {
      L4TotalMoves(f, g, l3, proto, end);
      SameWord(f, g, L4Start(f, l3) + ChecksumAt(proto));
    }
    forall i | 0 <= i < |f| ensures f[i] == g[i] {
      if l3 + 16 <= i < l3 + 20 { assert f[i] == Daddr(f, l3)[i - l3 - 16]; }
    }
  }

  lemma SameWord(f: Bytes, g: Bytes, at: nat)
    requires at + 2 <= |f| && at + 2 <= |g| && Get16(f, at) == Get16(g, at)
    ensures f[at] == g[at] && f[at + 1] == g[at + 1]
  {
  }

  lemma ElsewhereChains(f: Bytes, g: Bytes, h: Bytes, l3: nat, proto: u8)
    requires HasHeader(f, l3) && SameElsewhere(f, g, l3, proto)
    requires HasHeader(g, l3) && SameElsewhere(g, h, l3, proto)
    ensures SameElsewhere(f, h, l3, proto) && SameElsewhere(g, f, l3, proto)
  {
    SameHeader(f, g, l3, proto);
  }

  /** Rewriting to b and then to c is rewriting to c. */
  lemma RewritesCompose(f: Bytes, l3: nat, proto: u8, end: nat, b: Address4, c: Address4)
    requires Correct(f, l3, proto, end)
    ensures Rewrite(Rewrite(f, l3, proto, b).1, l3, proto, c) == Rewrite(f, l3, proto, c)
  {
    var g, k := Rewrite(f, l3, proto, b).1, Rewrite(f, l3, proto, c).1;
    RewriteIsRecomputation(f, l3, proto, end, b);
    RewriteIsRecomputation(f, l3, proto, end, c);
    RewriteIsRecomputation(g, l3, proto, end, c);
    var h := Rewrite(g, l3, proto, c).1;
    ElsewhereChains(f, g, h, l3, proto);
    ElsewhereChains(f, k, k, l3, proto);
    ElsewhereChains(k, f, h, l3, proto);
    CorrectIsCanonical(k, h, l3, proto, end);
  }

  /** Rewriting there and back restores the frame byte for byte. */
  lemma RewriteRoundTrip(f: Bytes, l3: nat, proto: u8, end: nat, b: Address4)
    requires Correct(f, l3, proto, end)
    ensures Rewrite(Rewrite(f, l3, proto, b).1, l3, proto, Daddr(f, l3)) == (true, f)
  {
    RewritesCompose(f, l3, proto, end, b, Daddr(f, l3));
  }

  // ----- checksums that were wrong stay wrong by as much -----

  lemma DefectKept(c: u16, r: u16, s: nat, s': nat, o: nat, n: nat)
    requires Congruent(Not16(r) + o, Not16(c) + n) && s' + o == s + n
    ensures Congruent(r + s', c + s) && Congruent(UdpForm(r) + s', c + s)
  {
    var k := (Not16(r) + o - (Not16(c) + n)) / 0xffff;
    assert r + s' == c + s + 0xffff * (-k);
    MultipleIsCongruent(c + s, r + s', -k);
    UdpFormCongruent(r);
    CongruentAdds(UdpForm(r), r, s', s');
    CongruentChains(UdpForm(r) + s', r + s', c + s);
  }

  lemma UpdateKeepsDefect(c: u16, from: Address4, to: Address4, s: nat, s': nat)
    requires s' + WordSum(from) == s + WordSum(to)
    ensures Congruent(UpdateBoth(c, from, to) + s', c + s) && Congruent(UdpForm(UpdateBoth(c, from, to)) + s', c + s)
  {
    UpdateResidue(c, from, to);
    DefectKept(c, UpdateBoth(c, from, to), s, s', WordSum(from), WordSum(to));
  }

  lemma UdpFormCongruent(r: u16)
    ensures Congruent(UdpForm(r), r)
  {
  }

  /** Checksum plus sum, which is 0 mod 65535 for a correct checksum, is the same in both frames. */
  ghost predicate SameHeaderDefect(f: Bytes, g: Bytes, l3: nat)
    requires HasHeader(f, l3)
  {
    HasHeader(g, l3) &&
    Congruent(Get16(g, l3 + 10) + HeaderSum(Header(g, l3), 0), Get16(f, l3 + 10) + HeaderSum(Header(f, l3), 0))
  }

  ghost predicate SameL4Defect(f: Bytes, g: Bytes, l3: nat, proto: u8, end: nat)
    requires HasHeader(f, l3) && EndsAt(f, l3, proto, end)
  {
    HasHeader(g, l3) && EndsAt(g, l3, proto, end) &&
    Congruent(L4Stored(g, l3, proto) + L4Total(g, l3, proto, end), L4Stored(f, l3, proto) + L4Total(f, l3, proto, end))
  }

  lemma HeaderDefectKept(f: Bytes, g: Bytes, l3: nat, proto: u8)
    requires HasHeader(f, l3) && SameElsewhere(f, g, l3, proto) && HasHeader(g, l3)
    requires Get16(g, l3 + 10) == UpdateBoth(Get16(f, l3 + 10), Daddr(f, l3), Daddr(g, l3))
    ensures SameHeaderDefect(f, g, l3)
  {
    HeaderSumMoves(f, g, l3, proto);
    UpdateKeepsDefect(Get16(f, l3 + 10), Daddr(f, l3), Daddr(g, l3),
                      HeaderSum(Header(f, l3), 0), HeaderSum(Header(g, l3), 0));
  }

  lemma L4DefectKept(f: Bytes, g: Bytes, l3: nat, proto: u8, end: nat)
    requires HasHeader(f, l3) && SameElsewhere(f, g, l3, proto) && HasHeader(g, l3)
    requires HasL4(proto) && EndsAt(f, l3, proto, end) && EndsAt(g, l3, proto, end)
    requires proto == UDP ==> L4Stored(f, l3, proto) != 0
    requires L4Stored(g, l3, proto) == NewL4(L4Stored(f, l3, proto), proto, Daddr(f, l3), Daddr(g, l3))
    ensures SameL4Defect(f, g, l3, proto, end)
  {
    var c, s, s' := L4Stored(f, l3, proto), L4Total(f, l3, proto, end), L4Total(g, l3, proto, end);
    L4TotalMoves(f, g, l3, proto, end);
    UpdateKeepsDefect(c, Daddr(f, l3), Daddr(g, l3), s, s');
  }

  /**
   For any frame, correct or not, a successful rewrite keeps each checksum plus its sum mod
   65535, but for a UDP checksum of 0, which stays 0.
   */
  lemma RewriteKeepsDefect(f: Bytes, l3: nat, proto: u8, to: Address4)
    requires Rewrite(f, l3, proto, to).0
    ensures SameHeaderDefect(f, Rewrite(f, l3, proto, to).1, l3)
  {
    if Daddr(f, l3) != to {
      RewriteEffect(f, l3, proto, to);
      HeaderDefectKept(f, Rewrite(f, l3, proto, to).1, l3, proto);
    }
  }

  lemma RewriteKeepsL4Defect(f: Bytes, l3: nat, proto: u8, end: nat, to: Address4)
    requires Rewrite(f, l3, proto, to).0 && HasL4(proto) && EndsAt(f, l3, proto, end)
    requires proto == UDP ==> L4Stored(f, l3, proto) != 0
    ensures SameL4Defect(f, Rewrite(f, l3, proto, to).1, l3, proto, end)
  {
    if Daddr(f, l3) != to {
      RewriteEffect(f, l3, proto, to);
      L4DefectKept(f, Rewrite(f, l3, proto, to).1, l3, proto, end);
    } else {
      var defect := L4Stored(f, l3, proto) + L4Total(f, l3, proto, end);
      MultipleIsCongruent(defect, defect, 0);
    }
  }

  // ----- the rewrite in bytes, at their literal places -----

  /** When the rewrite succeeds. */
  lemma SucceedsIff(f: Bytes, l3: nat, proto: u8, to: Address4)
    ensures Rewrite(f, l3, proto, to).0 <==>
      |f| >= l3 + 20 && f[l3] % 16 >= 5 && |f| >= l3 + 4 * (f[l3] % 16) as int &&
      (f[l3 + 16..l3 + 20] == to || (proto != 6 && proto != 17)
       || |f| >= l3 + 4 * (f[l3] % 16) as int + (if proto == 6 then 18 else 8))
  {
  }

  /** Where the transport checksum is: byte 16 of a TCP header, byte 6 of a UDP header. */
  ghost predicate IsChecksumPlace(f: Bytes, l3: nat, proto: u8, at: nat)
    requires l3 < |f|
  {
    (proto == 6 && at == l3 + 4 * (f[l3] % 16) as int + 16) || (proto == 17 && at == l3 + 4 * (f[l3] % 16) as int + 6)
  }

  /** What a successful rewrite changes at all. */
  lemma ChangesOnly(f: Bytes, l3: nat, proto: u8, to: Address4, i: nat)
    requires Rewrite(f, l3, proto, to).0 && i < |f|
    ensures |Rewrite(f, l3, proto, to).1| == |f| && Rewrite(f, l3, proto, to).1[l3 + 16..l3 + 20] == to
    ensures Rewrite(f, l3, proto, to).1[i] == f[i]
      || l3 + 10 <= i < l3 + 12 || l3 + 16 <= i < l3 + 20
      || exists at: nat :: IsChecksumPlace(f, l3, proto, at) && at <= i < at + 2
  {
    if Daddr(f, l3) != to {
      RewriteEffect(f, l3, proto, to);
      if HasL4(proto) { assert IsChecksumPlace(f, l3, proto, L4Start(f, l3) + ChecksumAt(proto)); }
    }
  }

  /** The word at byte 10 of the header is the checksum of the header's other bytes. */
  ghost predicate HeaderBytesRight(f: Bytes, l3: nat, l4: nat) {
    && l3 + 12 <= l4 <= |f|
    && 0x100 * f[l3 + 10] as int + f[l3 + 11] == Not16(FoldOf(WordSum(f[l3..l3 + 10]) + WordSum(f[l3 + 12..l4])))
  }

  lemma HeaderBytesStayRight(f: Bytes, l3: nat, proto: u8, to: Address4, l4: nat)
    requires Rewrite(f, l3, proto, to).0 && l4 == l3 + 4 * (f[l3] % 16) as int
    requires HeaderBytesRight(f, l3, l4)
    ensures HeaderBytesRight(Rewrite(f, l3, proto, to).1, l3, l4)
  {
    HeaderInBytes(f, l3, l4);
    HeaderStaysOk(f, l3, proto, to);
    RewriteKeepsStart(f, l3, proto, to);
    HeaderInBytes(Rewrite(f, l3, proto, to).1, l3, l4);
  }

  lemma RewriteKeepsStart(f: Bytes, l3: nat, proto: u8, to: Address4)
    requires Rewrite(f, l3, proto, to).0
    ensures var g := Rewrite(f, l3, proto, to).1; |g| == |f| && HasHeader(g, l3) && g[l3] == f[l3]
  {
    if Daddr(f, l3) != to {
      RewriteEffect(f, l3, proto, to);
      SameHeader(f, Rewrite(f, l3, proto, to).1, l3, proto);
    }
  }

  lemma HeaderInBytes(f: Bytes, l3: nat, l4: nat)
    requires HasHeader(f, l3) && l4 == L4Start(f, l3)
    ensures HeaderOk(f, l3) <==> HeaderBytesRight(f, l3, l4)
  {
    HeaderSumSplits(Header(f, l3));
    assert Header(f, l3)[..10] == f[l3..l3 + 10] && Header(f, l3)[12..] == f[l3 + 12..l4];
  }

  /**
   The word at byte `at` is the checksum of the segment l4..end with its own two bytes at zero; for
   UDP a computed 0 is sent as all ones.
   */
  ghost predicate TransportBytesRight(f: Bytes, l3: nat, proto: u8, l4: nat, end: nat, at: nat) {
    && l3 + 20 <= l4 <= at && at + 2 <= end <= |f|
    && var c := L4Checksum(f[l3 + 12..l3 + 16], f[l3 + 16..l3 + 20], proto, f[at := 0][at + 1 := 0][l4..end]);
       0x100 * f[at] as int + f[at + 1] == if proto == 17 && c == 0 then 0xffff else c
  }

  lemma TransportBytesStayRight(f: Bytes, l3: nat, proto: u8, to: Address4, l4: nat, end: nat, at: nat)
    requires Rewrite(f, l3, proto, to).0 && l4 == l3 + 4 * (f[l3] % 16) as int && IsChecksumPlace(f, l3, proto, at)
    requires TransportBytesRight(f, l3, proto, l4, end, at)
    ensures TransportBytesRight(Rewrite(f, l3, proto, to).1, l3, proto, l4, end, at)
  {
    TransportInBytes(f, l3, proto, l4, end, at);
    L4StaysOk(f, l3, proto, end, to);
    RewriteKeepsStart(f, l3, proto, to);
    TransportInBytes(Rewrite(f, l3, proto, to).1, l3, proto, l4, end, at);
    if proto == 17 { NoChecksumStays(f, l3, to, at); }
  }

  /** A UDP checksum of 0, which means none, stays 0, and no other becomes 0. */
  lemma NoChecksumStays(f: Bytes, l3: nat, to: Address4, at: nat)
    requires Rewrite(f, l3, 17, to).0 && IsChecksumPlace(f, l3, 17, at) && at + 2 <= |f|
    ensures var g := Rewrite(f, l3, 17, to).1;
      |g| == |f| && (g[at] == 0 && g[at + 1] == 0 <==> f[at] == 0 && f[at + 1] == 0)
  {
    if Daddr(f, l3) != to {
      RewriteEffect(f, l3, 17, to);
      ZeroWord(f, at);
      ZeroWord(Rewrite(f, l3, 17, to).1, at);
    }
  }

  lemma ZeroWord(f: Bytes, at: nat)
    requires at + 2 <= |f|
    ensures Get16(f, at) == 0 <==> f[at] == 0 && f[at + 1] == 0
  {
  }

  lemma TransportInBytes(f: Bytes, l3: nat, proto: u8, l4: nat, end: nat, at: nat)
    requires HasHeader(f, l3) && l4 == L4Start(f, l3) && IsChecksumPlace(f, l3, proto, at) && at + 2 <= end <= |f|
    ensures EndsAt(f, l3, proto, end)
    ensures L4Ok(f, l3, proto, end) <==>
      TransportBytesRight(f, l3, proto, l4, end, at) || (proto == 17 && f[at] == 0 && f[at + 1] == 0)
    ensures TransportBytesRight(f, l3, proto, l4, end, at) && proto == 17 ==> f[at] != 0 || f[at + 1] != 0
  {
    assert Segment(f, l3, proto, end) == f[at := 0][at + 1 := 0][l4..end];
  }

  // ----- what a failed rewrite leaves behind -----

  lemma HeaderAfter(f: Bytes, l3: nat, w: u16)
    requires HasHeader(f, l3)
    ensures var g := Put16(f, l3 + 10, w);
      && HasHeader(g, l3) && HeaderChecksum(Header(g, l3)) == HeaderChecksum(Header(f, l3))
      && Get16(g, l3 + 10) == w && (g == f <==> Get16(f, l3 + 10) == w)
  {
    var g := Put16(f, l3 + 10, w);
    PutReads(f, l3 + 10, w, l3 + 10);
    HeaderSumSplits(Header(f, l3));
    HeaderSumSplits(Header(g, l3));
    assert Header(g, l3)[..10] == Header(f, l3)[..10] && Header(g, l3)[12..] == Header(f, l3)[12..];
    if Get16(f, l3 + 10) == w { SameWord(f, g, l3 + 10); }
  }

  /** The new header checksum of a correct header is the old one exactly when the addresses have one residue. */
  lemma SameChecksumIff(f: Bytes, l3: nat, to: Address4)
    requires HasHeader(f, l3) && HeaderOk(f, l3)
    ensures NewHeader(f, l3, to) == Get16(f, l3 + 10) <==> Congruent(WordSum(Daddr(f, l3)), WordSum(to))
  {
    HeaderSumMoves(f, f, l3, 0);
    UnmovedIff(HeaderSum(Header(f, l3), 0), Daddr(f, l3), to);
  }

  /**
   A failed rewrite leaves the frame unchanged exactly when the header is missing or its checksum
   does not move; otherwise the header checksum is already that of the new address.
   */
  lemma FailedRewrite(f: Bytes, l3: nat, proto: u8, to: Address4)
    requires !Rewrite(f, l3, proto, to).0
    ensures var g := Rewrite(f, l3, proto, to).1;
      && (g == f <==> !HasHeader(f, l3) || NewHeader(f, l3, to) == Get16(f, l3 + 10))
      && (HasHeader(f, l3) ==>
            && HasHeader(g, l3) && Get16(g, l3 + 10) == NewHeader(f, l3, to)
            && (HeaderOk(g, l3) <==> NewHeader(f, l3, to) == HeaderChecksum(Header(f, l3))))
  {
    if HasHeader(f, l3) { HeaderAfter(f, l3, NewHeader(f, l3, to)); }
  }

  /** A late failure on a correct header breaks its checksum, unless the addresses have one residue mod 65535. */
  lemma LateFailure(f: Bytes, l3: nat, proto: u8, to: Address4)
    requires HasHeader(f, l3) && HeaderOk(f, l3) && !Rewrite(f, l3, proto, to).0
    ensures var g := Rewrite(f, l3, proto, to).1;
      && HasHeader(g, l3) && (HeaderOk(g, l3) <==> g == f)
      && (g == f <==> Congruent(WordSum(Daddr(f, l3)), WordSum(to)))
  {
    FailedRewrite(f, l3, proto, to);
    SameChecksumIff(f, l3, to);
  }

  // ----- the program -----

  method ReadWord(frame: array<u8>, at: nat) returns (w: u16)
    requires at + 2 <= frame.Length
    ensures w == Get16(frame[..], at)
  {
    w := 0x100 * frame[at] as int + frame[at + 1];
  }

  method WriteWord(frame: array<u8>, at: nat, w: u16)
    requires at + 2 <= frame.Length
    modifies frame
    ensures frame[..] == Put16(old(frame[..]), at, w)
  {
    frame[at] := w / 0x100;
    frame[at + 1] := w % 0x100;
  }

  /** The transport checksum at this offset, where 0 means "none" in UDP. */
  method UpdateL4(frame: array<u8>, at: nat, proto: u8, from: Address4, to: Address4)
    requires at + 2 <= frame.Length
    modifies frame
    ensures frame[..] == Put16(old(frame[..]), at, NewL4(Get16(old(frame[..]), at), proto, from, to))
  {
    var c := ReadWord(frame, at);
    if proto == TCP {
      c := UpdateBoth(c, from, to);
      WriteWord(frame, at, c);
    } else if c != 0 {
      c := UpdateBoth(c, from, to);
      if c == 0 {
        c := 0xffff;
      }
      WriteWord(frame, at, c);
    }
  }

  /** The transport part: nothing to do for other protocols, no room for some frames. */
  method UpdateTransport(frame: array<u8>, l4: nat, proto: u8, from: Address4, to: Address4) returns (ok: bool)
    modifies frame
    ensures ok == (HasL4(proto) ==> frame.Length >= l4 + L4Needs(proto))
    ensures var at := l4 + ChecksumAt(proto);
      frame[..] ==
        if ok && HasL4(proto) then Put16(old(frame[..]), at, NewL4(Get16(old(frame[..]), at), proto, from, to))
        else old(frame[..])
  {
    if proto == TCP || proto == UDP {
      if frame.Length < l4 + (if proto == TCP then 18 else 8) {
        return false;
      }
      UpdateL4(frame, l4 + ChecksumAt(proto), proto, from, to);
    }
    return true;
  }

  method RewriteDaddr(frame: array<u8>, l3_off: nat, l4_proto: u8, new_daddr: Address4) returns (ok: bool)
    modifies frame
    ensures (ok, frame[..]) == Rewrite(old(frame[..]), l3_off, l4_proto, new_daddr)
  {
    ghost var f := frame[..];
    if frame.Length < l3_off + 20 {
      return false;
    }
    LowNibble(frame[l3_off]);
    var ihl := And(frame[l3_off], 0x0f) * 4;
    if ihl < 20 || frame.Length < l3_off + ihl {
      return false;
    }
    var was: Address4 := frame[l3_off + 16..l3_off + 20];
    assert was == Daddr(f, l3_off);
    if was == new_daddr {
      return true;
    }
    UpdateHeader(frame, l3_off, was, new_daddr);
    var l4 := l3_off + ihl;
    ok := UpdateTransport(frame, l4, l4_proto, was, new_daddr);
    if ok {
      WriteDaddr(frame, l3_off, new_daddr);
    }
  }

  method WriteDaddr(frame: array<u8>, l3: nat, a: Address4)
    requires frame.Length >= l3 + 20
    modifies frame
    ensures frame[..] == PutDaddr(old(frame[..]), l3, a)
  {
    WriteWord(frame, l3 + 16, Get16(a, 0));
    WriteWord(frame, l3 + 18, Get16(a, 2));
  }

  method UpdateHeader(frame: array<u8>, l3: nat, from: Address4, to: Address4)
    requires HasHeader(frame[..], l3) && from == Daddr(frame[..], l3)
    modifies frame
    ensures frame[..] == AfterHeader(old(frame[..]), l3, to)
    ensures forall at :: l3 + 12 <= at && at + 2 <= frame.Length ==> Get16(frame[..], at) == Get16(old(frame[..]), at)
  {
    var c := ReadWord(frame, l3 + 10);
    WriteWord(frame, l3 + 10, UpdateBoth(c, from, to));
  }
}
