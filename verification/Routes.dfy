/**
 IPv4 routes and their reference semantics: longest prefix match over the list of all adds
 (rs/l3fwd/src/lpm.rs).

 `Best` picks the deepest route that covers an address, the last added among equals.  The
 lemmas below turn coverage, which is agreement of leading bits, into the masks and ranges
 that the table works with.
 */
module Routes {
  import opened Bits
  import opened Options

  datatype Route = Route(net: u32, depth: nat, nh: u16)

  type Ipv4Route = r: Route | r.depth <= 32 witness Route(0, 0, 0)

  /** The first `depth` bits of the address are those of the network (RFC 4632, section 5.1). */
  ghost predicate Covers(r: Ipv4Route, ip: u32) {
    SameBits(r.net, ip, 32 - r.depth, 32)
  }

  ghost function Best(routes: seq<Ipv4Route>, ip: u32): (best: Option<Ipv4Route>)
    ensures best.Some? ==> best.value in routes
  {
    if routes == [] then None
    else
      var last := routes[|routes| - 1];
      var best := Best(routes[..|routes| - 1], ip);
      if Covers(last, ip) && (best.None? || best.value.depth <= last.depth) then Some(last) else best
  }

  /** Route k covers ip, and every other covering route is shallower, or as deep but older. */
  ghost predicate IsLongestMatch(routes: seq<Ipv4Route>, ip: u32, k: nat) {
    k < |routes| && Covers(routes[k], ip) &&
    forall j :: 0 <= j < |routes| && Covers(routes[j], ip) ==>
      routes[j].depth < routes[k].depth || (routes[j].depth == routes[k].depth && j <= k)
  }

  lemma {:induction false} BestIsLongestMatch(routes: seq<Ipv4Route>, ip: u32)
    ensures Best(routes, ip).None? <==> forall r :: r in routes ==> !Covers(r, ip)
    ensures Best(routes, ip).Some? ==>
      exists k: nat :: IsLongestMatch(routes, ip, k) && Best(routes, ip).value == routes[k]
  {
    if routes != [] {
      var n := |routes| - 1;
      var init, last := routes[..n], routes[n];
      assert routes == init + [last];
      BestIsLongestMatch(init, ip);
      var best := Best(init, ip);
      if Covers(last, ip) && (best.None? || best.value.depth <= last.depth) {
        assert IsLongestMatch(routes, ip, n) by {
          forall j | 0 <= j < n && Covers(routes[j], ip) ensures routes[j].depth <= last.depth {
            assert init[j] in init;
          }
        }
      } else if best.Some? {
        var k: nat :| IsLongestMatch(init, ip, k) && best.value == init[k];
        assert forall j :: 0 <= j < n ==> routes[j] == init[j];
        assert IsLongestMatch(routes, ip, k);
      }
    }
  }

  /** The next hop of the route that the reference picks. */
  ghost function NextHop(routes: seq<Ipv4Route>, ip: u32): Option<u16> {
    match Best(routes, ip)
    case None => None
    case Some(r) => Some(r.nh)
  }

  /** None exactly when no route covers the address, and otherwise the next hop of a longest match. */
  ghost predicate Answers(routes: seq<Ipv4Route>, ip: u32, nh: Option<u16>) {
    && (nh.None? <==> forall r :: r in routes ==> !Covers(r, ip))
    && (nh.Some? ==> exists k: nat :: IsLongestMatch(routes, ip, k) && nh.value == routes[k].nh)
  }

  lemma NextHopAnswers(routes: seq<Ipv4Route>, ip: u32)
    ensures Answers(routes, ip, NextHop(routes, ip))
  {
    BestIsLongestMatch(routes, ip);
  }

  // ----- the masked network, and coverage as a range of addresses -----

  /** net & (u32::MAX << (32 - depth)), and 0 for depth 0, which u32 cannot shift by */
  function Masked(net: u32, depth: nat): nat
    requires depth <= 32
  {
    if depth == 0 then 0 else And(net, Shl(0xffff_ffff, 32 - depth) % 0x1_0000_0000)
  }

  lemma MaskedValue(net: u32, depth: nat)
    requires depth <= 32
    ensures Masked(net, depth) == ClearLow(net, 32 - depth)
  {
    if depth == 0 {
      Split(net, 32);
      ClearLowFits(net, 32, 32);
    } else {
      Pow2Values();
      ShiftedMask(32 - depth, 32);
      AndHighMask(net, 32 - depth, 32);
    }
  }

  lemma CoversIsShr(r: Ipv4Route, ip: u32)
    ensures Covers(r, ip) <==> Shr(r.net, 32 - r.depth) == Shr(ip, 32 - r.depth)
  {
    Pow2Values();
    SameHighBits(r.net, ip, 32 - r.depth, 32);
  }

  /** Covering as division: network and address agree when the host bits are shifted out. */
  lemma CoversIsDivision(r: Ipv4Route, ip: u32)
    ensures Covers(r, ip) <==> r.net / Pow2(32 - r.depth) == ip / Pow2(32 - r.depth)
  {
    CoversIsShr(r, ip);
    SplitByPower(r.net, 32 - r.depth, Pow2(32 - r.depth));
    SplitByPower(ip, 32 - r.depth, Pow2(32 - r.depth));
  }

  /** Routes of one depth cover the same addresses when their masked networks are equal ... */
  lemma CoversIsMasked(r: Ipv4Route, ip: u32)
    ensures Covers(r, ip) <==> Masked(ip, r.depth) == Masked(r.net, r.depth)
  {
    CoversIsShr(r, ip);
    MaskedValue(r.net, r.depth);
    MaskedValue(ip, r.depth);
    SameHighIsSameClear(r.net, ip, 32 - r.depth);
  }

  lemma ShallowFirst(net: u32, depth: nat)
    requires depth <= 24
    ensures Masked(net, depth) / 256 == ClearLow(net / 256, 24 - depth)
  {
    MaskedValue(net, depth);
    ClearLowShr(net, 24 - depth, 8);
    Split(net, 8);
    Split(Masked(net, depth), 8);
  }

  /** A prefix of depth at most 24 covers whole /24 blocks, the ones `Add` walks over ... */
  lemma ShallowRange(r: Ipv4Route, ip: u32)
    requires r.depth <= 24
    ensures var first := Masked(r.net, r.depth) / 256;
      Covers(r, ip) <==> first <= ip / 256 < first + Pow2(24 - r.depth)
  {
    var k := 24 - r.depth;
    CoversIsShr(r, ip);
    ShrAdds(r.net, 8, k);
    ShrAdds(ip, 8, k);
    Split(r.net, 8);
    Split(ip, 8);
    ShallowFirst(r.net, r.depth);
    SameHighIsRange(r.net / 256, ip / 256, k);
  }

  /** ... and those lie inside the table. */
  lemma ShallowFits(net: u32, depth: nat)
    requires depth <= 24
    ensures Masked(net, depth) / 256 + Pow2(24 - depth) <= 0x100_0000
  {
    ShallowFirst(net, depth);
    Pow2Values();
    ClearLowFits(net / 256, 24 - depth, 24);
  }

  lemma DeepStart(net: u32, depth: nat)
    requires 24 < depth <= 32
    ensures var masked := Masked(net, depth);
      masked / 256 == net / 256 && masked % 256 + Pow2(32 - depth) <= 256
  {
    MaskedValue(net, depth);
    ClearLowBelow(net, 32 - depth, 8);
    Split(net, 8);
    Split(Masked(net, depth), 8);
  }

  /** A prefix deeper than 24 covers one range inside one /24 block. */
  lemma DeepRange(r: Ipv4Route, ip: u32)
    requires r.depth > 24
    ensures var masked := Masked(r.net, r.depth);
      && masked / 256 == r.net / 256
      && masked % 256 + Pow2(32 - r.depth) <= 256
      && (Covers(r, ip) <==>
          ip / 256 == masked / 256
          && masked % 256 <= ip % 256 < masked % 256 + Pow2(32 - r.depth))
  {
    DeepStart(r.net, r.depth);
    CoversIsShr(r, ip);
    MaskedValue(r.net, r.depth);
    SameHighIsRange(r.net, ip, 32 - r.depth);
    InsideBlock(Masked(r.net, r.depth), Pow2(32 - r.depth), ip);
  }

  lemma InsideBlock(first: nat, count: nat, ip: nat)
    requires first % 256 + count <= 256
    ensures first <= ip < first + count <==>
      ip / 256 == first / 256 && first % 256 <= ip % 256 < first % 256 + count
  {
  }
}
