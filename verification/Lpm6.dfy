/**
 The IPv6 table of rs/l3fwd/src/lpm.rs: routes kept deepest first and scanned linearly.

 The scan compares whole bytes and then masks one more; `MatchesIsCovers` says that this is the
 comparison of the first `depth` bits.  The list is rebuilt by a stable sort after each add, so
 that the scan finds the longest match, the earliest added among equals.
 */
module Lpm6 {
  import opened Bits
  import opened Options

  type Address = a: seq<u8> | |a| == 16 witness seq(16, _ => 0)

  datatype Route6 = Route6(net: Address, depth: nat, nh: u16)

  type Ipv6Route = r: Route6 | r.depth <= 128 witness Route6(seq(16, _ => 0), 0, 0)

  /** Bit i of an address, counted from its most significant bit. */
  predicate AddressBit(a: Address, i: nat)
    requires i < 128
  {
    Bit(a[i / 8], 7 - i % 8)
  }

  ghost predicate Covers6(r: Ipv6Route, a: Address) {
    forall i :: 0 <= i < r.depth ==> AddressBit(a, i) == AddressBit(r.net, i)
  }

  // ----- the comparison of the scan -----

  predicate Matches(r: Ipv6Route, a: Address) {
    var full, rem := r.depth / 8, r.depth % 8;
    a[..full] == r.net[..full] &&
    (rem == 0 || And(Xor(a[full], r.net[full]), Shl(0xff, 8 - rem) % 0x100) == 0)
  }

  /** (x ^ y) & (0xff << s) is zero exactly when the bytes agree from bit s up. */
  lemma MaskedXor(x: u8, y: u8, s: nat)
    requires s < 8
    ensures And(Xor(x, y), Shl(0xff, s) % 0x100) == 0 <==> SameBits(x, y, s, 8)
  {
    Pow2Values();
    ShiftedMask(s, 8);
    XorBound(x, y, 8);
    AndHighMask(Xor(x, y), s, 8);
    XorClearedIsZero(x, y, s);
    SameHighBits(x, y, s, 8);
  }

  lemma SameByte(x: u8, y: u8)
    ensures x == y <==> SameBits(x, y, 0, 8)
  {
    Split(0, 8);
    SameHighBits(x, y, 0, 8);
  }

  /** The first n bits of byte b of the two addresses agree. */
  ghost predicate SameInByte(a: Address, c: Address, b: nat, n: nat)
    requires b < 16 && n <= 8
  {
    forall i :: 8 * b <= i < 8 * b + n ==> AddressBit(a, i) == AddressBit(c, i)
  }

  lemma SameInByteIsSameBits(a: Address, c: Address, b: nat, n: nat)
    requires b < 16 && n <= 8
    ensures SameInByte(a, c, b, n) <==> SameBits(a[b], c[b], 8 - n, 8)
  {
    if SameInByte(a, c, b, n) {
      forall k | 8 - n <= k < 8 ensures Bit(a[b], k) == Bit(c[b], k) {
        assert AddressBit(a, 8 * b + 7 - k) == AddressBit(c, 8 * b + 7 - k);
      }
    }
    if SameBits(a[b], c[b], 8 - n, 8) {
      forall i | 8 * b <= i < 8 * b + n ensures AddressBit(a, i) == AddressBit(c, i) {
        assert Bit(a[b], 7 - i % 8) == Bit(c[b], 7 - i % 8);
      }
    }
  }

  lemma MatchesIsCovers(r: Ipv6Route, a: Address)
    ensures Matches(r, a) <==> Covers6(r, a)
  {
    var full, rem := r.depth / 8, r.depth % 8;
    forall b | 0 <= b < full ensures a[b] == r.net[b] <==> SameInByte(a, r.net, b, 8) {
      SameByte(a[b], r.net[b]);
      SameInByteIsSameBits(a, r.net, b, 8);
    }
    if rem != 0 {
      MaskedXor(a[full], r.net[full], 8 - rem);
      SameInByteIsSameBits(a, r.net, full, rem);
    }
    if Matches(r, a) {
      forall i | 0 <= i < r.depth ensures AddressBit(a, i) == AddressBit(r.net, i) {
        if i / 8 < full {
          assert a[..full][i / 8] == r.net[..full][i / 8];
        } else {
          assert SameInByte(a, r.net, full, rem);
        }
      }
    }
    if Covers6(r, a) {
      assert forall b :: 0 <= b < full ==> SameInByte(a, r.net, b, 8);
    }
  }

  lemma SameByteHigh(x: u8, y: u8, s: nat)
    requires s < 8
    ensures And(Xor(x, y), Shl(0xff, s) % 0x100) == 0 <==> x / Pow2(s) == y / Pow2(s)
  {
    Pow2Values();
    MaskedXor(x, y, s);
    SameHighBits(x, y, s, 8);
    SplitByPower(x, s, Pow2(s));
    SplitByPower(y, s, Pow2(s));
  }

  /** Covering in bytes: whole bytes are equal, and the leading bits of one more. */
  lemma CoversInBytes(r: Ipv6Route, a: Address)
    ensures var full, rem := r.depth / 8, r.depth % 8;
      Covers6(r, a) <==>
        a[..full] == r.net[..full] && (rem == 0 || a[full] / Pow2(8 - rem) == r.net[full] / Pow2(8 - rem))
  {
    MatchesIsCovers(r, a);
    if r.depth % 8 != 0 { SameByteHigh(a[r.depth / 8], r.net[r.depth / 8], 8 - r.depth % 8); }
  }

  // ----- the stable sort -----

  ghost predicate DeepestFirst(s: seq<Ipv6Route>) {
    forall i, j :: 0 <= i < j < |s| ==> s[i].depth >= s[j].depth
  }

  /** The routes of one depth, in order. */
  function OfDepth(s: seq<Ipv6Route>, depth: nat): seq<Ipv6Route> {
    if s == [] then []
    else (if s[0].depth == depth then [s[0]] else []) + OfDepth(s[1..], depth)
  }

  /** What `sort_by` promises for this comparison: deepest first, ties in their old order. */
  ghost predicate IsStableSort(s: seq<Ipv6Route>, t: seq<Ipv6Route>) {
    DeepestFirst(t) && forall depth: nat :: OfDepth(t, depth) == OfDepth(s, depth)
  }

  function Insert(s: seq<Ipv6Route>, r: Ipv6Route): seq<Ipv6Route> {
    if s == [] || s[0].depth < r.depth then [r] + s else [s[0]] + Insert(s[1..], r)
  }

  function SortByDepth(s: seq<Ipv6Route>): seq<Ipv6Route> {
    if s == [] then [] else Insert(SortByDepth(s[..|s| - 1]), s[|s| - 1])
  }

  lemma {:induction false} InsertMembers(s: seq<Ipv6Route>, r: Ipv6Route)
    ensures forall x :: x in Insert(s, r) <==> x in s || x == r
  {
    if s != [] && s[0].depth >= r.depth { InsertMembers(s[1..], r); }
  }

  lemma {:induction false} InsertKeepsOrder(s: seq<Ipv6Route>, r: Ipv6Route)
    requires DeepestFirst(s)
    ensures DeepestFirst(Insert(s, r))
  {
    if s != [] && s[0].depth >= r.depth {
      InsertKeepsOrder(s[1..], r);
      InsertMembers(s[1..], r);
      var t := Insert(s[1..], r);
      assert forall k :: 0 <= k < |t| ==> t[k] in t;
    }
  }

  /** The new route comes after those of its own depth. */
  lemma {:induction false} InsertOfDepth(s: seq<Ipv6Route>, r: Ipv6Route, depth: nat)
    requires DeepestFirst(s)
    ensures OfDepth(Insert(s, r), depth) == OfDepth(s, depth) + (if r.depth == depth then [r] else [])
  {
    if s == [] {
    } else if s[0].depth < r.depth {
      NoneOfDepth(s, r.depth);
      assert ([r] + s)[1..] == s;
    } else {
      InsertOfDepth(s[1..], r, depth);
      assert Insert(s, r)[1..] == Insert(s[1..], r);
    }
  }

  lemma {:induction false} NoneOfDepth(s: seq<Ipv6Route>, depth: nat)
    requires forall x :: x in s ==> x.depth < depth
    ensures OfDepth(s, depth) == []
  {
    if s != [] { NoneOfDepth(s[1..], depth); }
  }

  lemma {:induction false} OfDepthAppend(s: seq<Ipv6Route>, r: Ipv6Route, depth: nat)
    ensures OfDepth(s + [r], depth) == OfDepth(s, depth) + (if r.depth == depth then [r] else [])
  {
    if s != [] {
      OfDepthAppend(s[1..], r, depth);
      assert (s + [r])[1..] == s[1..] + [r];
    }
  }

  lemma {:induction false} SortIsStable(s: seq<Ipv6Route>)
    ensures IsStableSort(s, SortByDepth(s))
  {
    if s != [] {
      var n := |s| - 1;
      SortIsStable(s[..n]);
      InsertKeepsOrder(SortByDepth(s[..n]), s[n]);
      assert s == s[..n] + [s[n]];
      forall depth: nat ensures OfDepth(SortByDepth(s), depth) == OfDepth(s, depth) {
        InsertOfDepth(SortByDepth(s[..n]), s[n], depth);
        OfDepthAppend(s[..n], s[n], depth);
      }
    }
  }

  /** The promise of the sort determines its result. */
  lemma {:induction false} StableSortIsUnique(s: seq<Ipv6Route>, t: seq<Ipv6Route>)
    requires DeepestFirst(s) && DeepestFirst(t)
    requires forall depth: nat :: OfDepth(s, depth) == OfDepth(t, depth)
    ensures s == t
  {
    SomeOfDepth(s);
    SomeOfDepth(t);
    if s != [] && t != [] {
      FirstOfDepth(s, t);
      FirstOfDepth(t, s);
      assert OfDepth(s, s[0].depth)[0] == s[0] && OfDepth(t, s[0].depth)[0] == t[0];
      forall depth: nat ensures OfDepth(s[1..], depth) == OfDepth(t[1..], depth) {
        var head := if s[0].depth == depth then [s[0]] else [];
        assert OfDepth(s, depth) == head + OfDepth(s[1..], depth);
        assert OfDepth(t, depth) == head + OfDepth(t[1..], depth);
        assert OfDepth(s, depth)[|head|..] == OfDepth(t, depth)[|head|..];
      }
      StableSortIsUnique(s[1..], t[1..]);
    }
  }

  lemma SomeOfDepth(s: seq<Ipv6Route>)
    ensures s != [] ==> OfDepth(s, s[0].depth) != []
  {
  }

  lemma FirstOfDepth(s: seq<Ipv6Route>, t: seq<Ipv6Route>)
    requires s != [] && t != [] && DeepestFirst(t)
    requires OfDepth(s, s[0].depth) == OfDepth(t, s[0].depth)
    ensures t[0].depth >= s[0].depth
  {
    if t[0].depth < s[0].depth { NoneOfDepth(t, s[0].depth); }
  }

  /** Sorting after every add leaves the list that sorting once would. */
  lemma SortIncremental(s: seq<Ipv6Route>, r: Ipv6Route)
    ensures SortByDepth(SortByDepth(s) + [r]) == SortByDepth(s + [r])
  {
    SortIsStable(s);
    SortIsStable(SortByDepth(s));
    StableSortIsUnique(SortByDepth(SortByDepth(s)), SortByDepth(s));
    assert (SortByDepth(s) + [r])[..|SortByDepth(s)|] == SortByDepth(s);
    assert (s + [r])[..|s|] == s;
  }

  // ----- longest match -----

  ghost function Best6(routes: seq<Ipv6Route>, a: Address): (best: Option<Ipv6Route>) {
    if routes == [] then None
    else
      var last := routes[|routes| - 1];
      var best := Best6(routes[..|routes| - 1], a);
      if Covers6(last, a) && (best.None? || best.value.depth < last.depth) then Some(last) else best
  }

  /** Route k covers a, and every other covering route is shallower, or as deep but newer. */
  ghost predicate IsLongestMatch6(routes: seq<Ipv6Route>, a: Address, k: nat) {
    k < |routes| && Covers6(routes[k], a) &&
    forall j :: 0 <= j < |routes| && Covers6(routes[j], a) ==>
      routes[j].depth < routes[k].depth || (routes[j].depth == routes[k].depth && k <= j)
  }

  lemma {:induction false} Best6IsLongestMatch(routes: seq<Ipv6Route>, a: Address)
    ensures Best6(routes, a).None? <==> forall r :: r in routes ==> !Covers6(r, a)
    ensures Best6(routes, a).Some? ==>
      exists k: nat :: IsLongestMatch6(routes, a, k) && Best6(routes, a).value == routes[k]
  {
    if routes != [] {
      var n := |routes| - 1;
      var init, last := routes[..n], routes[n];
      assert routes == init + [last];
      Best6IsLongestMatch(init, a);
      var best := Best6(init, a);
      if Covers6(last, a) && (best.None? || best.value.depth < last.depth) {
        forall j | 0 <= j < n && Covers6(routes[j], a) ensures routes[j].depth < last.depth {
          assert init[j] in init;
        }
        assert IsLongestMatch6(routes, a, n);
      } else if best.Some? {
        var k: nat :| IsLongestMatch6(init, a, k) && best.value == init[k];
        assert forall j :: 0 <= j < n ==> routes[j] == init[j];
        assert IsLongestMatch6(routes, a, k);
      }
    }
  }

  ghost function FirstMatch(s: seq<Ipv6Route>, a: Address): Option<Ipv6Route> {
    if s == [] then None else if Covers6(s[0], a) then Some(s[0]) else FirstMatch(s[1..], a)
  }

  lemma {:induction false} FirstMatchInsert(s: seq<Ipv6Route>, r: Ipv6Route, a: Address)
    requires DeepestFirst(s)
    ensures var first := FirstMatch(s, a);
      && (first.Some? ==> first.value in s)
      && FirstMatch(Insert(s, r), a) ==
         if Covers6(r, a) && (first.None? || first.value.depth < r.depth) then Some(r) else first
  {
    if s != [] {
      FirstMatchInsert(s[1..], r, a);
      if s[0].depth < r.depth {
        assert ([r] + s)[1..] == s;
      } else {
        assert ([s[0]] + Insert(s[1..], r))[1..] == Insert(s[1..], r);
      }
    }
  }

  /** In the sorted list the first match is the longest match of the routes as they were added. */
  lemma {:induction false} FirstMatchIsBest(routes: seq<Ipv6Route>, a: Address)
    ensures FirstMatch(SortByDepth(routes), a) == Best6(routes, a)
  {
    if routes != [] {
      var n := |routes| - 1;
      FirstMatchIsBest(routes[..n], a);
      SortIsStable(routes[..n]);
      FirstMatchInsert(SortByDepth(routes[..n]), routes[n], a);
    }
  }

  /** What the answer of the sorted list means for the routes as they were added. */
  ghost predicate Answers6(added: seq<Ipv6Route>, a: Address, nh: Option<u16>) {
    && (nh.None? <==> forall r :: r in added ==> !Covers6(r, a))
    && (nh.Some? ==> exists k: nat :: IsLongestMatch6(added, a, k) && nh.value == added[k].nh)
  }

  lemma FirstMatchAnswers(added: seq<Ipv6Route>, a: Address)
    ensures var first := FirstMatch(SortByDepth(added), a);
      Answers6(added, a, if first.None? then None else Some(first.value.nh))
  {
    FirstMatchIsBest(added, a);
    Best6IsLongestMatch(added, a);
  }

  // ----- the program's own structure -----

  class Lpm6 {
    var routes: seq<Ipv6Route>
    ghost var added: seq<Ipv6Route>

    /** The list is the stable sort of all routes added so far. */
    ghost predicate Valid()
      reads this
    {
      routes == SortByDepth(added)
    }

    constructor ()
      ensures Valid() && added == []
    {
      routes := [];
      added := [];
    }

    method Add(net: Address, depth: nat, nh: u16)
      requires Valid() && depth <= 128
      modifies this
      ensures Valid() && added == old(added) + [Route6(net, depth, nh)]
      ensures DeepestFirst(routes)
      ensures forall d: nat :: OfDepth(routes, d) == OfDepth(added, d)
    {
      routes := routes + [Route6(net, depth, nh)];
      routes := SortByDepth(routes);
      SortIncremental(added, Route6(net, depth, nh));
      added := added + [Route6(net, depth, nh)];
      SortIsStable(added);
    }

    method Lookup(a: Address) returns (nh: Option<u16>)
      requires Valid()
      ensures nh.None? <==> forall r :: r in added ==> !Covers6(r, a)
      ensures nh.Some? ==> exists k: nat :: IsLongestMatch6(added, a, k) && nh.value == added[k].nh
    {
      FirstMatchAnswers(added, a);
      var i := 0;
      while i < |routes|
        invariant 0 <= i <= |routes|
        invariant FirstMatch(routes, a) == FirstMatch(routes[i..], a)
      {
        var r := routes[i];
        MatchesIsCovers(r, a);
        var full := r.depth / 8;
        if a[..full] == r.net[..full] {
          var rem := r.depth % 8;
          if rem == 0 || And(Xor(a[full], r.net[full]), Shl(0xff, 8 - rem) % 0x100) == 0 {
            return Some(r.nh);
          }
        }
        i := i + 1;
      }
      return None;
    }
  }
}
