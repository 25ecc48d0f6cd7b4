/** The IPv4 table of rs/l3fwd/src/lpm.rs: DIR-24-8 with bit-packed entries. */
module Lpm4 {
  import opened Bits
  import opened Counting
  import opened Options
  import opened Routes

  const VALID: u32 := 0x8000_0000
  const EXT: u32 := 0x4000_0000
  const BLOCKS := 0x100_0000
  const MAX_GROUPS := 0x1_0000

  // ----- packed entries -----

  predicate IsValid(e: u32) { And(e, VALID) != 0 }

  predicate IsExt(e: u32) { And(e, EXT) != 0 }

  function EntryDepth(e: u32): nat { And(Shr(e, 24), 0x3f) }

  function Low16(e: u32): u16 {
    Split(e, 16);
    AndLowMask(e, 16);
    And(e, 0xffff)
  }

  lemma ValidFlag(e: u32)
    ensures IsValid(e) <==> e / 0x8000_0000 == 1
  {
    Split(e, 31);
    AndSingle(e, 31);
  }

  lemma ExtFlag(e: u32)
    ensures IsExt(e) <==> e / 0x4000_0000 % 2 == 1
  {
    Split(e, 30);
    AndSingle(e, 30);
  }

  lemma Flags(e: u32)
    ensures IsValid(e) <==> e / 0x8000_0000 == 1
    ensures IsExt(e) <==> e / 0x4000_0000 % 2 == 1
  {
    ValidFlag(e);
    ExtFlag(e);
  }

  lemma Fields(e: u32)
    ensures EntryDepth(e) == e / 0x100_0000 % 64
    ensures Low16(e) == e % 0x1_0000
  {
    Split(e, 24);
    Split(e / 0x100_0000, 6);
    AndLowMask(e / 0x100_0000, 6);
    Split(e, 16);
    AndLowMask(e, 16);
  }

  lemma EntryValue(depth: nat, nh: u16)
    requires depth <= 32
    ensures Or(Or(VALID, Shl(depth, 24)), nh) == 0x8000_0000 + depth * 0x100_0000 + nh
  {
    var hi := 0x8000 + depth * 0x100;
    EntryHigh(depth);
    Split(hi, 16);
    OrDisjoint(hi, nh, 16);
  }

  lemma EntryHigh(depth: nat)
    requires depth <= 32
    ensures Or(VALID, Shl(depth, 24)) == Shl(0x8000 + depth * 0x100, 16)
  {
    OrDepth(1, depth);
    Split(0x8000 + depth * 0x100, 16);
  }

  lemma OrDepth(flag: nat, depth: nat)
    requires depth <= 32
    ensures Or(flag * 0x8000_0000, Shl(depth, 24)) == flag * 0x8000_0000 + depth * 0x100_0000
  {
    Split(depth, 24);
    Split(flag, 31);
    OrDisjoint(flag, Shl(depth, 24), 31);
  }

  /** What is packed can be read back: the flags, the depth and the next hop. */
  function Entry(depth: nat, nh: u16): (e: u32)
    requires depth <= 32
    ensures IsValid(e) && !IsExt(e) && EntryDepth(e) == depth && Low16(e) == nh
  {
    EntryValue(depth, nh);
    EntryFields(depth, nh);
    Or(Or(VALID, Shl(depth, 24)), nh)
  }

  lemma EntryFields(depth: nat, nh: u16)
    requires depth <= 32
    ensures var e := 0x8000_0000 + depth * 0x100_0000 + nh;
      IsValid(e) && !IsExt(e) && EntryDepth(e) == depth && Low16(e) == nh
  {
    var e := 0x8000_0000 + depth * 0x100_0000 + nh;
    assert e / 0x100_0000 == 0x80 + depth;
    Flags(e);
    Fields(e);
  }

  /** The entry of a block that has its own group.  Only the low 16 bits of the number survive. */
  function GroupEntry(group: nat): (e: u32)
    requires group < BLOCKS
    ensures IsValid(e) && IsExt(e) && Low16(e) == group % 0x1_0000
  {
    GroupEntryValue(group);
    GroupEntryFields(group);
    Or(Or(VALID, EXT), group)
  }

  lemma GroupEntryValue(group: nat)
    requires group < BLOCKS
    ensures Or(Or(VALID, EXT), group) == 0xc000_0000 + group
  {
    Split(1, 31);
    Split(3, 30);
    OrDisjoint(1, EXT, 31);
    OrDisjoint(3, group, 30);
  }

  lemma GroupEntryFields(group: nat)
    requires group < BLOCKS
    ensures var e := 0xc000_0000 + group;
      IsValid(e) && IsExt(e) && Low16(e) == group % 0x1_0000
  {
    Flags(0xc000_0000 + group);
    Fields(0xc000_0000 + group);
  }

  // ----- the table as a value, and what the operations make of it -----

  datatype Table = Table(tbl24: seq<u32>, tbl8: seq<u32>)

  ghost function Empty(): Table {
    Table(seq(BLOCKS, _ => 0), [])
  }

  /** The blocks that have been given a group of 256 entries. */
  ghost function Extended(t: Table): set<nat>
    requires |t.tbl24| == BLOCKS
  {
    set b: nat | b < BLOCKS && IsExt(t.tbl24[b])
  }

  ghost predicate Shape(t: Table) {
    && |t.tbl24| == BLOCKS
    && |t.tbl8| == 256 * |Extended(t)|
    && forall b :: b in Extended(t) ==> IsValid(t.tbl24[b]) && Low16(t.tbl24[b]) < |Extended(t)|
  }

  /** A route of this depth takes over an entry that is empty or no deeper. */
  ghost function Paint(e: u32, depth: nat, nh: u16): u32
    requires depth <= 32
  {
    if !IsValid(e) || EntryDepth(e) <= depth then Entry(depth, nh) else e
  }

  ghost predicate InGroupOf(tbl24: seq<u32>, lo: nat, hi: nat, j: nat)
    requires lo <= hi <= |tbl24|
  {
    exists b :: lo <= b < hi && IsExt(tbl24[b]) && Low16(tbl24[b]) == j / 256
  }

  /** Blocks lo..hi, and the groups that belong to them, are painted. */
  ghost function PaintBlocks(t: Table, lo: nat, hi: nat, depth: nat, nh: u16): Table
    requires lo <= hi <= |t.tbl24| == BLOCKS && depth <= 32
  {
    Table(seq(BLOCKS, b requires 0 <= b < BLOCKS =>
            if lo <= b < hi && !IsExt(t.tbl24[b]) then Paint(t.tbl24[b], depth, nh) else t.tbl24[b]),
          seq(|t.tbl8|, j requires 0 <= j < |t.tbl8| =>
            if InGroupOf(t.tbl24, lo, hi, j) then Paint(t.tbl8[j], depth, nh) else t.tbl8[j]))
  }

  /** The entries lo..hi of the second level are painted. */
  ghost function PaintEntries(tbl8: seq<u32>, lo: nat, hi: nat, depth: nat, nh: u16): seq<u32>
    requires depth <= 32
  {
    seq(|tbl8|, j requires 0 <= j < |tbl8| =>
      if lo <= j < hi then Paint(tbl8[j], depth, nh) else tbl8[j])
  }

  /** Painting a range of the group of one block. */
  ghost function PaintGroup(u: Table, slot: nat, lo: nat, count: nat, depth: nat, nh: u16): Table
    requires slot < |u.tbl24| && depth <= 32
  {
    var start := Low16(u.tbl24[slot]) * 256 + lo;
    Table(u.tbl24, PaintEntries(u.tbl8, start, start + count, depth, nh))
  }

  /** A block without a group gets the next one, filled with the block's own entry. */
  ghost function Extend(t: Table, b: nat): Table
    requires Shape(t) && b < BLOCKS
  {
    if IsExt(t.tbl24[b]) then t
    else
      AnotherBlock(t, b);
      Table(t.tbl24[b := GroupEntry(|t.tbl8| / 256)], t.tbl8 + seq(256, _ => t.tbl24[b]))
  }

  /** A deep prefix paints `count` entries of its block's group, from the last byte of the network. */
  ghost function AddDeep(t: Table, masked: nat, count: nat, depth: nat, nh: u16): Table
    requires Shape(t) && masked / 256 < BLOCKS && depth <= 32
  {
    PaintGroup(Extend(t, masked / 256), masked / 256, masked % 256, count, depth, nh)
  }

  ghost function AddRoute(t: Table, r: Ipv4Route): Table
    requires Shape(t)
  {
    var masked := Masked(r.net, r.depth);
    if r.depth <= 24 then
      ShallowFits(r.net, r.depth);
      PaintBlocks(t, masked / 256, masked / 256 + Pow2(24 - r.depth), r.depth, r.nh)
    else
      DeepStart(r.net, r.depth);
      AddDeep(t, masked, Pow2(32 - r.depth), r.depth, r.nh)
  }

  lemma AddCases(t: Table, r: Ipv4Route)
    requires Shape(t)
    ensures var masked := Masked(r.net, r.depth);
      if r.depth <= 24 then
        masked / 256 + Pow2(24 - r.depth) <= BLOCKS &&
        AddRoute(t, r) == PaintBlocks(t, masked / 256, masked / 256 + Pow2(24 - r.depth), r.depth, r.nh)
      else
        masked / 256 < BLOCKS && AddRoute(t, r) == AddDeep(t, masked, Pow2(32 - r.depth), r.depth, r.nh)
  {
    if r.depth <= 24 { ShallowFits(r.net, r.depth); } else { DeepStart(r.net, r.depth); }
  }

  lemma AnotherBlock(t: Table, b: nat)
    requires |t.tbl24| == BLOCKS && b < BLOCKS && !IsExt(t.tbl24[b])
    ensures |Extended(t)| < BLOCKS
  {
    SetBelow(Extended(t) + {b}, BLOCKS);
  }

  lemma ExtendAddsBlock(t: Table, b: nat)
    requires Shape(t) && b < BLOCKS
    ensures Extended(Extend(t, b)) == Extended(t) + {b}
  {
    if !IsExt(t.tbl24[b]) {
      AnotherBlock(t, b);
      assert b in Extended(Extend(t, b));
    } else {
      assert b in Extended(t);
    }
  }

  lemma NextGroup(t: Table, b: nat)
    requires Shape(t) && b < BLOCKS && !IsExt(t.tbl24[b])
    ensures var e := Extend(t, b).tbl24[b]; IsValid(e) && Low16(e) <= |Extended(t)|
  {
    AnotherBlock(t, b);
    assert |t.tbl8| / 256 == |Extended(t)|;
  }

  lemma ExtendKeepsShape(t: Table, b: nat)
    requires Shape(t) && b < BLOCKS
    ensures Extended(Extend(t, b)) == Extended(t) + {b}
    ensures Shape(Extend(t, b))
  {
    ExtendAddsBlock(t, b);
    if !IsExt(t.tbl24[b]) {
      AnotherBlock(t, b);
      var u := Extend(t, b);
      assert |Extended(u)| == |Extended(t)| + 1;
      NextGroup(t, b);
      forall a | a in Extended(u) ensures IsValid(u.tbl24[a]) && Low16(u.tbl24[a]) < |Extended(u)| {
        if a != b { assert a in Extended(t) && u.tbl24[a] == t.tbl24[a]; }
      }
    } else {
      assert Extended(t) + {b} == Extended(t);
    }
  }

  lemma AddKeepsShape(t: Table, r: Ipv4Route)
    requires Shape(t)
    ensures Shape(AddRoute(t, r))
    ensures Extended(AddRoute(t, r)) ==
      if r.depth <= 24 then Extended(t) else Extended(t) + {r.net / 256}
  {
    var u := AddRoute(t, r);
    if r.depth <= 24 {
      assert Extended(u) == Extended(t);
    } else {
      DeepStart(r.net, r.depth);
      ExtendKeepsShape(t, r.net / 256);
      assert Extended(u) == Extended(Extend(t, r.net / 256));
    }
  }

  /** The entry that decides about an address, in whichever level it is. */
  ghost function Cell(t: Table, ip: u32): u32
    requires Shape(t)
  {
    var e := t.tbl24[ip / 256];
    if IsExt(e) then
      assert ip / 256 in Extended(t);
      t.tbl8[Low16(e) * 256 + ip % 256]
    else e
  }

  /** No two blocks share a group. */
  ghost predicate Exclusive(t: Table)
    requires |t.tbl24| == BLOCKS
  {
    forall a, b :: a in Extended(t) && b in Extended(t) && Low16(t.tbl24[a]) == Low16(t.tbl24[b]) ==> a == b
  }

  /** No other block shares the group of block b, if it has one. */
  ghost predicate Alone(t: Table, b: nat)
    requires |t.tbl24| == BLOCKS
  {
    forall c :: c in Extended(t) && b in Extended(t) && Low16(t.tbl24[c]) == Low16(t.tbl24[b]) ==> c == b
  }

  /** There is room for the group that the route may need. */
  ghost predicate Fits(t: Table, r: Ipv4Route)
    requires Shape(t)
  {
    r.depth <= 24 || r.net / 256 in Extended(t) || |t.tbl8| / 256 < MAX_GROUPS
  }

  /** Adding a route repaints exactly the addresses it covers. */
  lemma AddCell(t: Table, r: Ipv4Route, ip: u32)
    requires Shape(t) && Exclusive(t) && |t.tbl8| / 256 <= MAX_GROUPS && Fits(t, r)
    ensures Shape(AddRoute(t, r))
    ensures Cell(AddRoute(t, r), ip) == if Covers(r, ip) then Paint(Cell(t, ip), r.depth, r.nh) else Cell(t, ip)
  {
    AddExclusive(t, r);
    AddCellAlone(t, r, ip);
  }

  /** The same beyond the limit, for the blocks that still share their group with no other. */
  lemma AddCellAlone(t: Table, r: Ipv4Route, ip: u32)
    requires Shape(t) && Shape(AddRoute(t, r)) && Alone(AddRoute(t, r), ip / 256)
    requires Fits(t, r) || ip / 256 != r.net / 256
    ensures Cell(AddRoute(t, r), ip) == if Covers(r, ip) then Paint(Cell(t, ip), r.depth, r.nh) else Cell(t, ip)
  {
    if r.depth <= 24 {
      AloneBefore(t, r, ip / 256);
      AddCellShallow(t, r, ip);
    } else {
      AddCellDeep(t, r, ip);
    }
  }

  /** Blocks keep their groups. */
  lemma AddKeepsGroups(t: Table, r: Ipv4Route, b: nat)
    requires Shape(t) && b in Extended(t)
    ensures |AddRoute(t, r).tbl24| == BLOCKS && b in Extended(AddRoute(t, r))
    ensures AddRoute(t, r).tbl24[b] == t.tbl24[b]
  {
    AddKeepsShape(t, r);
    if r.depth > 24 {
      DeepIsPaint(t, r);
      ExtendKeepsGroup(t, r.net / 256, b);
    }
  }

  lemma ExtendKeepsGroup(t: Table, slot: nat, b: nat)
    requires Shape(t) && slot < BLOCKS && b in Extended(t)
    ensures b < |Extend(t, slot).tbl24| && Extend(t, slot).tbl24[b] == t.tbl24[b]
  {
    if !IsExt(t.tbl24[slot]) { AnotherBlock(t, slot); }
  }

  lemma AloneBefore(t: Table, r: Ipv4Route, b: nat)
    requires Shape(t) && |AddRoute(t, r).tbl24| == BLOCKS && Alone(AddRoute(t, r), b)
    ensures Alone(t, b)
  {
    forall c | c in Extended(t) && b in Extended(t) && Low16(t.tbl24[c]) == Low16(t.tbl24[b]) ensures c == b {
      AddKeepsGroups(t, r, b);
      AddKeepsGroups(t, r, c);
    }
  }

  lemma AddExclusive(t: Table, r: Ipv4Route)
    requires Shape(t) && Exclusive(t) && Fits(t, r)
    ensures Shape(AddRoute(t, r)) && Exclusive(AddRoute(t, r))
  {
    AddKeepsShape(t, r);
    if r.depth > 24 {
      DeepIsPaint(t, r);
      ExtendKeepsShape(t, r.net / 256);
      ExtendExclusive(t, r.net / 256);
    }
  }

  lemma AddCellShallow(t: Table, r: Ipv4Route, ip: u32)
    requires Shape(t) && Alone(t, ip / 256) && r.depth <= 24
    requires Shape(AddRoute(t, r))
    ensures Cell(AddRoute(t, r), ip) == if Covers(r, ip) then Paint(Cell(t, ip), r.depth, r.nh) else Cell(t, ip)
  {
    ShallowRange(r, ip);
    AddCases(t, r);
    var first := Masked(r.net, r.depth) / 256;
    PaintBlocksCell(t, first, first + Pow2(24 - r.depth), r.depth, r.nh, ip);
  }

  lemma PaintBlocksCell(t: Table, lo: nat, hi: nat, depth: nat, nh: u16, ip: u32)
    requires Shape(t) && Alone(t, ip / 256) && lo <= hi <= BLOCKS && depth <= 32
    requires Shape(PaintBlocks(t, lo, hi, depth, nh))
    ensures Cell(PaintBlocks(t, lo, hi, depth, nh), ip) ==
      if lo <= ip / 256 < hi then Paint(Cell(t, ip), depth, nh) else Cell(t, ip)
  {
    var e := t.tbl24[ip / 256];
    if IsExt(e) {
      assert ip / 256 in Extended(t);
      OwnGroup(t, lo, hi, ip / 256, Low16(e) * 256 + ip % 256);
    }
  }

  lemma OwnGroup(t: Table, lo: nat, hi: nat, block: nat, j: nat)
    requires Shape(t) && block in Extended(t) && Alone(t, block) && lo <= hi <= BLOCKS
    requires j / 256 == Low16(t.tbl24[block])
    ensures InGroupOf(t.tbl24, lo, hi, j) <==> lo <= block < hi
  {
    assert forall b: nat :: b < BLOCKS && IsExt(t.tbl24[b]) ==> b in Extended(t);
  }

  lemma AddCellDeep(t: Table, r: Ipv4Route, ip: u32)
    requires Shape(t) && r.depth > 24 && (Fits(t, r) || ip / 256 != r.net / 256)
    requires Shape(AddRoute(t, r)) && Alone(AddRoute(t, r), ip / 256)
    ensures Cell(AddRoute(t, r), ip) == if Covers(r, ip) then Paint(Cell(t, ip), r.depth, r.nh) else Cell(t, ip)
  {
    DeepRange(r, ip);
    DeepIsPaint(t, r);
    var slot := r.net / 256;
    ExtendKeepsShape(t, slot);
    ExtendCell(t, slot, ip);
    PaintCell(Extend(t, slot), slot, Masked(r.net, r.depth) % 256, Pow2(32 - r.depth), r, ip);
  }

  lemma DeepIsPaint(t: Table, r: Ipv4Route)
    requires Shape(t) && r.depth > 24
    ensures AddRoute(t, r) ==
      PaintGroup(Extend(t, r.net / 256), r.net / 256, Masked(r.net, r.depth) % 256, Pow2(32 - r.depth), r.depth, r.nh)
  {
    DeepStart(r.net, r.depth);
  }

  lemma PaintCell(u: Table, slot: nat, lo: nat, count: nat, r: Ipv4Route, ip: u32)
    requires Shape(u) && Alone(u, ip / 256) && slot in Extended(u) && lo + count <= 256
    ensures var v := PaintGroup(u, slot, lo, count, r.depth, r.nh);
      && Shape(v)
      && Cell(v, ip) ==
         if ip / 256 == slot && lo <= ip % 256 < lo + count then Paint(Cell(u, ip), r.depth, r.nh) else Cell(u, ip)
  {
    var v, block := PaintGroup(u, slot, lo, count, r.depth, r.nh), ip / 256;
    assert Extended(v) == Extended(u);
    if IsExt(u.tbl24[block]) && block != slot {
      assert block in Extended(u);
      assert Low16(u.tbl24[block]) != Low16(u.tbl24[slot]);
    }
  }

  /** Giving a block its own group changes no answer, even with a number beyond the limit but for that block ... */
  lemma ExtendCell(t: Table, b: nat, ip: u32)
    requires Shape(t) && b < BLOCKS
    requires IsExt(t.tbl24[b]) || |t.tbl8| / 256 < MAX_GROUPS || ip / 256 != b
    ensures Shape(Extend(t, b)) && Cell(Extend(t, b), ip) == Cell(t, ip)
  {
    ExtendKeepsShape(t, b);
    if !IsExt(t.tbl24[b]) {
      if ip / 256 == b { OwnCell(t, ip); } else { OtherCell(t, b, ip); }
    }
  }

  /** The new group is filled with what the block held ... */
  lemma OwnCell(t: Table, ip: u32)
    requires Shape(t) && !IsExt(t.tbl24[ip / 256]) && |t.tbl8| / 256 < MAX_GROUPS
    requires Shape(Extend(t, ip / 256))
    ensures Cell(Extend(t, ip / 256), ip) == Cell(t, ip)
  {
    AnotherBlock(t, ip / 256);
    NewGroup(t, ip / 256);
    assert ip / 256 in Extended(Extend(t, ip / 256));
  }

  /** ... and lies behind all others. */
  lemma OtherCell(t: Table, b: nat, ip: u32)
    requires Shape(t) && b < BLOCKS && !IsExt(t.tbl24[b]) && ip / 256 != b && Shape(Extend(t, b))
    ensures Cell(Extend(t, b), ip) == Cell(t, ip)
  {
    AnotherBlock(t, b);
    if IsExt(t.tbl24[ip / 256]) { assert ip / 256 in Extended(t); }
  }

  /** ... and keeps the groups apart. */
  lemma ExtendExclusive(t: Table, b: nat)
    requires Shape(t) && Exclusive(t) && b < BLOCKS
    requires IsExt(t.tbl24[b]) || |t.tbl8| / 256 < MAX_GROUPS
    ensures Exclusive(Extend(t, b))
  {
    if !IsExt(t.tbl24[b]) {
      ExtendedGroups(t, b);
      assert forall a :: a in Extended(t) ==> Low16(t.tbl24[a]) < |Extended(t)|;
    }
  }

  lemma NewGroup(t: Table, b: nat)
    requires Shape(t) && b < BLOCKS && !IsExt(t.tbl24[b]) && |t.tbl8| / 256 < MAX_GROUPS
    ensures Low16(Extend(t, b).tbl24[b]) == |Extended(t)|
  {
    AnotherBlock(t, b);
    assert |t.tbl8| / 256 == |Extended(t)|;
  }

  /** The new group is numbered after all others, which stay where they are. */
  lemma ExtendedGroups(t: Table, b: nat)
    requires Shape(t) && b < BLOCKS && !IsExt(t.tbl24[b]) && |t.tbl8| / 256 < MAX_GROUPS
    ensures var u := Extend(t, b);
      && Low16(u.tbl24[b]) == |Extended(t)| && |u.tbl24| == BLOCKS
      && Extended(u) == Extended(t) + {b}
      && forall a :: a in Extended(t) ==> u.tbl24[a] == t.tbl24[a]
  {
    AnotherBlock(t, b);
    ExtendAddsBlock(t, b);
    NewGroup(t, b);
  }

  // ----- the invariant of every run, and the main theorem -----

  ghost function Build(routes: seq<Ipv4Route>): (t: Table)
    ensures Shape(t)
  {
    if routes == [] then
      EmptyShape();
      Empty()
    else
      var n := |routes| - 1;
      AddKeepsShape(Build(routes[..n]), routes[n]);
      AddRoute(Build(routes[..n]), routes[n])
  }

  lemma EmptyShape()
    ensures Shape(Empty()) && Extended(Empty()) == {}
  {
    Flags(0);
    assert Extended(Empty()) == {};
  }

  /** The /24 blocks for which some route is deeper than 24. */
  ghost function DeepBlocks(routes: seq<Ipv4Route>): set<nat> {
    if routes == [] then {}
    else
      var n := |routes| - 1;
      DeepBlocks(routes[..n]) + (if routes[n].depth > 24 then {routes[n].net / 256} else {})
  }

  ghost function CellOf(best: Option<Ipv4Route>): u32 {
    if best.None? then 0 else Entry(best.value.depth, best.value.nh)
  }

  /** Each group belongs to exactly one block. */
  ghost predicate Owned(t: Table)
    requires Shape(t)
  {
    Exclusive(t) && forall g: nat :: g < |t.tbl8| / 256 ==> HasOwner(t, g)
  }

  ghost predicate HasOwner(t: Table, g: nat)
    requires Shape(t)
  {
    exists b :: b in Extended(t) && Low16(t.tbl24[b]) == g
  }

  lemma ExtendOwned(t: Table, b: nat)
    requires Shape(t) && Owned(t) && b < BLOCKS
    requires IsExt(t.tbl24[b]) || |t.tbl8| / 256 < MAX_GROUPS
    ensures Shape(Extend(t, b)) && Owned(Extend(t, b))
  {
    ExtendKeepsShape(t, b);
    ExtendExclusive(t, b);
    if !IsExt(t.tbl24[b]) {
      var u := Extend(t, b);
      ExtendedGroups(t, b);
      forall g: nat | g < |u.tbl8| / 256 ensures HasOwner(u, g) {
        if g < |t.tbl8| / 256 {
          assert HasOwner(t, g);
          var a :| a in Extended(t) && Low16(t.tbl24[a]) == g;
          assert a in Extended(u);
        } else {
          assert b in Extended(u);
        }
      }
    }
  }

  lemma SameOwners(t: Table, u: Table)
    requires Shape(t) && Shape(u) && Owned(t) && |u.tbl8| == |t.tbl8| && Extended(u) == Extended(t)
    requires forall b :: b in Extended(t) ==> u.tbl24[b] == t.tbl24[b]
    ensures Owned(u)
  {
    forall g: nat | g < |u.tbl8| / 256 ensures HasOwner(u, g) {
      assert HasOwner(t, g);
    }
  }

  lemma AddOwned(t: Table, r: Ipv4Route)
    requires Shape(t) && Owned(t) && Fits(t, r)
    ensures Shape(AddRoute(t, r)) && Owned(AddRoute(t, r))
  {
    AddKeepsShape(t, r);
    if r.depth <= 24 {
      SameOwners(t, AddRoute(t, r));
    } else {
      DeepStart(r.net, r.depth);
      ExtendKeepsShape(t, r.net / 256);
      ExtendOwned(t, r.net / 256);
      SameOwners(Extend(t, r.net / 256), AddRoute(t, r));
    }
  }

  ghost predicate Represents(t: Table, routes: seq<Ipv4Route>)
    requires Shape(t)
  {
    forall ip: u32 :: Cell(t, ip) == CellOf(Best(routes, ip))
  }

  lemma FitsNext(t: Table, init: seq<Ipv4Route>, r: Ipv4Route)
    requires Shape(t) && Extended(t) == DeepBlocks(init)
    requires |DeepBlocks(init + [r])| <= MAX_GROUPS
    ensures |t.tbl8| / 256 <= MAX_GROUPS && Fits(t, r)
  {
    assert (init + [r])[..|init|] == init;
    SubsetSize(DeepBlocks(init), DeepBlocks(init + [r]));
  }

  /** The group numbers that can be read back all have owners. */
  ghost predicate Numbered(t: Table)
    requires Shape(t)
  {
    forall g: nat :: g < |t.tbl8| / 256 && g < MAX_GROUPS ==> HasOwner(t, g)
  }

  lemma AddNumbered(t: Table, r: Ipv4Route)
    requires Shape(t) && Numbered(t)
    ensures Shape(AddRoute(t, r)) && Numbered(AddRoute(t, r))
  {
    var u := AddRoute(t, r);
    AddKeepsShape(t, r);
    forall g: nat | g < |u.tbl8| / 256 && g < MAX_GROUPS ensures HasOwner(u, g) {
      if g < |t.tbl8| / 256 {
        assert HasOwner(t, g);
        var b :| b in Extended(t) && Low16(t.tbl24[b]) == g;
        AddKeepsGroups(t, r, b);
      } else {
        NewOwner(t, r, g);
      }
    }
  }

  lemma NewOwner(t: Table, r: Ipv4Route, g: nat)
    requires Shape(t) && Shape(AddRoute(t, r)) && |t.tbl8| / 256 <= g < |AddRoute(t, r).tbl8| / 256 && g < MAX_GROUPS
    ensures HasOwner(AddRoute(t, r), g)
  {
    var u, slot := AddRoute(t, r), r.net / 256;
    AddKeepsShape(t, r);
    DeepIsPaint(t, r);
    assert slot in Extended(u) && slot !in Extended(t);
    NewGroup(t, slot);
    assert Low16(u.tbl24[slot]) == |Extended(t)|;
  }

  /** A block that is given a number beyond the limit shares it from the start. */
  lemma AloneFits(t: Table, r: Ipv4Route)
    requires Shape(t) && Numbered(t) && Shape(AddRoute(t, r)) && Alone(AddRoute(t, r), r.net / 256)
    ensures Fits(t, r)
  {
    if !Fits(t, r) {
      var u, slot := AddRoute(t, r), r.net / 256;
      AddKeepsShape(t, r);
      DeepIsPaint(t, r);
      LateGroup(t, slot);
      var g := Low16(u.tbl24[slot]);
      assert HasOwner(t, g);
      var c :| c in Extended(t) && Low16(t.tbl24[c]) == g;
      AddKeepsGroups(t, r, c);
    }
  }

  lemma LateGroup(t: Table, b: nat)
    requires Shape(t) && b < BLOCKS && b !in Extended(t) && |t.tbl8| / 256 >= MAX_GROUPS
    ensures b < |Extend(t, b).tbl24| && Low16(Extend(t, b).tbl24[b]) < |t.tbl8| / 256
  {
    AnotherBlock(t, b);
  }

  lemma EmptyIsRight()
    ensures Numbered(Empty()) && Exclusive(Empty()) && forall ip: u32 :: Cell(Empty(), ip) == 0
  {
    EmptyShape();
    Flags(0);
  }

  lemma {:induction false} BuildNumbered(routes: seq<Ipv4Route>)
    ensures Numbered(Build(routes))
  {
    if routes == [] {
      EmptyIsRight();
    } else {
      BuildNumbered(routes[..|routes| - 1]);
      AddNumbered(Build(routes[..|routes| - 1]), routes[|routes| - 1]);
    }
  }

  /** In every reachable state, also beyond the limit, the cells of a block that shares with none are right. */
  lemma {:induction false} AloneIsRight(routes: seq<Ipv4Route>, ip: u32)
    requires Alone(Build(routes), ip / 256)
    ensures Cell(Build(routes), ip) == CellOf(Best(routes, ip))
  {
    if routes == [] {
      EmptyIsRight();
    } else {
      var n := |routes| - 1;
      var init, r := routes[..n], routes[n];
      assert routes == init + [r];
      AloneBefore(Build(init), r, ip / 256);
      AloneIsRight(init, ip);
      BuildNumbered(init);
      if ip / 256 == r.net / 256 { AloneFits(Build(init), r); }
      AddCellAlone(Build(init), r, ip);
      PaintIsBest(init, r, ip);
    }
  }

  /** In every reachable state within the limit each group has one owner and each cell holds its best route. */
  lemma {:induction false} BuildIsRight(routes: seq<Ipv4Route>)
    requires |DeepBlocks(routes)| <= MAX_GROUPS
    ensures Extended(Build(routes)) == DeepBlocks(routes)
    ensures Owned(Build(routes)) && Represents(Build(routes), routes)
  {
    BuildOwned(routes);
    forall ip: u32 ensures Cell(Build(routes), ip) == CellOf(Best(routes, ip)) {
      AloneIsRight(routes, ip);
    }
  }

  lemma {:induction false} BuildOwned(routes: seq<Ipv4Route>)
    requires |DeepBlocks(routes)| <= MAX_GROUPS
    ensures Extended(Build(routes)) == DeepBlocks(routes) && Owned(Build(routes))
  {
    if routes == [] {
      EmptyShape();
    } else {
      var n := |routes| - 1;
      var init, r := routes[..n], routes[n];
      assert routes == init + [r];
      SubsetSize(DeepBlocks(init), DeepBlocks(routes));
      BuildOwned(init);
      FitsNext(Build(init), init, r);
      AddKeepsShape(Build(init), r);
      AddOwned(Build(init), r);
    }
  }

  lemma PaintIsBest(init: seq<Ipv4Route>, r: Ipv4Route, ip: u32)
    ensures var routes := init + [r]; var cell := CellOf(Best(init, ip));
      CellOf(Best(routes, ip)) == if Covers(r, ip) then Paint(cell, r.depth, r.nh) else cell
  {
    Flags(0);
    assert (init + [r])[..|init|] == init;
  }

  ghost function LookupIn(t: Table, ip: u32): Option<u16>
    requires Shape(t)
  {
    var e := t.tbl24[ip / 256];
    if !IsValid(e) then None
    else if IsExt(e) then
      assert ip / 256 in Extended(t);
      var e8 := t.tbl8[Low16(e) * 256 + ip % 256];
      if !IsValid(e8) then None else Some(Low16(e8))
    else Some(Low16(e))
  }

  /**
   After any sequence of adds, deep prefixes in at most 65536 blocks, every address gets the
   next hop of its longest match, and None exactly when no route covers it.
   */
  lemma LookupIsLongestMatch(routes: seq<Ipv4Route>, ip: u32)
    requires |DeepBlocks(routes)| <= MAX_GROUPS
    ensures LookupIn(Build(routes), ip) == NextHop(routes, ip)
    ensures Answers(routes, ip, LookupIn(Build(routes), ip))
  {
    BuildIsRight(routes);
    NextHopAnswers(routes, ip);
    CellAnswers(Build(routes), ip);
    Flags(0);
    assert Cell(Build(routes), ip) == CellOf(Best(routes, ip));
  }

  lemma LookupIsExact(routes: seq<Ipv4Route>, ip: u32)
    ensures |DeepBlocks(routes)| <= MAX_GROUPS ==>
      LookupIn(Build(routes), ip) == NextHop(routes, ip) && Answers(routes, ip, LookupIn(Build(routes), ip))
  {
    if |DeepBlocks(routes)| <= MAX_GROUPS { LookupIsLongestMatch(routes, ip); }
  }

  lemma CellAnswers(t: Table, ip: u32)
    requires Shape(t)
    ensures LookupIn(t, ip) == if IsValid(Cell(t, ip)) then Some(Low16(Cell(t, ip))) else None
  {
    if IsExt(t.tbl24[ip / 256]) { assert ip / 256 in Extended(t); }
  }

  // ----- the order of the adds -----

  ghost predicate DistinctPrefixes(routes: seq<Ipv4Route>) {
    forall i, j :: 0 <= i < j < |routes| ==>
      routes[i].depth != routes[j].depth
      || Masked(routes[i].net, routes[i].depth) != Masked(routes[j].net, routes[j].depth)
  }

  /** With pairwise different prefixes the reference depends on the set of routes alone. */
  lemma BestIsUnordered(a: seq<Ipv4Route>, b: seq<Ipv4Route>, ip: u32)
    requires multiset(a) == multiset(b) && DistinctPrefixes(a)
    ensures Best(a, ip) == Best(b, ip)
  {
    BestIsLongestMatch(a, ip);
    BestIsLongestMatch(b, ip);
    assert forall r :: r in a <==> r in multiset(a);
    assert forall r :: r in b <==> r in multiset(b);
    if Best(a, ip).Some? {
      var i: nat :| IsLongestMatch(a, ip, i) && Best(a, ip).value == a[i];
      assert a[i] in b;
      var j: nat :| IsLongestMatch(b, ip, j) && Best(b, ip).value == b[j];
      var i' :| 0 <= i' < |a| && a[i'] == b[j];
      var j' :| 0 <= j' < |b| && b[j'] == a[i];
      CoversIsMasked(a[i], ip);
      CoversIsMasked(a[i'], ip);
      assert Covers(a[i'], ip) && Covers(b[j'], ip);
      assert i == i';
    }
  }

  lemma {:induction false} DeepBlocksAreUnordered(routes: seq<Ipv4Route>)
    ensures DeepBlocks(routes) == set r | r in multiset(routes) && r.depth > 24 :: (r.net / 256) as nat
  {
    if routes != [] {
      var n := |routes| - 1;
      DeepBlocksAreUnordered(routes[..n]);
      assert routes == routes[..n] + [routes[n]];
    }
  }

  /** Every insertion order of the same routes gives the same answers on all addresses. */
  lemma OrderIsIrrelevant(a: seq<Ipv4Route>, b: seq<Ipv4Route>, ip: u32)
    requires multiset(a) == multiset(b) && DistinctPrefixes(a)
    requires |DeepBlocks(a)| <= MAX_GROUPS
    ensures LookupIn(Build(a), ip) == LookupIn(Build(b), ip)
  {
    DeepBlocksAreUnordered(a);
    DeepBlocksAreUnordered(b);
    LookupIsLongestMatch(a, ip);
    LookupIsLongestMatch(b, ip);
    BestIsUnordered(a, b, ip);
  }

  // ----- the limit of 65536 groups -----

  /** All entries carry the depth of some route, or none. */
  ghost predicate DepthsFit(t: Table) {
    && (forall b :: 0 <= b < |t.tbl24| && !IsExt(t.tbl24[b]) ==> EntryDepth(t.tbl24[b]) <= 32)
    && (forall j :: 0 <= j < |t.tbl8| ==> EntryDepth(t.tbl8[j]) <= 32)
  }

  lemma ExtendDepthsFit(t: Table, b: nat)
    requires Shape(t) && DepthsFit(t) && b < BLOCKS
    ensures DepthsFit(Extend(t, b))
  {
    if !IsExt(t.tbl24[b]) { AnotherBlock(t, b); }
  }

  lemma AddDepthsFit(t: Table, r: Ipv4Route)
    requires Shape(t) && DepthsFit(t)
    ensures DepthsFit(AddRoute(t, r))
  {
    if r.depth > 24 {
      DeepStart(r.net, r.depth);
      ExtendDepthsFit(t, r.net / 256);
    }
  }

  lemma EmptyDepthsFit()
    ensures DepthsFit(Empty())
  {
    ZeroDepth();
  }

  lemma ZeroDepth()
    ensures EntryDepth(0) == 0
  {
    ZeroHasNoBits(24);
  }

  /** In every reachable state, however many groups it uses ... */
  lemma {:induction false} BuildDepthsFit(routes: seq<Ipv4Route>)
    ensures DepthsFit(Build(routes))
  {
    if routes == [] {
      EmptyDepthsFit();
    } else {
      var n := |routes| - 1;
      BuildDepthsFit(routes[..n]);
      AddDepthsFit(Build(routes[..n]), routes[n]);
    }
  }

  /** ... the blocks with groups are those with deep routes. */
  lemma {:induction false} BuildExtends(routes: seq<Ipv4Route>)
    ensures Extended(Build(routes)) == DeepBlocks(routes)
  {
    if routes == [] {
      EmptyShape();
    } else {
      var n := |routes| - 1;
      BuildExtends(routes[..n]);
      AddKeepsShape(Build(routes[..n]), routes[n]);
    }
  }

  lemma BuildNext(routes: seq<Ipv4Route>, r: Ipv4Route)
    ensures Build(routes + [r]) == AddRoute(Build(routes), r)
  {
    assert (routes + [r])[..|routes|] == routes;
  }

  lemma HostMask(b: nat)
    requires b < BLOCKS
    ensures Masked(256 * b, 32) == 256 * b && Masked(256 * b, 32) % 256 == 0
  {
    MaskedValue(256 * b, 32);
  }

  lemma HostRoute(t: Table, b: nat, nh: u16)
    requires Shape(t) && b < BLOCKS
    ensures Shape(Extend(t, b)) && AddRoute(t, Route(256 * b, 32, nh)) == PaintGroup(Extend(t, b), b, 0, 1, 32, nh)
  {
    HostMask(b);
    DeepIsPaint(t, Route(256 * b, 32, nh));
    ExtendKeepsShape(t, b);
  }

  /** Once block b has a group, it is the one that block a reads. */
  ghost predicate Shares(t: Table, a: nat, b: nat)
    requires Shape(t)
  {
    a != b && b < BLOCKS && a in Extended(Extend(t, b)) && Low16(Extend(t, b).tbl24[a]) == Low16(Extend(t, b).tbl24[b])
  }

  /** Whoever reads the group of block b reads the host route. */
  lemma SharedCell(u: Table, a: nat, b: nat, nh: u16)
    requires Shape(u) && DepthsFit(u) && a in Extended(u) && b in Extended(u)
    requires Low16(u.tbl24[a]) == Low16(u.tbl24[b])
    ensures Shape(PaintGroup(u, b, 0, 1, 32, nh)) && LookupIn(PaintGroup(u, b, 0, 1, 32, nh), 256 * a) == Some(nh)
  {
    var v := PaintGroup(u, b, 0, 1, 32, nh);
    assert Extended(v) == Extended(u);
    assert v.tbl8[Low16(u.tbl24[b]) * 256] == Entry(32, nh);
  }

  /** A host route in the one block answers for the other. */
  lemma SharedAnswer(t: Table, a: nat, b: nat, nh: u16)
    requires Shape(t) && DepthsFit(t) && Shares(t, a, b)
    ensures var u := AddRoute(t, Route(256 * b, 32, nh)); Shape(u) && LookupIn(u, 256 * a) == Some(nh)
  {
    HostRoute(t, b, nh);
    ExtendAddsBlock(t, b);
    ExtendDepthsFit(t, b);
    SharedCell(Extend(t, b), a, b, nh);
  }

  /** From 65536 groups on, the next host route in some block is shared. */
  lemma SomeShare(t: Table) returns (a: nat, b: nat)
    requires Shape(t) && |Extended(t)| >= MAX_GROUPS
    ensures Shares(t, a, b)
  {
    if |Extended(t)| > MAX_GROUPS {
      a, b := Collision(seq(BLOCKS, x requires 0 <= x < BLOCKS => Low16(t.tbl24[x])), Extended(t), MAX_GROUPS);
    } else {
      var c := FreeBelow(Extended(t), MAX_GROUPS + 1);
      var u := Extend(t, c);
      AnotherBlock(t, c);
      ExtendKeepsShape(t, c);
      a, b := Collision(seq(BLOCKS, x requires 0 <= x < BLOCKS => Low16(u.tbl24[x])), Extended(u), MAX_GROUPS);
      if a == c { a, b := b, a; }
    }
  }

  /** Then some host route in the one block changes the answer for an address of the other. */
  lemma SharedIsWrong(routes: seq<Ipv4Route>, a: nat, b: nat) returns (r: Ipv4Route)
    requires Shares(Build(routes), a, b)
    ensures r.depth == 32 && r.net / 256 == b && !Covers(r, 256 * a)
    ensures LookupIn(Build(routes + [r]), 256 * a) != NextHop(routes + [r], 256 * a)
  {
    BuildExtends(routes);
    BuildDepthsFit(routes);
    r := Route(256 * b, 32, if NextHop(routes, 256 * a) == Some(0) then 1 else 0);
    SharedAnswer(Build(routes), a, b, r.nh);
    BuildNext(routes, r);
    DeepRange(r, 256 * a);
    assert (routes + [r])[..|routes|] == routes;
  }

  /** So it goes from 65536 groups on. */
  lemma Overflow(routes: seq<Ipv4Route>) returns (r: Ipv4Route, ip: u32)
    requires |DeepBlocks(routes)| >= MAX_GROUPS
    ensures !Covers(r, ip) && LookupIn(Build(routes + [r]), ip) != NextHop(routes + [r], ip)
  {
    BuildExtends(routes);
    var a, b := SomeShare(Build(routes));
    ip := 256 * a;
    r := SharedIsWrong(routes, a, b);
  }

  /** A reachable table can take every further route exactly when it has a group number left. */
  lemma RoomIsNeeded(routes: seq<Ipv4Route>)
    ensures |DeepBlocks(routes)| < MAX_GROUPS <==>
      forall r: Ipv4Route, ip: u32 :: LookupIn(Build(routes + [r]), ip) == NextHop(routes + [r], ip)
  {
    if |DeepBlocks(routes)| < MAX_GROUPS {
      forall r: Ipv4Route, ip: u32 ensures LookupIn(Build(routes + [r]), ip) == NextHop(routes + [r], ip) {
        assert (routes + [r])[..|routes|] == routes;
        LookupIsLongestMatch(routes + [r], ip);
      }
    } else {
      var r, ip := Overflow(routes);
    }
  }

  // ----- what is still right beyond the limit -----

  /** In every reachable state, a block that shares its group with no other is answered correctly. */
  lemma AloneAnswer(routes: seq<Ipv4Route>, ip: u32)
    requires Alone(Build(routes), ip / 256)
    ensures LookupIn(Build(routes), ip) == NextHop(routes, ip)
  {
    AloneIsRight(routes, ip);
    CellAnswers(Build(routes), ip);
    Flags(0);
  }

  /** The route needs no new group. */
  ghost predicate NeedsNoGroup(routes: seq<Ipv4Route>, r: Ipv4Route) {
    r.depth <= 24 || r.net / 256 in DeepBlocks(routes)
  }

  lemma StaysAlone(routes: seq<Ipv4Route>, r: Ipv4Route, b: nat)
    requires Alone(Build(routes), b) && NeedsNoGroup(routes, r)
    ensures Alone(Build(routes + [r]), b)
  {
    var t := Build(routes);
    BuildExtends(routes);
    BuildNext(routes, r);
    AddKeepsShape(t, r);
    forall c | c in Extended(AddRoute(t, r)) && b in Extended(AddRoute(t, r)) &&
               Low16(AddRoute(t, r).tbl24[c]) == Low16(AddRoute(t, r).tbl24[b])
      ensures c == b
    {
      AddKeepsGroups(t, r, c);
      AddKeepsGroups(t, r, b);
    }
  }

  lemma NotAlone(t: Table, b: nat) returns (c: nat)
    requires Shape(t) && !Alone(t, b)
    ensures c in Extended(t) && Shares(t, b, c)
  {
    c :| c in Extended(t) && b in Extended(t) && Low16(t.tbl24[c]) == Low16(t.tbl24[b]) && c != b;
  }

  /** The answers for a block stay right, whatever is added without a new group, exactly when it shares with none. */
  lemma AloneIff(routes: seq<Ipv4Route>, b: nat)
    requires b < BLOCKS
    ensures Alone(Build(routes), b) <==>
      forall r: Ipv4Route, ip: u32 :: NeedsNoGroup(routes, r) && ip / 256 == b ==>
        LookupIn(Build(routes + [r]), ip) == NextHop(routes + [r], ip)
  {
    if Alone(Build(routes), b) {
      forall r: Ipv4Route, ip: u32 | NeedsNoGroup(routes, r) && ip / 256 == b
        ensures LookupIn(Build(routes + [r]), ip) == NextHop(routes + [r], ip)
      {
        StaysAlone(routes, r, b);
        AloneAnswer(routes + [r], ip);
      }
    } else {
      BuildExtends(routes);
      var c := NotAlone(Build(routes), b);
      var r := SharedIsWrong(routes, b, c);
    }
  }

  // ----- the limit can be reached -----

  /** Host routes in blocks 0 .. n - 1. */
  ghost function HostRoutes(n: nat): seq<Ipv4Route>
    requires n <= BLOCKS
  {
    seq(n, b requires 0 <= b < n => Route(256 * b, 32, 0))
  }

  lemma DeepBlocksNext(routes: seq<Ipv4Route>, r: Ipv4Route)
    requires r.depth > 24
    ensures DeepBlocks(routes + [r]) == DeepBlocks(routes) + {r.net / 256}
  {
    assert (routes + [r])[..|routes|] == routes;
  }

  lemma {:induction false} HostRoutesAreDeep(n: nat)
    requires n <= BLOCKS
    ensures |DeepBlocks(HostRoutes(n))| == n && forall b :: b in DeepBlocks(HostRoutes(n)) ==> b < n
    decreases n
  {
    if n > 0 {
      HostRoutesAreDeep(n - 1);
      assert HostRoutes(n) == HostRoutes(n - 1) + [Route(256 * (n - 1), 32, 0)];
      DeepBlocksNext(HostRoutes(n - 1), Route(256 * (n - 1), 32, 0));
    }
  }

  /** One host route for each of 65537 blocks is enough: the first 65536 are all answered, and then one is not. */
  lemma OverflowHappens() returns (r: Ipv4Route, ip: u32)
    ensures forall a: u32 :: LookupIn(Build(HostRoutes(MAX_GROUPS)), a) == NextHop(HostRoutes(MAX_GROUPS), a)
    ensures LookupIn(Build(HostRoutes(MAX_GROUPS) + [r]), ip) != NextHop(HostRoutes(MAX_GROUPS) + [r], ip)
  {
    HostRoutesAreDeep(MAX_GROUPS);
    forall a: u32 ensures LookupIn(Build(HostRoutes(MAX_GROUPS)), a) == NextHop(HostRoutes(MAX_GROUPS), a) {
      LookupIsLongestMatch(HostRoutes(MAX_GROUPS), a);
    }
    r, ip := Overflow(HostRoutes(MAX_GROUPS));
  }

  /** What one more block of the loop does, even to a group that an earlier block shares. */
  lemma PaintOneMore(t: Table, lo: nat, b: nat, depth: nat, nh: u16)
    requires Shape(t) && lo <= b < BLOCKS && depth <= 24
    ensures var u, v, e := PaintBlocks(t, lo, b, depth, nh), PaintBlocks(t, lo, b + 1, depth, nh), t.tbl24[b];
      v == if IsExt(e) then Table(u.tbl24, PaintEntries(u.tbl8, Low16(e) * 256, (Low16(e) + 1) * 256, depth, nh))
           else Table(u.tbl24[b := Paint(e, depth, nh)], u.tbl8)
  {
    var u, v, e := PaintBlocks(t, lo, b, depth, nh), PaintBlocks(t, lo, b + 1, depth, nh), t.tbl24[b];
    forall j | 0 <= j < |t.tbl8|
      ensures InGroupOf(t.tbl24, lo, b + 1, j) <==>
        InGroupOf(t.tbl24, lo, b, j) || (IsExt(e) && Low16(e) == j / 256)
    {
    }
    if IsExt(e) {
      assert v.tbl24 == u.tbl24;
      assert v.tbl8 == PaintEntries(u.tbl8, Low16(e) * 256, (Low16(e) + 1) * 256, depth, nh);
    } else {
      assert v.tbl24 == u.tbl24[b := Paint(e, depth, nh)];
      assert v.tbl8 == u.tbl8;
    }
  }

  // ----- the program's own structure, updated in place -----

  class Lpm {
    const tbl24: array<u32>
    var tbl8: seq<u32>
    ghost var routes: seq<Ipv4Route>

    ghost function View(): Table
      reads this, tbl24
    {
      Table(tbl24[..], tbl8)
    }

    /** The table is what the adds so far make of an empty one. */
    ghost predicate Valid()
      reads this, tbl24
    {
      View() == Build(routes)
    }

    constructor ()
      ensures Valid() && routes == [] && fresh(tbl24)
    {
      tbl24 := new u32[BLOCKS](_ => 0);
      tbl8 := [];
      routes := [];
      new;
      assert tbl24[..] == Empty().tbl24;
      EmptyShape();
    }

    method Add(net: u32, depth: nat, nh: u16)
      requires Valid() && depth <= 32
      modifies this, tbl24
      ensures Valid() && routes == old(routes) + [Route(net, depth, nh)]
    {
      Install(net, depth, nh);
      routes := routes + [Route(net, depth, nh)];
      assert routes[..|routes| - 1] == old(routes);
    }

    /** What `Add` does to the two tables, whatever they hold. */
    method Install(net: u32, depth: nat, nh: u16)
      requires Shape(View()) && depth <= 32
      modifies `tbl8, tbl24
      ensures View() == AddRoute(old(View()), Route(net, depth, nh))
    {
      var masked := Masked(net, depth);
      AddCases(View(), Route(net, depth, nh));
      if depth <= 24 {
        ShallowFits(net, depth);
        AddToBlocks(masked / 256, masked / 256 + Pow2(24 - depth), depth, nh);
      } else {
        DeepStart(net, depth);
        AddToGroup(masked, Pow2(32 - depth), depth, nh);
      }
    }

    /** The case of a prefix deeper than 24, which stays inside one block. */
    method AddToGroup(masked: u32, count: nat, depth: nat, nh: u16)
      requires Shape(View()) && masked % 256 + count <= 256 && depth <= 32
      modifies `tbl8, tbl24
      ensures View() == AddDeep(old(View()), masked, count, depth, nh)
    {
      ExtendBlock(masked / 256);
      ghost var u := View();
      var start: nat := Low16(tbl24[masked / 256]) * 256 + masked % 256;
      AddToEntries(start, start + count, depth, nh);
      assert View() == Table(u.tbl24, PaintEntries(u.tbl8, start, start + count, depth, nh));
    }

    /** Gives a block its own group, unless it has one. */
    method ExtendBlock(slot: nat)
      requires Shape(View()) && slot < BLOCKS
      modifies `tbl8, tbl24
      ensures Shape(View()) && View() == Extend(old(View()), slot) && slot in Extended(View())
    {
      ExtendKeepsShape(View(), slot);
      if !IsExt(tbl24[slot]) {
        AnotherBlock(View(), slot);
        var group := |tbl8| / 256;
        var fill := tbl24[slot];
        tbl8 := tbl8 + seq(256, _ => fill);
        tbl24[slot] := GroupEntry(group);
      }
    }

    /** The loop over the /24 blocks that a shallow route covers. */
    method AddToBlocks(lo: nat, hi: nat, depth: nat, nh: u16)
      requires Shape(View()) && lo <= hi <= BLOCKS && depth <= 24
      modifies `tbl8, tbl24
      ensures View() == PaintBlocks(old(View()), lo, hi, depth, nh)
    {
      ghost var t := View();
      var b := lo;
      assert View() == PaintBlocks(t, lo, lo, depth, nh);
      while b < hi
        invariant lo <= b <= hi
        invariant View() == PaintBlocks(t, lo, b, depth, nh)
      {
        var e := tbl24[b];
        assert e == t.tbl24[b] && (IsExt(e) ==> b in Extended(t));
        if !IsValid(e) || (!IsExt(e) && EntryDepth(e) <= depth) {
          tbl24[b] := Entry(depth, nh);
        } else if IsExt(e) {
          var group: nat := Low16(e);
          AddToEntries(group * 256, (group + 1) * 256, depth, nh);
        }
        PaintOneMore(t, lo, b, depth, nh);
        b := b + 1;
      }
    }

    /** The loop over entries of the second level. */
    method AddToEntries(lo: nat, hi: nat, depth: nat, nh: u16)
      requires depth <= 32 && lo <= hi <= |tbl8|
      modifies `tbl8
      ensures tbl8 == PaintEntries(old(tbl8), lo, hi, depth, nh)
    {
      var j := lo;
      while j < hi
        invariant lo <= j <= hi
        invariant tbl8 == PaintEntries(old(tbl8), lo, j, depth, nh)
      {
        if !IsValid(tbl8[j]) || EntryDepth(tbl8[j]) <= depth {
          tbl8 := tbl8[j := Entry(depth, nh)];
        }
        j := j + 1;
      }
    }

    /** The longest match, as long as the deep routes fit into the groups. */
    function Lookup(ip: u32): (nh: Option<u16>)
      requires Valid()
      reads this, tbl24
      ensures nh == LookupIn(View(), ip)
      ensures |DeepBlocks(routes)| <= MAX_GROUPS ==> nh == NextHop(routes, ip) && Answers(routes, ip, nh)
    {
      LookupIsExact(routes, ip);
      var e := tbl24[ip / 256];
      if !IsValid(e) then None
      else if IsExt(e) then
        assert ip / 256 in Extended(View());
        var e8 := tbl8[Low16(e) * 256 + ip % 256];
        if !IsValid(e8) then None else Some(Low16(e8))
      else Some(Low16(e))
    }
  }
}
