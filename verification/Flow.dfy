/**
 Flow identities: parsing a frame (rs/maglev/src/five_tuple.rs), the metadata that the XDP
 program puts in front of it (rs/maglev/bpf/flow_prefix.bpf.c), and reading that back
 (rs/maglev/src/flow_meta.rs).
 */
module Flow {
  import opened Bits
  import opened Checksum
  import opened Options
  import Fnv

  const MAGIC: u8 := 0xa5
  const META_SIZE := 16
  const ETH_SIZE := 14
  const VIP: Address4 := [10, 0, 1, 100]

  datatype FiveTuple = FiveTuple(src_ip: u32, dst_ip: u32, src_port: u16, dst_port: u16, proto: u8)

  function Be32(d: Bytes, at: nat): u32
    requires at + 4 <= |d|
  {
    0x1_0000 * Get16(d, at) + Get16(d, at + 2)
  }

  // ----- the software parser -----

  function FromFrame(frame: Bytes): Option<FiveTuple> {
    if |frame| < ETH_SIZE || Get16(frame, 12) != 0x0800 then None
    else if |frame| < ETH_SIZE + 20 then None
    else
      var proto, l4 := frame[ETH_SIZE + 9], ETH_SIZE + HeaderLength(frame, ETH_SIZE);
      if proto != 6 && proto != 17 then None
      else if |frame| < l4 + 4 then None
      else Some(FiveTuple(Be32(frame, ETH_SIZE + 12), Be32(frame, ETH_SIZE + 16),
                          Get16(frame, l4), Get16(frame, l4 + 2), proto))
  }

  // ----- the key that is hashed -----

  function Le16(x: u16): Bytes { [x % 0x100, x / 0x100] }

  function Le32(x: u32): Bytes { Le16(x % 0x1_0000) + Le16(x / 0x1_0000) }

  function Key(t: FiveTuple): (b: Bytes)
    ensures |b| == 13
  {
    Le32(t.src_ip) + Le32(t.dst_ip) + Le16(t.src_port) + Le16(t.dst_port) + [t.proto]
  }

  function FromLe16(b: Bytes, at: nat): u16
    requires at + 2 <= |b|
  {
    0x100 * b[at + 1] as int + b[at]
  }

  /** Reading the 13 bytes back. */
  function FromKey(b: Bytes): FiveTuple
    requires |b| == 13
  {
    FiveTuple(0x1_0000 * FromLe16(b, 2) + FromLe16(b, 0), 0x1_0000 * FromLe16(b, 6) + FromLe16(b, 4),
              FromLe16(b, 8), FromLe16(b, 10), b[12])
  }

  lemma KeyRoundTrip(t: FiveTuple)
    ensures FromKey(Key(t)) == t
  {
    var k := Key(t);
    assert k[0..4] == Le32(t.src_ip);
    assert k[4..8] == Le32(t.dst_ip);
  }

  method ToBytes(t: FiveTuple) returns (b: array<u8>)
    ensures fresh(b) && b[..] == Key(t)
  {
    b := new u8[13](_ => 0);
    Copy(b, 0, Le32(t.src_ip));
    Copy(b, 4, Le32(t.dst_ip));
    Copy(b, 8, Le16(t.src_port));
    Copy(b, 10, Le16(t.dst_port));
    b[12] := t.proto;
    assert b[..] == b[..4] + b[4..8] + b[8..10] + b[10..12] + [b[12]];
  }

  method Copy(b: array<u8>, at: nat, from: Bytes)
    requires at + |from| <= b.Length
    modifies b
    ensures b[..] == old(b[..at]) + from + old(b[at + |from|..])
  {
    forall i | 0 <= i < |from| {
      b[at + i] := from[i];
    }
  }

  function HashOf(t: FiveTuple): u64 {
    Fnv.Hash(Key(t))
  }

  /** Flows that differ in the protocol alone never share a hash. */
  lemma ProtocolChangesHash(t: FiveTuple, proto: u8)
    requires proto != t.proto
    ensures HashOf(t.(proto := proto)) != HashOf(t)
  {
    Fnv.OneByteNeverCollides(Fnv.BASIS, Key(t.(proto := proto)), Key(t), 12);
  }

  // ----- the metadata -----

  predicate HasMeta(frame: Bytes) {
    |frame| >= META_SIZE && frame[0] == MAGIC
  }

  function MetaTuple(frame: Bytes): FiveTuple
    requires |frame| >= META_SIZE
  {
    FiveTuple(Be32(frame, 1), Be32(frame, 5), Get16(frame, 9), Get16(frame, 11), frame[13])
  }

  /** The frames that the XDP program prefixes: unfragmented TCP or UDP over IPv4 to the virtual address. */
  predicate Accepted(f: Bytes) {
    && |f| >= ETH_SIZE + 20 && f[12..14] == [0x08, 0x00]
    && f[ETH_SIZE] / 0x10 == 4 && f[ETH_SIZE] % 0x10 >= 5
    && (f[ETH_SIZE + 9] == 6 || f[ETH_SIZE + 9] == 17)
    && f[ETH_SIZE + 16..ETH_SIZE + 20] == VIP
    && Get16(f, ETH_SIZE + 6) % 0x2000 == 0
    && |f| >= ETH_SIZE + HeaderLength(f, ETH_SIZE) + 4
  }

  /** The fields go into the metadata in the byte order in which they lie in the frame. */
  function MetaOf(f: Bytes): (m: Bytes)
    requires |f| >= ETH_SIZE + 20 && |f| >= ETH_SIZE + HeaderLength(f, ETH_SIZE) + 4
    ensures |m| == META_SIZE
  {
    var l4 := ETH_SIZE + HeaderLength(f, ETH_SIZE);
    [MAGIC] + f[ETH_SIZE + 12..ETH_SIZE + 20] + f[l4..l4 + 4] + [f[ETH_SIZE + 9], 0, 0]
  }

  function Prefixed(f: Bytes): Bytes
    requires Accepted(f)
  {
    MetaOf(f) + f
  }

  lemma MetaFields(f: Bytes)
    requires Accepted(f)
    ensures var p := Prefixed(f);
      && p[META_SIZE..] == f && HasMeta(p)
      && p[1..9] == f[ETH_SIZE + 12..ETH_SIZE + 20]
      && p[9..13] == f[ETH_SIZE + HeaderLength(f, ETH_SIZE)..ETH_SIZE + HeaderLength(f, ETH_SIZE) + 4]
      && p[13] == f[ETH_SIZE + 9]
  {
  }

  /** What was put in front of a frame is what the software parser finds in it. */
  lemma MetaAgreesWithParser(f: Bytes)
    requires Accepted(f)
    ensures HasMeta(Prefixed(f)) && Prefixed(f)[META_SIZE..] == f
    ensures FromFrame(f) == Some(MetaTuple(Prefixed(f)))
  {
    MetaFields(f);
    assert f[12] == f[12..14][0] && f[13] == f[12..14][1];
    var p, l4 := Prefixed(f), ETH_SIZE + HeaderLength(f, ETH_SIZE);
    SameField(p, 1, f, ETH_SIZE + 12, 8, 0);
    SameField(p, 1, f, ETH_SIZE + 12, 8, 2);
    SameField(p, 1, f, ETH_SIZE + 12, 8, 4);
    SameField(p, 1, f, ETH_SIZE + 12, 8, 6);
    SameField(p, 9, f, l4, 4, 0);
    SameField(p, 9, f, l4, 4, 2);
  }

  lemma SameField(p: Bytes, i: nat, f: Bytes, j: nat, n: nat, k: nat)
    requires i + n <= |p| && j + n <= |f| && p[i..i + n] == f[j..j + n] && k + 2 <= n
    ensures Get16(p, i + k) == Get16(f, j + k)
  {
    assert p[i..i + n][k] == f[j..j + n][k] && p[i..i + n][k + 1] == f[j..j + n][k + 1];
  }

  /** What the filter asks for beyond what the parser does. */
  predicate Filtered(f: Bytes)
    requires |f| >= ETH_SIZE + 20
  {
    && f[ETH_SIZE] / 0x10 == 4 && f[ETH_SIZE] % 0x10 >= 5
    && f[ETH_SIZE + 16..ETH_SIZE + 20] == VIP
    && Get16(f, ETH_SIZE + 6) % 0x2000 == 0
  }

  /** The filter takes exactly the parseable frames that satisfy its extra conditions. */
  lemma AcceptedIff(f: Bytes)
    ensures Accepted(f) <==> FromFrame(f).Some? && |f| >= ETH_SIZE + 20 && Filtered(f)
  {
    if |f| >= ETH_SIZE {
      assert f[12..14] == [0x08, 0x00] <==> Get16(f, 12) == 0x0800 by {
        assert f[12..14] == [f[12], f[13]];
      }
    }
  }

  lemma MetaParts(f: Bytes)
    requires Accepted(f)
    ensures var l4 := ETH_SIZE + HeaderLength(f, ETH_SIZE);
      Prefixed(f) == [MAGIC] + f[ETH_SIZE + 12..ETH_SIZE + 16] + f[ETH_SIZE + 16..ETH_SIZE + 20]
                     + f[l4..l4 + 2] + f[l4 + 2..l4 + 4] + [f[ETH_SIZE + 9], 0, 0] + f
  {
  }

  // ----- frames, metadata and keys in bytes, at their literal places -----

  lemma Be32InBytes(d: Bytes, at: nat)
    requires at + 4 <= |d|
    ensures Be32(d, at) ==
      0x100_0000 * d[at] as int + 0x1_0000 * d[at + 1] as int + 0x100 * d[at + 2] as int + d[at + 3]
  {
  }

  /** Which frames the software parser accepts, and what it reads in them. */
  lemma ParserReadsBytes(f: Bytes)
    ensures FromFrame(f).Some? <==>
      |f| >= 34 && f[12] == 0x08 && f[13] == 0x00 && (f[23] == 6 || f[23] == 17)
      && |f| >= 14 + 4 * (f[14] % 16) as int + 4
    ensures FromFrame(f).Some? ==>
      var t, ports := FromFrame(f).value, 14 + 4 * (f[14] % 16) as int;
      && t.src_ip == 0x100_0000 * f[26] as int + 0x1_0000 * f[27] as int + 0x100 * f[28] as int + f[29]
      && t.dst_ip == 0x100_0000 * f[30] as int + 0x1_0000 * f[31] as int + 0x100 * f[32] as int + f[33]
      && t.src_port == 0x100 * f[ports] as int + f[ports + 1]
      && t.dst_port == 0x100 * f[ports + 2] as int + f[ports + 3]
      && t.proto == f[23]
  {
    if |f| >= 34 {
      Be32InBytes(f, 26);
      Be32InBytes(f, 30);
    }
  }

  /** What the receiver reads in 16 bytes of metadata. */
  lemma MetaReadsBytes(m: Bytes)
    ensures HasMeta(m) <==> |m| >= 16 && m[0] == 0xa5
    ensures |m| >= 16 ==>
      var t := MetaTuple(m);
      && t.src_ip == 0x100_0000 * m[1] as int + 0x1_0000 * m[2] as int + 0x100 * m[3] as int + m[4]
      && t.dst_ip == 0x100_0000 * m[5] as int + 0x1_0000 * m[6] as int + 0x100 * m[7] as int + m[8]
      && t.src_port == 0x100 * m[9] as int + m[10]
      && t.dst_port == 0x100 * m[11] as int + m[12]
      && t.proto == m[13]
  {
    if |m| >= 16 {
      Be32InBytes(m, 1);
      Be32InBytes(m, 5);
    }
  }

  /** Which frames the XDP program accepts ... */
  lemma AcceptedInBytes(f: Bytes)
    ensures Accepted(f) <==>
      && |f| >= 34 && f[12] == 0x08 && f[13] == 0x00
      && f[14] / 16 == 4 && f[14] % 16 >= 5 && (f[23] == 6 || f[23] == 17)
      && f[30] == 10 && f[31] == 0 && f[32] == 1 && f[33] == 100
      && (0x100 * f[20] as int + f[21]) % 0x2000 == 0
      && |f| >= 14 + 4 * (f[14] % 16) as int + 4
  {
    if |f| >= 34 {
      assert f[12..14] == [f[12], f[13]];
      assert f[30..34] == [f[30], f[31], f[32], f[33]];
    }
  }

  /** ... and what it puts in front of them. */
  lemma PrefixInBytes(f: Bytes)
    requires Accepted(f)
    ensures var ports := 14 + 4 * (f[14] % 16) as int;
      Prefixed(f) == [0xa5] + f[26..30] + f[30..34] + f[ports..ports + 2] + f[ports + 2..ports + 4] + [f[23], 0, 0] + f
  {
    MetaParts(f);
  }

  /** The bytes that are hashed, each number with its lowest byte first. */
  lemma KeyInBytes(t: FiveTuple)
    ensures HashOf(t) == Fnv.Hash(
      [t.src_ip % 0x100, t.src_ip / 0x100 % 0x100, t.src_ip / 0x1_0000 % 0x100, t.src_ip / 0x100_0000,
       t.dst_ip % 0x100, t.dst_ip / 0x100 % 0x100, t.dst_ip / 0x1_0000 % 0x100, t.dst_ip / 0x100_0000,
       t.src_port % 0x100, t.src_port / 0x100, t.dst_port % 0x100, t.dst_port / 0x100, t.proto])
  {
    KeyIs(t);
  }

  lemma KeyIs(t: FiveTuple)
    ensures Key(t) ==
      [t.src_ip % 0x100, t.src_ip / 0x100 % 0x100, t.src_ip / 0x1_0000 % 0x100, t.src_ip / 0x100_0000,
       t.dst_ip % 0x100, t.dst_ip / 0x100 % 0x100, t.dst_ip / 0x1_0000 % 0x100, t.dst_ip / 0x100_0000,
       t.src_port % 0x100, t.src_port / 0x100, t.dst_port % 0x100, t.dst_port / 0x100, t.proto]
  {
    WordInBytes(t.src_ip);
    WordInBytes(t.dst_ip);
  }

  lemma WordInBytes(x: u32)
    ensures Le32(x) == [x % 0x100, x / 0x100 % 0x100, x / 0x1_0000 % 0x100, x / 0x100_0000]
  {
    assert x % 0x1_0000 % 0x100 == x % 0x100 && x % 0x1_0000 / 0x100 == x / 0x100 % 0x100;
    assert x / 0x1_0000 / 0x100 == x / 0x100_0000;
  }

  // ----- the XDP program -----

  datatype Action = Pass | Aborted

  /** The packet that the program is run on, and what is free in front of it. */
  class Context {
    var data: Bytes
    var headroom: nat

    constructor (frame: Bytes, headroom: nat)
      ensures data == frame && this.headroom == headroom
    {
      data := frame;
      this.headroom := headroom;
    }

    /** Moves the start of the packet forward into the headroom; the new bytes hold anything. */
    method AdjustHead(n: nat, junk: Bytes) returns (failed: bool)
      requires |junk| == n
      modifies this
      ensures failed <==> old(headroom) < n
      ensures if failed then data == old(data) && headroom == old(headroom)
              else data == junk + old(data) && headroom == old(headroom) - n
    {
      if headroom < n {
        return true;
      }
      headroom := headroom - n;
      data := junk + data;
      return false;
    }

    /** Every packet passes; it leaves prefixed when it is accepted and there is room, else untouched. */
    method FlowPrefix(junk: Bytes) returns (action: Action)
      requires |junk| == META_SIZE
      modifies this
      ensures action == Pass
      ensures data == if Accepted(old(data)) && old(headroom) >= META_SIZE then Prefixed(old(data)) else old(data)
    {
      if ETH_SIZE > |data| {
        return Pass;
      }
      if data[12..14] != [0x08, 0x00] {
        return Pass;
      }
      if ETH_SIZE + 20 > |data| {
        return Pass;
      }
      if data[ETH_SIZE] / 0x10 != 4 || data[ETH_SIZE] % 0x10 < 5 {
        return Pass;
      }
      var proto := data[ETH_SIZE + 9];
      if proto != 6 && proto != 17 {
        return Pass;
      }
      if data[ETH_SIZE + 16..ETH_SIZE + 20] != VIP {
        return Pass;
      }
      FragmentOffset(Get16(data, ETH_SIZE + 6));
      if And(Get16(data, ETH_SIZE + 6), 0x1fff) != 0 {
        return Pass;
      }
      var l4_off := ETH_SIZE + data[ETH_SIZE] % 0x10 * 4;
      if l4_off + 4 > |data| {
        return Pass;
      }
      action := Prepend(l4_off, proto, junk);
    }

    /** Behind the filter: the fields are read before the head moves, and stored in front of it. */
    method Prepend(l4_off: nat, proto: u8, junk: Bytes) returns (action: Action)
      requires Accepted(data) && l4_off == ETH_SIZE + HeaderLength(data, ETH_SIZE) && proto == data[ETH_SIZE + 9]
      requires |junk| == META_SIZE
      modifies this
      ensures action == Pass
      ensures data == if old(headroom) >= META_SIZE then Prefixed(old(data)) else old(data)
    {
      var saddr, daddr := data[ETH_SIZE + 12..ETH_SIZE + 16], data[ETH_SIZE + 16..ETH_SIZE + 20];
      var sport, dport := data[l4_off..l4_off + 2], data[l4_off + 2..l4_off + 4];
      MetaParts(data);
      var failed := AdjustHead(META_SIZE, junk);
      if failed {
        return Pass;
      }
      if META_SIZE > |data| {
        return Aborted;
      }
      StoreMeta(saddr, daddr, sport, dport, proto);
      return Pass;
    }

    /** The metadata fields, one by one, over whatever lay there. */
    method StoreMeta(saddr: Bytes, daddr: Bytes, sport: Bytes, dport: Bytes, proto: u8)
      requires |data| >= META_SIZE && |saddr| == |daddr| == 4 && |sport| == |dport| == 2
      modifies `data
      ensures data == [MAGIC] + saddr + daddr + sport + dport + [proto, 0, 0] + old(data)[META_SIZE..]
    {
      ghost var was := data;
      Store(0, [MAGIC], [], was);
      Store(1, saddr, [MAGIC], was);
      Store(5, daddr, [MAGIC] + saddr, was);
      Store(9, sport, [MAGIC] + saddr + daddr, was);
      Store(11, dport, [MAGIC] + saddr + daddr + sport, was);
      ghost var head := [MAGIC] + saddr + daddr + sport + dport;
      Store(13, [proto], head, was);
      Store(14, [0], head + [proto], was);
      Store(15, [0], head + [proto] + [0], was);
      assert head + [proto] + [0] + [0] == head + [proto, 0, 0];
    }

    /** One field, after those already written to `head`; behind it lies what was there. */
    method Store(at: nat, field: Bytes, ghost head: Bytes, ghost was: Bytes)
      requires |head| == at && at + |field| <= |was| && data == head + was[at..]
      modifies `data
      ensures data == head + field + was[at + |field|..]
    {
      data := data[..at] + field + data[at + |field|..];
    }
  }

  lemma FragmentOffset(x: u16)
    ensures And(x, 0x1fff) == x % 0x2000
  {
    AndLowMask(x, 13);
    Split(x, 13);
  }
}
