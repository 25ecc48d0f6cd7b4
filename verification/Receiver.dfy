/**
 The per-frame work of the receiver (rs/maglev/src/receiver.rs): split off the metadata, choose
 a backend, compare with the software parser, rewrite a copy of the frame, and count.
 */
module Receiver {
  import opened Bits
  import opened Checksum
  import opened Options
  import opened Flow
  import opened MaglevRows
  import MaglevPrograms
  import MaglevTables
  import Greedy
  import Rewrite
  import Fnv

  datatype Stats = Stats(total: nat, no_meta: nat, verified: nat, mismatch: nat, unparsed: nat,
                         rewrite_fail: nat, per_backend: seq<nat>)

  /** The table and the addresses of its backends. */
  datatype Setup = Setup(lut: seq<u16>, ips: seq<Address4>)

  type Ready = s: Setup | |s.lut| == SIZE && 0 < |s.ips| && forall c :: 0 <= c < SIZE ==> s.lut[c] < |s.ips|
    witness Setup(seq(SIZE, _ => 0), [[0, 0, 0, 0]])

  function LookupIndex(s: Ready, flow_hash: u64): (b: nat)
    ensures b < |s.ips|
  {
    s.lut[flow_hash % SIZE]
  }

  function BackendOf(s: Ready, frame: Bytes): (b: nat)
    requires HasMeta(frame)
    ensures b < |s.ips|
  {
    LookupIndex(s, HashOf(MetaTuple(frame)))
  }

  /** The table answers for hashes below 65537 with their own slots, and repeats after that. */
  lemma LookupIsTable(s: Ready, c: nat, k: nat)
    requires c < 65537 && c + 65537 * k < 0x1_0000_0000_0000_0000
    ensures LookupIndex(s, c + 65537 * k) == s.lut[c]
  {
  }

  function StepStats(s: Ready, n: Stats, frame: Bytes): (n': Stats)
    requires |n.per_backend| == |s.ips|
    ensures |n'.per_backend| == |s.ips|
  {
    if !HasMeta(frame) then n.(total := n.total + 1, no_meta := n.no_meta + 1)
    else
      var hw, rest, bi := MetaTuple(frame), frame[META_SIZE..], BackendOf(s, frame);
      var sw := FromFrame(rest);
      Stats(n.total + 1, n.no_meta,
            n.verified + (if sw.Some? then 1 else 0),
            n.mismatch + (if sw.Some? && sw.value != hw then 1 else 0),
            n.unparsed + (if sw.None? then 1 else 0),
            n.rewrite_fail + (if Rewrite.Rewrite(rest, ETH_SIZE, hw.proto, s.ips[bi]).0 then 0 else 1),
            n.per_backend[bi := n.per_backend[bi] + 1])
  }

  function NoStats(s: Ready): Stats {
    Stats(0, 0, 0, 0, 0, 0, seq(|s.ips|, _ => 0))
  }

  function RunStats(s: Ready, frames: seq<Bytes>): (n: Stats)
    ensures |n.per_backend| == |s.ips|
  {
    if frames == [] then NoStats(s)
    else StepStats(s, RunStats(s, frames[..|frames| - 1]), frames[|frames| - 1])
  }

  // ----- what every stream keeps -----

  function Sum(xs: seq<nat>): nat {
    if xs == [] then 0 else xs[0] + Sum(xs[1..])
  }

  lemma {:induction false} SumUpdate(xs: seq<nat>, i: nat, x: nat)
    requires i < |xs|
    ensures Sum(xs[i := x]) + xs[i] == Sum(xs) + x
    decreases i
  {
    if i == 0 {
      assert xs[0 := x][1..] == xs[1..];
    } else {
      assert xs[i := x][1..] == xs[1..][i - 1 := x];
      SumUpdate(xs[1..], i - 1, x);
    }
  }

  lemma {:induction false} SumOfZeros(n: nat)
    ensures Sum(seq(n, _ => 0)) == 0
  {
    if n > 0 {
      assert seq(n, _ => 0)[1..] == seq(n - 1, _ => 0);
      SumOfZeros(n - 1);
    }
  }

  ghost predicate Conserved(n: Stats) {
    && n.total == n.no_meta + n.verified + n.unparsed
    && Sum(n.per_backend) == n.total - n.no_meta
    && n.mismatch <= n.verified
    && n.rewrite_fail <= n.total - n.no_meta
  }

  lemma StepKeepsConserved(s: Ready, n: Stats, frame: Bytes)
    requires |n.per_backend| == |s.ips| && Conserved(n)
    ensures Conserved(StepStats(s, n, frame)) && StepStats(s, n, frame).total == n.total + 1
  {
    if HasMeta(frame) {
      var bi := BackendOf(s, frame);
      SumUpdate(n.per_backend, bi, n.per_backend[bi] + 1);
    }
  }

  /** For any stream at all, the counters account for every frame exactly once. */
  lemma {:induction false} RunIsConserved(s: Ready, frames: seq<Bytes>)
    ensures Conserved(RunStats(s, frames)) && RunStats(s, frames).total == |frames|
    decreases |frames|
  {
    if frames == [] {
      SumOfZeros(|s.ips|);
    } else {
      RunIsConserved(s, frames[..|frames| - 1]);
      StepKeepsConserved(s, RunStats(s, frames[..|frames| - 1]), frames[|frames| - 1]);
    }
  }

  // ----- what each counter counts -----

  /** The positions of the frames with this property. */
  ghost function Where(frames: seq<Bytes>, p: Bytes -> bool): set<nat> {
    set i: nat | i < |frames| && p(frames[i])
  }

  lemma OneMoreFrame(frames: seq<Bytes>, p: Bytes -> bool)
    requires frames != []
    ensures var n := |frames| - 1;
      |Where(frames, p)| == |Where(frames[..n], p)| + (if p(frames[n]) then 1 else 0)
  {
    var n := |frames| - 1;
    assert Where(frames, p) == Where(frames[..n], p) + (if p(frames[n]) then {n} else {});
  }

  /** The software parser finds a tuple behind the metadata. */
  predicate Parsed(frame: Bytes) {
    HasMeta(frame) && FromFrame(frame[16..]).Some?
  }

  /** It finds another one than the metadata says. */
  predicate Differs(frame: Bytes) {
    HasMeta(frame) && FromFrame(frame[16..]).Some? && FromFrame(frame[16..]).value != MetaTuple(frame)
  }

  /** The rewrite of what is behind the metadata, to the address of its backend, fails. */
  predicate Fails(s: Ready, frame: Bytes) {
    HasMeta(frame) && !Rewrite.Rewrite(frame[16..], 14, MetaTuple(frame).proto, s.ips[BackendOf(s, frame)]).0
  }

  /** Every counter is the number of frames that it stands for. */
  ghost predicate Counts(s: Ready, frames: seq<Bytes>, n: Stats) {
    && n.total == |frames|
    && n.no_meta == |Where(frames, frame => !HasMeta(frame))|
    && n.verified == |Where(frames, frame => Parsed(frame))|
    && n.mismatch == |Where(frames, frame => Differs(frame))|
    && n.unparsed == |Where(frames, frame => HasMeta(frame) && FromFrame(frame[16..]).None?)|
    && n.rewrite_fail == |Where(frames, frame => Fails(s, frame))|
    && |n.per_backend| == |s.ips|
    && forall b :: 0 <= b < |s.ips| ==> n.per_backend[b] == CountFor(s, frames, b)
  }

  ghost function CountFor(s: Ready, frames: seq<Bytes>, b: nat): nat {
    |Where(frames, frame => HasMeta(frame) && BackendOf(s, frame) == b)|
  }

  lemma {:induction false} RunCounts(s: Ready, frames: seq<Bytes>)
    ensures Counts(s, frames, RunStats(s, frames))
    decreases |frames|
  {
    if frames != [] {
      RunCounts(s, frames[..|frames| - 1]);
      StepCounts(s, frames, RunStats(s, frames[..|frames| - 1]));
    }
  }

  lemma StepCounts(s: Ready, frames: seq<Bytes>, n: Stats)
    requires frames != [] && Counts(s, frames[..|frames| - 1], n)
    ensures Counts(s, frames, StepStats(s, n, frames[|frames| - 1]))
  {
    OneMoreFrame(frames, frame => !HasMeta(frame));
    OneMoreFrame(frames, frame => Parsed(frame));
    OneMoreFrame(frames, frame => Differs(frame));
    OneMoreFrame(frames, frame => HasMeta(frame) && FromFrame(frame[16..]).None?);
    OneMoreFrame(frames, frame => Fails(s, frame));
    forall b: nat | b < |s.ips|
      ensures StepStats(s, n, frames[|frames| - 1]).per_backend[b] == CountFor(s, frames, b)
    {
      OneMoreFrame(frames, frame => HasMeta(frame) && BackendOf(s, frame) == b);
    }
  }

  // ----- streams that come through the XDP program -----

  /** An output of the XDP program, or a frame that cannot be taken for one. */
  ghost predicate Clean(frame: Bytes) {
    (exists f :: Accepted(f) && frame == Prefixed(f)) || (frame != [] && frame[0] != MAGIC) || frame == []
  }

  lemma CleanFrame(frame: Bytes)
    requires Clean(frame) && HasMeta(frame)
    ensures FromFrame(frame[META_SIZE..]) == Some(MetaTuple(frame))
  {
    var f :| Accepted(f) && frame == Prefixed(f);
    MetaAgreesWithParser(f);
  }

  /** The rewrite of a prefixed frame fails exactly when it must change a checksum that is not there. */
  lemma PrefixedRewriteFails(f: Bytes, to: Address4)
    requires Accepted(f)
    ensures Rewrite.HasHeader(f, ETH_SIZE)
    ensures var proto := f[ETH_SIZE + 9];
      !Rewrite.Rewrite(f, ETH_SIZE, proto, to).0 <==> to != VIP && !Rewrite.HasChecksum(f, ETH_SIZE, proto)
  {
    assert Rewrite.Daddr(f, ETH_SIZE) == VIP;
  }

  /** A frame whose backend is not the virtual address, but whose transport header is cut off. */
  predicate CutOff(s: Ready, frame: Bytes) {
    && HasMeta(frame) && |frame| > 30 && s.ips[BackendOf(s, frame)] != [10, 0, 1, 100]
    && |frame| < 30 + 4 * (frame[30] % 16) as int + (if frame[13] == 6 then 18 else 8)
  }

  lemma CleanRewrite(s: Ready, frame: Bytes)
    requires Clean(frame)
    ensures Fails(s, frame) <==> CutOff(s, frame)
  {
    if HasMeta(frame) {
      var f :| Accepted(f) && frame == Prefixed(f);
      MetaFields(f);
      PrefixedRewriteFails(f, s.ips[BackendOf(s, frame)]);
    }
  }

  /** Kernel and software never disagree about such a stream, and only cut-off frames are not rewritten. */
  lemma CleanStreamAgrees(s: Ready, frames: seq<Bytes>)
    requires forall frame :: frame in frames ==> Clean(frame)
    ensures RunStats(s, frames).mismatch == 0 && RunStats(s, frames).unparsed == 0
    ensures RunStats(s, frames).rewrite_fail == |Where(frames, frame => CutOff(s, frame))|
  {
    RunCounts(s, frames);
    forall i: nat | i < |frames|
      ensures HasMeta(frames[i]) ==> Parsed(frames[i]) && !Differs(frames[i])
      ensures Fails(s, frames[i]) <==> CutOff(s, frames[i])
    {
      assert Clean(frames[i]);
      if HasMeta(frames[i]) { CleanFrame(frames[i]); }
      CleanRewrite(s, frames[i]);
    }
    assert Where(frames, frame => Differs(frame)) == {};
    assert Where(frames, frame => HasMeta(frame) && FromFrame(frame[16..]).None?) == {};
    assert Where(frames, frame => Fails(s, frame)) == Where(frames, frame => CutOff(s, frame));
  }

  /** A correct frame leaves the receiver correct and addressed to its flow's backend. */
  lemma PrefixedFrameIsDelivered(s: Ready, f: Bytes, end: nat)
    requires Accepted(f) && Rewrite.Correct(f, ETH_SIZE, f[ETH_SIZE + 9], end)
    ensures var frame, proto := Prefixed(f), f[ETH_SIZE + 9];
      && HasMeta(frame) && MetaTuple(frame).proto == proto
      && var (to, r) := (s.ips[BackendOf(s, frame)],
                         Rewrite.Rewrite(frame[META_SIZE..], ETH_SIZE, proto, s.ips[BackendOf(s, frame)]));
         r.0 && Rewrite.Correct(r.1, ETH_SIZE, proto, end) && Rewrite.Daddr(r.1, ETH_SIZE) == to
  {
    MetaFields(f);
    Rewrite.RewriteIsRecomputation(f, ETH_SIZE, f[ETH_SIZE + 9], end, s.ips[BackendOf(s, Prefixed(f))]);
  }

  // ----- the program -----

  class Receiver {
    const lut: array<u16>
    const ips: seq<Address4>
    var total: nat
    var no_meta: nat
    var verified: nat
    var mismatch: nat
    var unparsed: nat
    var rewrite_fail: nat
    const per_backend: array<nat>
    var buf: array<u8>

    ghost predicate Valid()
      reads this, lut, per_backend
    {
      && lut.Length == SIZE && 0 < |ips| && per_backend.Length == |ips|
      && (forall c :: 0 <= c < SIZE ==> lut[c] < |ips|)
    }

    ghost function Table(): Ready
      requires Valid()
      reads this, lut, per_backend
    {
      Setup(lut[..], ips)
    }

    ghost function View(): Stats
      reads this, per_backend
    {
      Stats(total, no_meta, verified, mismatch, unparsed, rewrite_fail, per_backend[..])
    }

    /** `hashes` stands for what XxHash64 and FNV-1a make of the backends' names. */
    constructor (hashes: seq<(u64, u64)>, addresses: seq<Address4>)
      requires 0 < |hashes| == |addresses| < SIZE
      ensures Valid() && ips == addresses && fresh(per_backend) && fresh(buf)
      ensures Table().lut == Greedy.Fill(MaglevTables.ExactRows(MaglevPrograms.SeedsOf(hashes)), SIZE, SIZE)
      ensures |hashes| <= 0xffff ==> Greedy.IsGreedyTable(MaglevPrograms.RowsFrom(hashes), 65537, Table().lut)
      ensures View() == NoStats(Table())
    {
      var table := MaglevPrograms.Build(hashes);
      lut := table;
      ips := addresses;
      total, no_meta, verified, mismatch, unparsed, rewrite_fail := 0, 0, 0, 0, 0, 0;
      per_backend := new nat[|addresses|](_ => 0);
      buf := new u8[0](_ => 0);
    }

    method Process(frame: Bytes)
      requires Valid()
      modifies this, per_backend
      ensures Valid() && Table() == old(Table())
      ensures View() == StepStats(Table(), old(View()), frame)
      ensures HasMeta(frame) ==>
        fresh(buf) && buf[..] == Rewrite.Rewrite(frame[META_SIZE..], ETH_SIZE, MetaTuple(frame).proto,
                                                 ips[BackendOf(Table(), frame)]).1
    {
      total := total + 1;
      if !HasMeta(frame) {
        no_meta := no_meta + 1;
        return;
      }
      var rest, hw := frame[META_SIZE..], MetaTuple(frame);
      var bi := Choose(hw);
      per_backend[bi] := per_backend[bi] + 1;
      Compare(hw, FromFrame(rest));
      var ok := RewriteCopy(rest, hw.proto, ips[bi]);
      if !ok {
        rewrite_fail := rewrite_fail + 1;
      }
    }

    method Choose(hw: FiveTuple) returns (bi: nat)
      requires Valid()
      ensures bi == LookupIndex(Table(), HashOf(hw))
    {
      var key := ToBytes(hw);
      var hash := Fnv.Fnv1a64(key[..]);
      bi := lut[hash % SIZE];
    }

    method Compare(hw: FiveTuple, sw: Option<FiveTuple>)
      modifies `verified, `mismatch, `unparsed
      ensures verified == old(verified) + (if sw.Some? then 1 else 0)
      ensures mismatch == old(mismatch) + (if sw.Some? && sw.value != hw then 1 else 0)
      ensures unparsed == old(unparsed) + (if sw.None? then 1 else 0)
    {
      match sw
      case Some(t) =>
        verified := verified + 1;
        if t != hw {
          mismatch := mismatch + 1;
        }
      case None =>
        unparsed := unparsed + 1;
    }

    /** The frame without its metadata goes into the reused buffer, and is rewritten there. */
    method RewriteCopy(rest: Bytes, proto: u8, to: Address4) returns (ok: bool)
      modifies `buf
      ensures fresh(buf) && (ok, buf[..]) == Rewrite.Rewrite(rest, ETH_SIZE, proto, to)
    {
      buf := new u8[|rest|](i requires 0 <= i < |rest| => rest[i]);
      assert buf[..] == rest;
      ok := Rewrite.RewriteDaddr(buf, ETH_SIZE, proto, to);
    }

    method Run(frames: seq<Bytes>)
      requires Valid() && View() == NoStats(Table())
      modifies this, per_backend
      ensures Valid() && Table() == old(Table())
      ensures View() == RunStats(Table(), frames) && Conserved(View()) && Counts(Table(), frames, View())
    {
      var i := 0;
      while i < |frames|
        invariant 0 <= i <= |frames| && Valid() && Table() == old(Table())
        invariant View() == RunStats(Table(), frames[..i])
      {
        Process(frames[i]);
        assert frames[..i + 1][..i] == frames[..i];
        i := i + 1;
      }
      assert frames[..|frames|] == frames;
      RunIsConserved(Table(), frames);
      RunCounts(Table(), frames);
    }
  }
}
