/**
 The connection cache in front of the Maglev table: 256 buckets of four entries, with the Rust
 bookkeeping of apec-demo/rs/maglev/src/table.rs and the C++ one of maglev/maglev.cpp, which
 packs the last inserted position into the first entry's flag.

 The reference for one bucket is a queue of at most four keys (`Offer`): a key that is not in
 the queue joins it, and the oldest leaves when there are five.
 */
module Cache {
  import opened Bits
  import opened MaglevRows
  import Crc

  const WAYS := 4
  const BUCKETS := 256

  type LookupTable = t: seq<u16> | |t| == SIZE witness seq(SIZE, _ => 0)

  function Backend(table: LookupTable, hash: u32): u16 {
    table[hash % SIZE]
  }

  lemma BucketIsCrc(hash: u32)
    ensures BucketOf(hash) == Crc.Divide(0, hash, 32) % 256
  {
    Crc.LowByteIsRemainder(Crc.Divide(0, hash, 32));
  }

  /** The table answers for hashes below 65537 with their own slots, and repeats after that. */
  lemma BackendIsTable(table: LookupTable, c: nat, k: nat)
    requires c < 65537 && c + 65537 * k < 0x1_0000_0000
    ensures Backend(table, c + 65537 * k) == table[c]
  {
  }

  function BucketOf(hash: u32): (k: nat)
    ensures k < BUCKETS
  {
    Crc.LowByte(Crc.Divide(0, hash, 32))
  }

  // ----- one bucket, with the Rust bookkeeping -----

  datatype CacheEntry = CacheEntry(key: u32, value: u16, valid: bool)

  datatype Slots = Slots(slots: seq<CacheEntry>, last: nat)

  type Bucket = b: Slots | |b.slots| == WAYS && b.last < WAYS
    witness Slots(seq(WAYS, _ => CacheEntry(0, 0, false)), 0)

  const EmptyBucket: Bucket := Slots(seq(WAYS, _ => CacheEntry(0, 0, false)), 0)

  /** Where the scan stops: at a free entry, at the key, or at the end. */
  function Scan(b: Bucket, hash: u32, i: nat): (j: nat)
    requires i <= WAYS
    ensures i <= j <= WAYS
    decreases WAYS - i
  {
    if i == WAYS || !b.slots[i].valid || b.slots[i].key == hash then i else Scan(b, hash, i + 1)
  }

  function Insert(b: Bucket, table: LookupTable, hash: u32, i: nat): Bucket
    requires i < WAYS
  {
    Slots(b.slots[i := CacheEntry(hash, Backend(table, hash), true)], i)
  }

  function PickSlots(b: Bucket, table: LookupTable, hash: u32): (r: (Bucket, u16)) {
    var i := Scan(b, hash, 0);
    if i == WAYS then (Insert(b, table, hash, (b.last + 1) % WAYS), Backend(table, hash))
    else if !b.slots[i].valid then (Insert(b, table, hash, i), Backend(table, hash))
    else (b, b.slots[i].value)
  }

  // ----- the reference: a queue of keys -----

  function Newest(keys: seq<u32>): seq<u32> {
    if |keys| <= WAYS then keys else keys[|keys| - WAYS..]
  }

  function Offer(queue: seq<u32>, hash: u32): seq<u32> {
    if hash in queue then queue else Newest(queue + [hash])
  }

  function Count(b: Bucket): (n: nat)
    ensures n <= WAYS
  {
    if !b.slots[0].valid then 0 else if !b.slots[1].valid then 1
    else if !b.slots[2].valid then 2 else if !b.slots[3].valid then 3 else 4
  }

  /** The position of the k-th oldest key. */
  function Position(b: Bucket, k: nat): nat
    requires k < WAYS
  {
    if Count(b) < WAYS then k else (b.last + 1 + k) % WAYS
  }

  /** The keys of a bucket, oldest first. */
  function Queue(b: Bucket): seq<u32> {
    seq(Count(b), k requires 0 <= k < Count(b) => b.slots[Position(b, k)].key)
  }

  /** Used entries form a prefix, their keys differ and their values are the table's. */
  ghost predicate Consistent(b: Bucket, table: LookupTable) {
    && (forall i :: 0 <= i < WAYS ==> (b.slots[i].valid <==> i < Count(b)))
    && (forall i :: 0 <= i < Count(b) ==> b.slots[i].value == Backend(table, b.slots[i].key))
    && (forall i, j :: 0 <= i < j < Count(b) ==> b.slots[i].key != b.slots[j].key)
    && (Count(b) < WAYS ==> b.last == if Count(b) == 0 then 0 else Count(b) - 1)
  }

  lemma {:induction false} ScanFinds(b: Bucket, table: LookupTable, hash: u32, i: nat)
    requires Consistent(b, table) && i <= Count(b)
    requires forall k :: 0 <= k < i ==> b.slots[k].key != hash
    ensures var j := Scan(b, hash, i);
      && i <= j <= Count(b) && (j < Count(b) ==> b.slots[j].key == hash)
      && forall k :: 0 <= k < j ==> b.slots[k].key != hash
    decreases WAYS - i
  {
    if i < Count(b) && b.slots[i].key != hash { ScanFinds(b, table, hash, i + 1); }
  }

  lemma QueueHas(b: Bucket, hash: u32)
    ensures hash in Queue(b) <==> exists i :: 0 <= i < Count(b) && b.slots[i].key == hash
  {
    if i :| 0 <= i < Count(b) && b.slots[i].key == hash {
      var k := if Count(b) < WAYS then i else (i + 7 - b.last) % WAYS;
      assert Position(b, k) == i;
      assert Queue(b)[k] == hash;
    }
    if hash in Queue(b) {
      var k :| 0 <= k < Count(b) && Queue(b)[k] == hash;
      assert b.slots[Position(b, k)].key == hash;
    }
  }

  /** Where a key that missed goes: the first free entry, or after the last one written. */
  function Target(b: Bucket): (i: nat)
    ensures i < WAYS
  {
    if Count(b) < WAYS then Count(b) else (b.last + 1) % WAYS
  }

  lemma PickMiss(b: Bucket, table: LookupTable, hash: u32)
    requires Consistent(b, table) && Scan(b, hash, 0) == Count(b)
    ensures PickSlots(b, table, hash) == (Insert(b, table, hash, Target(b)), Backend(table, hash))
  {
    if Count(b) < WAYS { assert !b.slots[Count(b)].valid; }
  }

  /** The cache does not show, and the bucket stays the queue of its newest keys. */
  lemma PickIsOffer(b: Bucket, table: LookupTable, hash: u32)
    requires Consistent(b, table)
    ensures PickSlots(b, table, hash).1 == Backend(table, hash)
    ensures Consistent(PickSlots(b, table, hash).0, table)
    ensures Queue(PickSlots(b, table, hash).0) == Offer(Queue(b), hash)
  {
    ScanFinds(b, table, hash, 0);
    QueueHas(b, hash);
    var i := Scan(b, hash, 0);
    if i < Count(b) {
      assert PickSlots(b, table, hash) == (b, b.slots[i].value);
    } else {
      PickMiss(b, table, hash);
      InsertConsistent(b, table, hash);
      InsertQueue(b, table, hash);
    }
  }

  lemma InsertConsistent(b: Bucket, table: LookupTable, hash: u32)
    requires Consistent(b, table) && forall k :: 0 <= k < Count(b) ==> b.slots[k].key != hash
    ensures Consistent(Insert(b, table, hash, Target(b)), table)
    ensures Count(Insert(b, table, hash, Target(b))) == if Count(b) < WAYS then Count(b) + 1 else WAYS
  {
  }

  lemma InsertQueue(b: Bucket, table: LookupTable, hash: u32)
    requires Consistent(b, table) && Consistent(Insert(b, table, hash, Target(b)), table)
    requires Count(Insert(b, table, hash, Target(b))) == if Count(b) < WAYS then Count(b) + 1 else WAYS
    ensures Queue(Insert(b, table, hash, Target(b))) == Newest(Queue(b) + [hash])
  {
    if Count(b) < WAYS { InsertJoins(b, table, hash); } else { InsertEvicts(b, table, hash); }
  }

  lemma InsertJoins(b: Bucket, table: LookupTable, hash: u32)
    requires Count(b) < WAYS && Consistent(b, table) && Consistent(Insert(b, table, hash, Target(b)), table)
    requires Count(Insert(b, table, hash, Target(b))) == Count(b) + 1
    ensures Queue(Insert(b, table, hash, Target(b))) == Queue(b) + [hash]
  {
  }

  /** In a full bucket the new key takes the place of the oldest, and the others move up. */
  lemma InsertEvicts(b: Bucket, table: LookupTable, hash: u32)
    requires Count(b) == Count(Insert(b, table, hash, Target(b))) == WAYS
    ensures Queue(Insert(b, table, hash, Target(b))) == (Queue(b) + [hash])[1..]
  {
    var b', all := Insert(b, table, hash, Target(b)), Queue(b) + [hash];
    forall k | 0 <= k < WAYS ensures Queue(b')[k] == all[k + 1] {
      if k < 3 {
        assert Position(b', k) == Position(b, k + 1) != Target(b);
      } else {
        assert Position(b', k) == Target(b);
      }
    }
    assert Queue(b') == all[1..];
  }

  // ----- runs -----

  type Buckets = bs: seq<Bucket> | |bs| == BUCKETS witness seq(BUCKETS, _ => EmptyBucket)

  function PickAll(bs: Buckets, table: LookupTable, hash: u32): (r: (Buckets, u16)) {
    var k := BucketOf(hash);
    var (b, value) := PickSlots(bs[k], table, hash);
    (bs[k := b], value)
  }

  /** The cache after a sequence of picks, from empty. */
  function Run(table: LookupTable, hashes: seq<u32>): Buckets {
    if hashes == [] then seq(BUCKETS, _ => EmptyBucket)
    else PickAll(Run(table, hashes[..|hashes| - 1]), table, hashes[|hashes| - 1]).0
  }

  /** The hashes of a run that an ideal queue of four would not have found in bucket k. */
  function Misses(hashes: seq<u32>, k: nat): seq<u32> {
    if hashes == [] then []
    else
      var n := |hashes| - 1;
      var before, hash := Misses(hashes[..n], k), hashes[n];
      if BucketOf(hash) != k || hash in Newest(before) then before else before + [hash]
  }

  /** Bucket k is consistent and holds these keys, oldest first, all of them its own. */
  ghost predicate Holds(bs: Buckets, table: LookupTable, k: nat, keys: seq<u32>)
    requires k < BUCKETS
  {
    && Consistent(bs[k], table)
    && Queue(bs[k]) == keys
    && forall key :: key in keys ==> BucketOf(key) == k
  }

  lemma PickHolds(bs: Buckets, table: LookupTable, hash: u32, k: nat, keys: seq<u32>)
    requires k < BUCKETS && Holds(bs, table, k, keys)
    ensures Holds(PickAll(bs, table, hash).0, table, k, if BucketOf(hash) == k then Offer(keys, hash) else keys)
  {
    if BucketOf(hash) == k { PickIsOffer(bs[k], table, hash); }
  }

  /** In every reachable state a bucket holds the last min(4, misses) keys that missed in it. */
  lemma {:induction false} RunIsFifo(table: LookupTable, hashes: seq<u32>, k: nat)
    requires k < BUCKETS
    ensures Holds(Run(table, hashes), table, k, Newest(Misses(hashes, k)))
    decreases |hashes|
  {
    if hashes != [] {
      var n := |hashes| - 1;
      RunIsFifo(table, hashes[..n], k);
      PickHolds(Run(table, hashes[..n]), table, hashes[n], k, Newest(Misses(hashes[..n], k)));
      NewestOfNewest(Misses(hashes[..n], k), hashes[n]);
    }
  }

  lemma NewestOfNewest(keys: seq<u32>, hash: u32)
    ensures Newest(Newest(keys) + [hash]) == Newest(keys + [hash])
  {
  }

  /** Over every run, the answer is the table's: the cache cannot be observed. */
  lemma PickIsTransparent(table: LookupTable, hashes: seq<u32>, hash: u32)
    ensures PickAll(Run(table, hashes), table, hash).1 == Backend(table, hash)
  {
    RunIsFifo(table, hashes, BucketOf(hash));
    PickIsOffer(Run(table, hashes)[BucketOf(hash)], table, hash);
  }

  /** Misses are only ever appended. */
  lemma {:induction false} MissesGrow(hashes: seq<u32>, more: seq<u32>, k: nat)
    ensures Misses(hashes, k) <= Misses(hashes + more, k)
    decreases |more|
  {
    if more != [] {
      var n := |more| - 1;
      MissesGrow(hashes, more[..n], k);
      assert (hashes + more)[..|hashes + more| - 1] == hashes + more[..n];
    } else {
      assert hashes + more == hashes;
    }
  }

  /** The key of the p-th miss stays cached until four further misses in its bucket. */
  lemma KeySurvives(table: LookupTable, hashes: seq<u32>, more: seq<u32>, k: nat, p: nat)
    requires k < BUCKETS && p < |Misses(hashes, k)|
    requires |Misses(hashes + more, k)| - (p + 1) < WAYS
    ensures Misses(hashes, k)[p] in Queue(Run(table, hashes + more)[k])
  {
    MissesGrow(hashes, more, k);
    RunIsFifo(table, hashes + more, k);
    var m := Misses(hashes + more, k);
    NewestHas(m, p);
  }

  lemma NewestHas(keys: seq<u32>, p: nat)
    requires |keys| - WAYS <= p < |keys|
    ensures keys[p] in Newest(keys)
  {
    assert Newest(keys)[p - (|keys| - |Newest(keys)|)] == keys[p];
  }

  /** And it is gone after four, unless it has missed again. */
  lemma KeyIsEvicted(table: LookupTable, hashes: seq<u32>, k: nat, p: nat)
    requires k < BUCKETS && p < |Misses(hashes, k)|
    requires |Misses(hashes, k)| - (p + 1) >= WAYS
    requires Misses(hashes, k)[p] !in Misses(hashes, k)[p + 1..]
    ensures Misses(hashes, k)[p] !in Queue(Run(table, hashes)[k])
  {
    RunIsFifo(table, hashes, k);
    var m := Misses(hashes, k);
    assert forall i :: 0 <= i < WAYS ==> Newest(m)[i] == m[p + 1..][|m| - WAYS - (p + 1) + i];
  }

  // ----- the C++ bookkeeping: packed 64-bit words, the last position hidden in the first -----

  type Words = ws: seq<u64> | |ws| == WAYS witness seq(WAYS, _ => 0)

  /** The 16-bit flag, the value and the key of an entry, as they lie in memory. */
  function Flag(w: u64): u16 { w % 0x1_0000 }

  function Value(w: u64): u16 { w / 0x1_0000 % 0x1_0000 }

  function Key(w: u64): u32 { w / 0x1_0000_0000 }

  /** ((uint64_t)hash << 32) | ((uint64_t)value << 16) | 1 */
  function Packed(hash: u32, value: u16): (w: u64)
    ensures Flag(w) == 1 && Value(w) == value && Key(w) == hash
  {
    PackedValue(hash, value);
    PackedFields(hash, value);
    Or(Or(Shl(hash, 32), Shl(value, 16)), 1)
  }

  lemma PackedValue(hash: u32, value: u16)
    ensures Or(Or(Shl(hash, 32), Shl(value, 16)), 1) == hash * 0x1_0000_0000 + value * 0x1_0000 + 1
  {
    PackedHigh(hash, value);
    var hi := hash * 0x1_0000 + value;
    Split(hi, 16);
    OrDisjoint(hi, 1, 16);
  }

  lemma PackedHigh(hash: u32, value: u16)
    ensures Or(Shl(hash, 32), Shl(value, 16)) == hash * 0x1_0000_0000 + value * 0x1_0000
  {
    Split(hash, 32);
    Split(value, 16);
    OrDisjoint(hash, Shl(value, 16), 32);
  }

  lemma PackedFields(hash: u32, value: u16)
    ensures var w: u64 := hash * 0x1_0000_0000 + value * 0x1_0000 + 1;
      Flag(w) == 1 && Value(w) == value && Key(w) == hash
  {
    assert (hash * 0x1_0000_0000 + value * 0x1_0000 + 1) / 0x1_0000 == hash * 0x1_0000 + value;
  }

  /** entry.is_entry = (i << 1) | 1, which leaves the key and the value of the word. */
  function SetLast(w: u64, i: nat): (w': u64)
    requires i < WAYS
    ensures Flag(w') == 2 * i + 1 && Value(w') == Value(w) && Key(w') == Key(w)
  {
    OrDisjoint(i, 1, 1);
    assert Or(Shl(i, 1), 1) == 2 * i + 1;
    SetFlagKeeps(w, 2 * i + 1);
    SetFlag(w, Or(Shl(i, 1), 1))
  }

  function SetFlag(w: u64, flag: u16): u64 {
    w / 0x1_0000 * 0x1_0000 + flag
  }

  lemma SetFlagKeeps(w: u64, flag: u16)
    ensures Flag(SetFlag(w, flag)) == flag
    ensures Value(SetFlag(w, flag)) == Value(w) && Key(SetFlag(w, flag)) == Key(w)
  {
    assert SetFlag(w, flag) / 0x1_0000 == w / 0x1_0000;
  }

  /** The new entry, then the flag of the first one. */
  function InsertWord(ws: Words, table: LookupTable, hash: u32, i: nat): Words
    requires i < WAYS
  {
    var written := ws[i := Packed(hash, Backend(table, hash))];
    written[0 := SetLast(written[0], i)]
  }

  function ScanWords(ws: Words, hash: u32, i: nat): (j: nat)
    requires i <= WAYS
    ensures i <= j <= WAYS
    decreases WAYS - i
  {
    if i == WAYS || Flag(ws[i]) == 0 || Key(ws[i]) == hash then i else ScanWords(ws, hash, i + 1)
  }

  /** ((is_entry >> 1) + 1) & 3 */
  function NextSlot(ws: Words): (i: nat)
    ensures i < WAYS
  {
    AndLowMask(Shr(Flag(ws[0]), 1) + 1, 2);
    Split(Shr(Flag(ws[0]), 1) + 1, 2);
    And(Shr(Flag(ws[0]), 1) + 1, 3)
  }

  function PickWords(ws: Words, table: LookupTable, hash: u32): (r: (Words, u16)) {
    var i := ScanWords(ws, hash, 0);
    if i == WAYS then (InsertWord(ws, table, hash, NextSlot(ws)), Backend(table, hash))
    else if Flag(ws[i]) == 0 then (InsertWord(ws, table, hash, i), Backend(table, hash))
    else (ws, Value(ws[i]))
  }

  ghost predicate SameEntry(e: CacheEntry, w: u64) {
    (e.valid <==> Flag(w) != 0) && (e.valid ==> e.key == Key(w) && e.value == Value(w))
  }

  ghost predicate Related(b: Bucket, ws: Words) {
    && (forall i :: 0 <= i < WAYS ==> SameEntry(b.slots[i], ws[i]))
    && (b.slots[0].valid ==> Flag(ws[0]) == 2 * b.last + 1)
  }

  lemma {:induction false} ScansAgree(b: Bucket, ws: Words, hash: u32, i: nat)
    requires Related(b, ws) && i <= WAYS
    ensures Scan(b, hash, i) == ScanWords(ws, hash, i)
    ensures Scan(b, hash, i) > i ==> b.slots[i].valid
    decreases WAYS - i
  {
    if i < WAYS {
      assert SameEntry(b.slots[i], ws[i]);
      ScansAgree(b, ws, hash, i + 1);
    }
  }

  lemma NextSlotAgrees(b: Bucket, ws: Words)
    requires Related(b, ws) && b.slots[0].valid
    ensures NextSlot(ws) == (b.last + 1) % WAYS
  {
    AndLowMask(b.last + 1, 2);
    Split(b.last + 1, 2);
    assert Shr(Flag(ws[0]), 1) == Flag(ws[0]) / 2 == b.last;
  }

  /** Storing the position in the first word leaves the entries what they were. */
  lemma FlagKeepsEntries(e: CacheEntry, ws: Words, packed: u64, i: nat, k: nat)
    requires i < WAYS && k < WAYS && SameEntry(e, ws[i := packed][k]) && (k == 0 ==> e.valid)
    ensures SameEntry(e, ws[i := packed][0 := SetLast(ws[i := packed][0], i)][k])
  {
  }

  lemma InsertsAgree(b: Bucket, ws: Words, table: LookupTable, hash: u32, i: nat)
    requires Related(b, ws) && i < WAYS && (i == 0 || b.slots[0].valid)
    ensures Related(Insert(b, table, hash, i), InsertWord(ws, table, hash, i))
  {
    forall k | 0 <= k < WAYS
      ensures SameEntry(Insert(b, table, hash, i).slots[k], InsertWord(ws, table, hash, i)[k])
    {
      InsertedAgrees(b, ws, table, hash, i, k);
    }
    InsertedFlag(ws, Packed(hash, Backend(table, hash)), i);
  }

  lemma InsertedFlag(ws: Words, packed: u64, i: nat)
    requires i < WAYS
    ensures Flag(ws[i := packed][0 := SetLast(ws[i := packed][0], i)][0]) == 2 * i + 1
  {
  }

  lemma InsertedAgrees(b: Bucket, ws: Words, table: LookupTable, hash: u32, i: nat, k: nat)
    requires Related(b, ws) && i < WAYS && k < WAYS && (i == 0 || b.slots[0].valid)
    ensures SameEntry(Insert(b, table, hash, i).slots[k], InsertWord(ws, table, hash, i)[k])
  {
    var packed := Packed(hash, Backend(table, hash));
    assert SameEntry(b.slots[k], ws[k]);
    assert SameEntry(CacheEntry(hash, Backend(table, hash), true), packed);
    FlagKeepsEntries(Insert(b, table, hash, i).slots[k], ws, packed, i, k);
  }

  /** One pick of either form returns the same backend and keeps the states related. */
  lemma PicksAgree(b: Bucket, ws: Words, table: LookupTable, hash: u32)
    requires Related(b, ws)
    ensures PickSlots(b, table, hash).1 == PickWords(ws, table, hash).1
    ensures Related(PickSlots(b, table, hash).0, PickWords(ws, table, hash).0)
  {
    ScansAgree(b, ws, hash, 0);
    var i := Scan(b, hash, 0);
    if i == WAYS {
      NextSlotAgrees(b, ws);
      InsertsAgree(b, ws, table, hash, NextSlot(ws));
    } else {
      assert SameEntry(b.slots[i], ws[i]);
      if !b.slots[i].valid {
        InsertsAgree(b, ws, table, hash, i);
      }
    }
  }

  type WordTable = t: seq<u64> | |t| == 1024 witness seq(1024, _ => 0)

  function WordsOf(t: WordTable, k: nat): Words
    requires k < BUCKETS
  {
    t[4 * k..4 * k + 4]
  }

  function ReplaceWords(t: WordTable, k: nat, ws: Words): WordTable
    requires k < BUCKETS
  {
    t[..4 * k] + ws + t[4 * k + 4..]
  }

  lemma ReplacedWords(t: WordTable, k: nat, ws: Words, i: nat)
    requires k < BUCKETS && i < BUCKETS
    ensures WordsOf(ReplaceWords(t, k, ws), i) == if i == k then ws else WordsOf(t, i)
  {
  }

  lemma SameWords(t: WordTable, k: nat)
    requires k < BUCKETS
    ensures ReplaceWords(t, k, WordsOf(t, k)) == t
  {
  }

  /** Writing one entry of a bucket in place. */
  lemma ReplacedEntry(t: WordTable, k: nat, i: nat, w: u64)
    requires k < BUCKETS && i < WAYS
    ensures ReplaceWords(t, k, WordsOf(t, k)[i := w]) == t[4 * k + i := w]
    ensures WordsOf(t[4 * k + i := w], k) == WordsOf(t, k)[i := w]
  {
  }

  /** The two stores of an insertion, as the program makes them. */
  lemma InsertInPlace(t: WordTable, k: nat, table: LookupTable, hash: u32, i: nat)
    requires k < BUCKETS && i < WAYS
    ensures var t' := t[4 * k + i := Packed(hash, Backend(table, hash))];
      ReplaceWords(t, k, InsertWord(WordsOf(t, k), table, hash, i)) == t'[4 * k := SetLast(t'[4 * k], i)]
  {
    var t' := t[4 * k + i := Packed(hash, Backend(table, hash))];
    ReplacedEntry(t, k, i, Packed(hash, Backend(table, hash)));
    assert t'[4 * k] == WordsOf(t', k)[0];
    ReplacedEntry(t', k, 0, SetLast(t'[4 * k], i));
    ReplacedTwice(t, k, WordsOf(t', k), InsertWord(WordsOf(t, k), table, hash, i));
  }

  lemma ReplacedTwice(t: WordTable, k: nat, vs: Words, ws: Words)
    requires k < BUCKETS
    ensures ReplaceWords(ReplaceWords(t, k, vs), k, ws) == ReplaceWords(t, k, ws)
  {
  }

  function PickAllWords(t: WordTable, table: LookupTable, hash: u32): (r: (WordTable, u16)) {
    var k := BucketOf(hash);
    var (ws, value) := PickWords(WordsOf(t, k), table, hash);
    (ReplaceWords(t, k, ws), value)
  }

  function RunWords(table: LookupTable, hashes: seq<u32>): WordTable {
    if hashes == [] then seq(1024, _ => 0)
    else PickAllWords(RunWords(table, hashes[..|hashes| - 1]), table, hashes[|hashes| - 1]).0
  }

  ghost predicate AllRelated(bs: Buckets, t: WordTable) {
    forall k :: 0 <= k < BUCKETS ==> Related(bs[k], WordsOf(t, k))
  }

  lemma PickAllAgree(bs: Buckets, t: WordTable, table: LookupTable, hash: u32)
    requires AllRelated(bs, t)
    ensures PickAll(bs, table, hash).1 == PickAllWords(t, table, hash).1
    ensures AllRelated(PickAll(bs, table, hash).0, PickAllWords(t, table, hash).0)
  {
    var k := BucketOf(hash);
    PicksAgree(bs[k], WordsOf(t, k), table, hash);
    var ws := PickWords(WordsOf(t, k), table, hash).0;
    forall i | 0 <= i < BUCKETS ensures Related(PickAll(bs, table, hash).0[i], WordsOf(ReplaceWords(t, k, ws), i)) {
      ReplacedWords(t, k, ws, i);
    }
  }

  /** Over every sequence of hashes the C++ form returns what the Rust form does. */
  lemma {:induction false} RunsAgree(table: LookupTable, hashes: seq<u32>)
    ensures AllRelated(Run(table, hashes), RunWords(table, hashes))
    ensures forall hash: u32 ::
      PickAllWords(RunWords(table, hashes), table, hash).1 == PickAll(Run(table, hashes), table, hash).1
    decreases |hashes|
  {
    if hashes != [] {
      var n := |hashes| - 1;
      RunsAgree(table, hashes[..n]);
      PickAllAgree(Run(table, hashes[..n]), RunWords(table, hashes[..n]), table, hashes[n]);
    } else {
      assert forall k :: 0 <= k < BUCKETS ==> WordsOf(RunWords(table, []), k) == seq(WAYS, _ => 0);
    }
    forall hash: u32
      ensures PickAllWords(RunWords(table, hashes), table, hash).1 == PickAll(Run(table, hashes), table, hash).1
    {
      PickAllAgree(Run(table, hashes), RunWords(table, hashes), table, hash);
    }
  }
}
