/** The two `pick` programs over their own arrays, each proved against its step function. */
module CachePrograms {
  import opened Bits
  import opened MaglevRows
  import opened MaglevTables
  import opened MaglevPrograms
  import opened Cache
  import Crc
  import Greedy

  /** apec-demo/rs/maglev/src/table.rs */
  class MaglevTable {
    const hash_table: array<u16>
    const buckets: array<Bucket>
    ghost var picked: seq<u32>

    ghost function Table(): LookupTable
      requires hash_table.Length == SIZE
      reads hash_table
    {
      hash_table[..]
    }

    /** The buckets are what the picks so far make of an empty cache. */
    ghost predicate Valid()
      reads this, hash_table, buckets
    {
      hash_table.Length == SIZE && buckets.Length == BUCKETS && buckets[..] == Run(Table(), picked)
    }

    constructor (backend_seed: seq<(u32, u32)>)
      requires 0 < |backend_seed| <= 0xffff && PopulateEnds(RowSeeds(backend_seed))
      ensures Valid() && picked == [] && fresh(hash_table) && fresh(buckets)
      ensures hash_table[..] == Greedy.Fill(WrappedRows(RowSeeds(backend_seed), FAR + 1), SIZE, SIZE)
      ensures Greedy.IsGreedyTable(RowsFrom32(backend_seed, FAR + 1), 65537, hash_table[..])
      ensures forall c :: 0 <= c < SIZE ==> hash_table[c] < |backend_seed|
    {
      hash_table := new u16[SIZE](_ => Greedy.EMPTY);
      buckets := new Bucket[BUCKETS](_ => EmptyBucket);
      picked := [];
      new;
      assert hash_table[..] == Greedy.Blank(SIZE);
      Populate(hash_table, backend_seed);
    }

    /** Always the table's answer, whatever was picked before. */
    method Pick(hash: u32) returns (value: u16)
      requires Valid()
      modifies this, buckets
      ensures Valid() && Table() == old(Table()) && picked == old(picked) + [hash]
      ensures value == Backend(Table(), hash)
    {
      PickIsTransparent(Table(), picked, hash);
      value := Step(hash);
      picked := picked + [hash];
      assert picked[..|picked| - 1] == old(picked);
    }

    method Step(hash: u32) returns (value: u16)
      requires hash_table.Length == SIZE && buckets.Length == BUCKETS
      modifies buckets
      ensures (buckets[..], value) == PickAll(old(buckets[..]), old(Table()), hash)
      ensures Table() == old(Table())
    {
      var crc := Crc.Crc32c(hash, 0);
      var k := Crc.LowByte(crc);
      var bucket := buckets[k];
      var i := 0;
      while i < WAYS
        invariant 0 <= i <= WAYS && Scan(bucket, hash, i) == Scan(bucket, hash, 0)
        invariant buckets[..] == old(buckets[..]) && Table() == old(Table())
      {
        var e := bucket.slots[i];
        if !e.valid {
          value := Store(k, i, hash);
          return;
        }
        if e.key == hash {
          assert buckets[..] == old(buckets[..])[k := bucket];
          return e.value;
        }
        i := i + 1;
      }
      LastAnd(bucket.last + 1);
      value := Store(k, And(bucket.last + 1, 3), hash);
    }

    method Store(k: nat, i: nat, hash: u32) returns (value: u16)
      requires hash_table.Length == SIZE && buckets.Length == BUCKETS && k < BUCKETS && i < WAYS
      modifies buckets
      ensures value == Backend(old(Table()), hash) && Table() == old(Table())
      ensures buckets[..] == old(buckets[..])[k := Insert(old(buckets[k]), old(Table()), hash, i)]
    {
      ghost var table := Table();
      value := hash_table[hash % SIZE];
      buckets[k] := Slots(buckets[k].slots[i := CacheEntry(hash, value, true)], i);
      assert Table() == table;
    }
  }

  lemma LastAnd(x: nat)
    ensures And(x, WAYS - 1) == x % WAYS
  {
    AndLowMask(x, 2);
    Split(x, 2);
  }

  /** maglev/maglev.cpp, with the bucket function and the entries of the hash library it borrows */
  class CppTable {
    const hash_table: seq<u16>
    const t: array<u64>

    constructor (table: LookupTable)
      ensures fresh(t) && t[..] == RunWords(table, []) && hash_table == table
    {
      hash_table := table;
      t := new u64[1024](_ => 0);
    }

    method Pick(hash: u32) returns (value: u16)
      requires |hash_table| == SIZE && t.Length == 1024
      modifies t
      ensures (t[..], value) == PickAllWords(old(t[..]), hash_table, hash)
    {
      ghost var ws := WordsOf(t[..], BucketOf(hash));
      var bucket, i := 4 * BucketOf(hash), 0;
      while i < WAYS
        invariant 0 <= i <= WAYS && ScanWords(ws, hash, i) == ScanWords(ws, hash, 0)
        invariant t[..] == old(t[..])
      {
        assert t[bucket + i] == ws[i];
        if Flag(t[bucket + i]) == 0 {
          value := Write(bucket, i, hash);
          return;
        }
        if Key(t[bucket + i]) == hash {
          SameWords(t[..], BucketOf(hash));
          return Value(t[bucket + i]);
        }
        i := i + 1;
      }
      assert t[bucket] == ws[0];
      AndLowMask(Shr(Flag(t[bucket]), 1) + 1, 2);
      Split(Shr(Flag(t[bucket]), 1) + 1, 2);
      var eid := And(Shr(Flag(t[bucket]), 1) + 1, 3);
      value := Write(bucket, eid, hash);
    }

    /** Both stores of an insertion: the whole entry, then the first entry's flag. */
    method Write(bucket: nat, i: nat, hash: u32) returns (value: u16)
      requires |hash_table| == SIZE && t.Length == 1024
      requires bucket == 4 * BucketOf(hash) && i < WAYS
      modifies t
      ensures value == Backend(hash_table, hash)
      ensures t[..] == ReplaceWords(old(t[..]), BucketOf(hash),
                InsertWord(WordsOf(old(t[..]), BucketOf(hash)), hash_table, hash, i))
    {
      ghost var was: WordTable := t[..];
      InsertInPlace(was, BucketOf(hash), hash_table, hash, i);
      value := hash_table[hash % SIZE];
      t[bucket + i] := Packed(hash, value);
      ghost var written: WordTable := t[..];
      assert written == was[bucket + i := Packed(hash, value)];
      t[bucket] := SetLast(t[bucket], i);
      assert t[..] == written[bucket := SetLast(written[bucket], i)];
    }
  }
}
