/**
 The rows of a backend: exact, as rs/maglev/src/maglev_table.rs walks them, and with the 32-bit
 wrap-around of apec-demo/rs/maglev/src/table.rs and maglev/maglev.cpp.

 The two differ only for the largest seeds.  `WrapIsExactIff` says for which; `WrappedOntoIff`
 says which wrapped rows still reach every slot however far they are followed.
 */
module MaglevRows {
  import opened Arithmetic
  import opened Bits
  import opened Counting
  import opened Permutation
  import opened Greedy

  const SIZE := 65537
  const WORD := 0x1_0000_0000

  datatype Seed = Seed(off: nat, skip: nat)

  /** What both programs make of the two hashes of a backend. */
  type RowSeed = s: Seed | s.off < SIZE && 0 < s.skip < SIZE witness Seed(0, 1)

  function SeedOf(h1: u64, h2: u64): RowSeed {
    Seed(h1 % SIZE, h2 % (SIZE - 1) + 1)
  }

  function Exact(s: RowSeed, j: nat): (slot: nat)
    ensures slot < SIZE
  {
    (s.off + j * s.skip) % SIZE
  }

  function ExactRow(s: RowSeed): seq<nat> {
    seq(SIZE, j requires 0 <= j => Exact(s, j))
  }

  /** An exact row visits every slot once. */
  lemma ExactRowIsPermutation(s: RowSeed)
    ensures Distinct(ExactRow(s)) && Onto(ExactRow(s), SIZE)
  {
    Prime65537();
    RowIsPermutation(SIZE, s.off, s.skip);
    assert ExactRow(s) == RowSeq(SIZE, s.off, s.skip);
  }

  /** off.wrapping_add(j.wrapping_mul(skip)) % 65537 */
  function Wrapped(s: RowSeed, j: nat): (slot: nat)
    ensures slot < SIZE
  {
    (s.off + j * s.skip % WORD) % WORD % SIZE
  }

  function WrappedRow(s: RowSeed, len: nat): seq<nat> {
    seq(len, j requires 0 <= j => Wrapped(s, j))
  }

  /** No entry of the row up to the last one wraps. */
  predicate InBound(s: RowSeed) {
    s.off + (SIZE - 1) * s.skip < WORD
  }

  /** No entry but possibly the last one wraps. */
  predicate NearlyInBound(s: RowSeed) {
    s.off + (SIZE - 2) * s.skip < WORD
  }

  lemma MulMonotone(j: nat, k: nat, skip: nat)
    requires j <= k
    ensures j * skip <= k * skip
  {
    assert (k - j) * skip >= 0;
    assert (k - j) * skip == k * skip - j * skip;
  }

  lemma ExactBefore(s: RowSeed, k: nat, j: nat)
    requires j <= k && s.off + k * s.skip < WORD
    ensures Wrapped(s, j) == Exact(s, j)
  {
    MulMonotone(j, k, s.skip);
    NoWrap(s.off, j * s.skip);
  }

  lemma NoWrap(off: nat, y: nat)
    requires off + y < WORD
    ensures (off + y % WORD) % WORD == off + y
  {
  }

  /** The wrapped row is the exact one exactly when its last entry does not wrap. */
  lemma WrapIsExactIff(s: RowSeed)
    ensures (forall j: nat :: j < SIZE ==> Wrapped(s, j) == Exact(s, j)) <==> InBound(s)
  {
    if InBound(s) {
      forall j: nat | j < SIZE ensures Wrapped(s, j) == Exact(s, j) {
        ExactBefore(s, SIZE - 1, j);
      }
    } else {
      LastEntryWraps(s);
    }
  }

  /** Beyond the bound off + 65536 * skip lies in the next 2^32, and 2^32 is 1 mod 65537. */
  lemma LastEntryWraps(s: RowSeed)
    requires !InBound(s)
    ensures Wrapped(s, 65536) != Exact(s, 65536)
  {
    if s.skip == 65536 {
      assert Wrapped(s, 65536) == s.off;
      assert Exact(s, 65536) == (s.off + 1) % SIZE;
    } else {
      assert s.skip == 65535 && s.off == 65536;
    }
  }

  /** The one slot that the first 65537 entries of a row can miss. */
  function Missing(s: RowSeed): nat {
    if s.skip == 65536 && s.off < 65536 then s.off + 1 else 1
  }

  lemma ExactReaches(s: RowSeed, c: nat) returns (j: nat)
    requires c < SIZE
    ensures j < SIZE && Exact(s, j) == c
  {
    ExactRowIsPermutation(s);
    assert c in ExactRow(s);
    j :| 0 <= j < SIZE && ExactRow(s)[j] == c;
  }

  /** The only seed for which more than the last entry wraps. */
  predicate Extreme(s: RowSeed) {
    s.off == 65536 && s.skip == 65536
  }

  lemma NearlyAllInBound(s: RowSeed)
    ensures NearlyInBound(s) <==> !Extreme(s)
  {
  }

  lemma ExtremeExact(s: RowSeed, j: nat)
    requires Extreme(s) && j < SIZE
    ensures Exact(s, j) == 65536 - j
  {
    assert s.off + j * s.skip == 65536 + j * 65536;
    DivModUnique(65536 + j * 65536, SIZE, j, 65536 - j);
  }

  lemma ExtremeWrapped(s: RowSeed, j: nat)
    requires Extreme(s) && j < 65536
    ensures Wrapped(s, j) == if j < 65535 then 65536 - j else 0
  {
    if j < 65535 {
      ExactBefore(s, 65534, j);
      ExtremeExact(s, j);
    }
  }

  /** The row counts down from 65536 to 2, and then comes to this slot. */
  ghost predicate CountsDown(row: seq<nat>, last: nat) {
    |row| >= SIZE && (forall j :: 0 <= j < 65535 ==> row[j] == 65536 - j) && row[65535] == last
  }

  /** The row of that seed comes to 0 instead of 1 when it wraps. */
  lemma ExtremeRow(s: RowSeed, len: nat)
    requires Extreme(s) && len >= SIZE
    ensures CountsDown(ExactRow(s), 1) && CountsDown(WrappedRow(s, len), 0)
  {
    forall j | 0 <= j < 65535 ensures ExactRow(s)[j] == 65536 - j && WrappedRow(s, len)[j] == 65536 - j {
      ExtremeExact(s, j);
      ExtremeWrapped(s, j);
    }
    ExtremeExact(s, 65535);
    ExtremeWrapped(s, 65535);
  }

  /** The walk in 32-bit arithmetic repeats after 2^32 entries, when the 32-bit counter does. */
  lemma RowRepeats(s: RowSeed, j: nat)
    ensures Wrapped(s, j + WORD) == Wrapped(s, j)
  {
    assert (j + WORD) * s.skip == WORD * (j * s.skip / WORD + s.skip) + j * s.skip % WORD;
    DivModUnique((j + WORD) * s.skip, WORD, j * s.skip / WORD + s.skip, j * s.skip % WORD);
  }

  /** All but the last entry of a nearly exact row are exact, and the last reaches the missing slot. */
  lemma NearlyExactReaches(s: RowSeed, j: nat)
    requires NearlyInBound(s) && j < SIZE && (InBound(s) || Exact(s, j) != Missing(s))
    ensures Wrapped(s, j) == Exact(s, j)
  {
    if InBound(s) {
      ExactBefore(s, SIZE - 1, j);
    } else if j < 65536 {
      ExactBefore(s, SIZE - 2, j);
    } else {
      LastExact(s);
    }
  }

  lemma LastExact(s: RowSeed)
    requires NearlyInBound(s) && !InBound(s)
    ensures Exact(s, 65536) == Missing(s)
  {
    if s.skip == 65536 {
      assert s.off < 65536;
    } else {
      assert s.skip == 65535 && s.off == 65536;
    }
  }

  /** The seed (65536, 65536): its last two exact entries are 1 and 0, its last two wrapped ones 0 and 65536. */
  lemma ExtremeReaches(s: RowSeed, j: nat) returns (k: nat)
    requires !NearlyInBound(s) && j < SIZE && Exact(s, j) != Missing(s)
    ensures k < SIZE && Wrapped(s, k) == Exact(s, j)
  {
    assert s.skip == 65536 && s.off == 65536;
    k := j;
    if j < 65535 {
      ExactBefore(s, 65534, j);
    } else {
      k := 65535;
    }
  }

  lemma WrappedReaches(s: RowSeed, c: nat) returns (j: nat)
    requires c < SIZE && (InBound(s) || c != Missing(s))
    ensures j < SIZE && Wrapped(s, j) == c
  {
    j := ExactReaches(s, c);
    if NearlyInBound(s) {
      NearlyExactReaches(s, j);
    } else {
      j := ExtremeReaches(s, j);
    }
  }

  lemma WrappedOntoExcept(s: RowSeed, len: nat)
    requires len >= SIZE
    ensures OntoExcept(WrappedRow(s, len), SIZE, Missing(s))
    ensures InBound(s) ==> Onto(WrappedRow(s, len), SIZE)
  {
    forall c: nat | c < SIZE && (InBound(s) || c != Missing(s)) ensures c in WrappedRow(s, len) {
      var j := WrappedReaches(s, c);
      assert WrappedRow(s, len)[j] == c;
    }
  }

  /** An even skip of 65536 never reaches its missing slot, however far the row is followed. */
  lemma NeverReached(s: RowSeed, j: nat)
    requires s.skip == 65536
    ensures Wrapped(s, j) != Missing(s)
  {
    var a := j % 65536;
    assert j * 65536 % WORD == a * 65536;
  }

  lemma NeverInRow(s: RowSeed, len: nat)
    requires s.skip == 65536
    ensures Missing(s) !in WrappedRow(s, len)
  {
    forall j | 0 <= j < len ensures WrappedRow(s, len)[j] != Missing(s) {
      NeverReached(s, j);
    }
  }

  /** Within its first 65537 entries a row that wraps does miss that slot. */
  lemma MissingIsMissed(s: RowSeed, j: nat)
    requires !InBound(s) && j < SIZE
    ensures Wrapped(s, j) != Missing(s)
  {
    if s.skip == 65536 {
      NeverReached(s, j);
    } else {
      assert s.skip == 65535 && s.off == 65536;
      if j < 65536 {
        ExactBefore(s, 65535, j);
        ExactRowIsPermutation(s);
        assert ExactRow(s)[j] != ExactRow(s)[65536];
      }
    }
  }

  lemma MissedInRow(s: RowSeed)
    requires !InBound(s)
    ensures Missing(s) !in WrappedRow(s, SIZE)
  {
    forall j | 0 <= j < SIZE ensures WrappedRow(s, SIZE)[j] != Missing(s) {
      MissingIsMissed(s, j);
    }
  }

  /** Past its end the row of seed (65536, 65535) does reach slot 1, at index 98304. */
  const FAR := 98304

  lemma WrappedOnto(s: RowSeed, len: nat)
    requires s.skip != 65536 && len > FAR
    ensures Onto(WrappedRow(s, len), SIZE)
  {
    WrappedOntoExcept(s, len);
    if !InBound(s) {
      assert WrappedRow(s, len)[FAR] == 1 == Missing(s);
    }
  }

  /** A wrapped row reaches every slot exactly when its skip is not 65536. */
  lemma WrappedOntoIff(s: RowSeed)
    ensures (exists len: nat :: Onto(WrappedRow(s, len), SIZE)) <==> s.skip != 65536
  {
    if s.skip != 65536 {
      WrappedOnto(s, FAR + 1);
    } else {
      forall len: nat ensures !Onto(WrappedRow(s, len), SIZE) {
        NeverInRow(s, len);
      }
    }
  }
}
