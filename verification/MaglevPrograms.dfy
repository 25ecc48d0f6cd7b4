/**
 The three programs that build the table, in their own imperative form.  Each is proved to
 compute the greedy fill of its rows, and none reads a row past its end.
 */
module MaglevPrograms {
  import opened Bits
  import opened Greedy
  import opened MaglevRows
  import opened MaglevTables
  import Arithmetic
  import Permutation

  // ----- rs/maglev/src/maglev_table.rs -----

  function SeedsOf(hashes: seq<(u64, u64)>): seq<RowSeed> {
    seq(|hashes|, i requires 0 <= i < |hashes| => SeedOf(hashes[i].0, hashes[i].1))
  }

  /** The rows in terms of the hashes: the first one gives the offset, the second one the skip. */
  ghost function RowsFrom(hashes: seq<(u64, u64)>): seq<seq<nat>> {
    seq(|hashes|, i requires 0 <= i < |hashes| =>
      seq(65537, j requires 0 <= j => (hashes[i].0 + j * (hashes[i].1 % 65536 + 1)) % 65537))
  }

  lemma RowsFromHashes(hashes: seq<(u64, u64)>)
    ensures RowsFrom(hashes) == ExactRows(SeedsOf(hashes))
  {
    forall i | 0 <= i < |hashes| ensures RowsFrom(hashes)[i] == ExactRow(SeedOf(hashes[i].0, hashes[i].1)) {
      RowFromHashes(hashes, i);
    }
  }

  lemma RowFromHashes(hashes: seq<(u64, u64)>, i: nat)
    requires i < |hashes|
    ensures RowsFrom(hashes)[i] == ExactRow(SeedOf(hashes[i].0, hashes[i].1))
  {
    forall j | 0 <= j < 65537 ensures RowsFrom(hashes)[i][j] == Exact(SeedOf(hashes[i].0, hashes[i].1), j) {
      RemainderFirst(hashes[i].0, j * (hashes[i].1 % 65536 + 1));
    }
  }

  lemma RemainderFirst(h: nat, x: nat)
    ensures (h % 65537 + x) % 65537 == (h + x) % 65537
  {
  }

  /** One row by adding skip, and subtracting the table size when that overflows it. */
  method BuildRow(h1: u64, h2: u64) returns (row: array<nat>)
    ensures row[..] == ExactRow(SeedOf(h1, h2))
    ensures row[..] == RowsFrom([(h1, h2)])[0]
  {
    ghost var s := SeedOf(h1, h2);
    row := new nat[SIZE];
    var off := h1 % SIZE;
    var skip := h2 % (SIZE - 1) + 1;
    var j := 0;
    Arithmetic.DivModUnique(off, SIZE, 0, off);
    while j < SIZE
      invariant 0 <= j <= SIZE
      invariant off == Exact(s, j)
      invariant row[..j] == ExactRow(s)[..j]
    {
      row[j] := off;
      assert row[..j + 1] == row[..j] + [off];
      assert ExactRow(s)[..j + 1] == ExactRow(s)[..j] + [Exact(s, j)];
      Permutation.RowWalk(SIZE, s.off, s.skip, j);
      off := off + skip;
      if off >= SIZE {
        off := off - SIZE;
      }
      j := j + 1;
    }
    assert row[..] == row[..SIZE] && ExactRow(s)[..SIZE] == ExactRow(s);
    RowFromHashes([(h1, h2)], 0);
  }

  /** The body of the turn loops: skip taken entries of the row, claim the next, count it. */
  method ClaimNext(perm: seq<seq<nat>>, i: u16, lut: array<u16>, next: array<nat>, ghost t: nat)
    requires t < SIZE && CanFill(perm, SIZE, t + 1) && i == t % |perm|
    requires lut.Length == SIZE && AtTurn(perm, SIZE, lut[..], next[..], t)
    requires next.Length == |perm|
    modifies lut, next
    ensures AtTurn(perm, SIZE, lut[..], next[..], t + 1)
  {
    CounterFindsChoice(perm, SIZE, t, i, next[..]);
    CounterAdvances(perm, SIZE, t, i, next[..]);
    ghost var before := next[..];
    while lut[perm[i][next[i]]] != EMPTY
      invariant lut[..] == Fill(perm, SIZE, t)
      invariant next[..] == before[i := next[i]] && next[i] <= |perm[i]|
      invariant FirstEmpty(perm[i], lut[..], next[i]) == Choice(perm, SIZE, t)
      decreases |perm[i]| - next[i]
    {
      next[i] := next[i] + 1;
    }
    lut[perm[i][next[i]]] := i;
    next[i] := next[i] + 1;
  }

  /** `hashes` holds what XxHash64, for the offset, and FNV-1a, for the skip, make of each backend's name. */
  method Build(hashes: seq<(u64, u64)>) returns (lut: array<u16>)
    requires 0 < |hashes| < SIZE
    ensures fresh(lut)
    ensures lut[..] == Fill(ExactRows(SeedsOf(hashes)), SIZE, SIZE)
    ensures |hashes| <= 0xffff ==> IsGreedyTable(RowsFrom(hashes), 65537, lut[..])
    ensures lut.Length == 65537 && lut[hashes[0].0 % 65537] == 0
    ensures forall c :: 0 <= c < SIZE ==> lut[c] < |hashes|
  {
    var n := |hashes|;
    ghost var rows := ExactRows(SeedsOf(hashes));
    ExactRowsFill(SeedsOf(hashes));
    var perm: seq<seq<nat>> := [];
    while |perm| < n
      invariant |perm| <= n && perm == rows[..|perm|]
    {
      var row := BuildRow(hashes[|perm|].0, hashes[|perm|].1);
      perm := perm + [row[..]];
    }
    assert perm == rows;

    lut := new u16[SIZE](_ => EMPTY);
    var next := new nat[n](_ => 0);
    assert lut[..] == Blank(SIZE);
    FillAll(perm, lut, next);
    TableIsFull(rows, SIZE);
    BuiltFromHashes(hashes);
  }

  /** The finished table in terms of the hashes. */
  lemma BuiltFromHashes(hashes: seq<(u64, u64)>)
    requires 0 < |hashes| < SIZE
    ensures Rows(RowsFrom(hashes), 65537)
    ensures Fill(ExactRows(SeedsOf(hashes)), SIZE, SIZE) == Fill(RowsFrom(hashes), 65537, 65537)
    ensures |hashes| <= 0xffff ==> IsGreedyTable(RowsFrom(hashes), 65537, Fill(RowsFrom(hashes), 65537, 65537))
    ensures Fill(RowsFrom(hashes), 65537, 65537)[hashes[0].0 % 65537] == 0
  {
    RowsFromHashes(hashes);
    ExactRowsFill(SeedsOf(hashes));
    FirstSlot(RowsFrom(hashes), 65537, 65537);
    if |hashes| <= 0xffff { FillIsGreedyTable(RowsFrom(hashes), 65537); }
  }

  /** After the turn of backend i comes that of the next one, or of the first one in the next round. */
  lemma NextInRound(n: nat, i: nat, t: nat)
    requires i < n && t % n == i
    ensures (t + 1) % n == if i + 1 == n then 0 else i + 1
  {
    NextTurn(n, t, t + 1);
  }

  /** The turn loop with its break. */
  method FillAll(perm: seq<seq<nat>>, lut: array<u16>, next: array<nat>)
    requires CanFill(perm, SIZE, SIZE) && next.Length == |perm|
    requires lut.Length == SIZE && lut[..] == Blank(SIZE) && forall i :: 0 <= i < |perm| ==> next[i] == 0
    modifies lut, next
    ensures lut[..] == Fill(perm, SIZE, SIZE)
  {
    var n := |perm|;
    var filled := 0;
    AtStart(perm, SIZE, next[..]);
    Arithmetic.DivModUnique(0, n, 0, 0);
    while filled < SIZE
      invariant filled <= SIZE && (filled < SIZE ==> filled % n == 0)
      invariant AtTurn(perm, SIZE, lut[..], next[..], filled)
      decreases SIZE - filled
    {
      ghost var start := filled;
      var i := 0;
      while i < n
        invariant 0 <= i <= n && start <= filled <= SIZE && (i > 0 ==> start < filled)
        invariant filled < SIZE ==> filled % n == if i == n then 0 else i
        invariant AtTurn(perm, SIZE, lut[..], next[..], filled)
      {
        if filled == SIZE {
          break;
        }
        FewerTurns(perm, SIZE, SIZE, filled + 1);
        ClaimNext(perm, i, lut, next, filled);
        NextInRound(n, i, filled);
        filled := filled + 1;
        i := i + 1;
      }
    }
  }

  // ----- apec-demo/rs/maglev/src/table.rs -----

  function RowSeeds(seeds: seq<(u32, u32)>): seq<RowSeed> {
    seq(|seeds|, i requires 0 <= i < |seeds| => SeedOf(seeds[i].0, seeds[i].1))
  }

  /** The rows in terms of the hashes, in wrapping 32-bit arithmetic. */
  ghost function RowsFrom32(hashes: seq<(u32, u32)>, len: nat): seq<seq<nat>> {
    seq(|hashes|, i requires 0 <= i < |hashes| =>
      seq(len, j requires 0 <= j =>
        (hashes[i].0 % 65537 + j * (hashes[i].1 % 65536 + 1) % 0x1_0000_0000) % 0x1_0000_0000 % 65537))
  }

  lemma RowsFromHashes32(hashes: seq<(u32, u32)>, len: nat)
    ensures RowsFrom32(hashes, len) == WrappedRows(RowSeeds(hashes), len)
  {
    forall i | 0 <= i < |hashes| ensures RowsFrom32(hashes, len)[i] == WrappedRows(RowSeeds(hashes), len)[i] {
    }
  }

  /** A finished table in terms of the hashes. */
  lemma PopulatedFromHashes(hashes: seq<(u32, u32)>, len: nat)
    requires 0 < |hashes| <= 0xffff && CanFill(WrappedRows(RowSeeds(hashes), len), SIZE, SIZE)
    ensures IsGreedyTable(RowsFrom32(hashes, len), 65537, Fill(WrappedRows(RowSeeds(hashes), len), SIZE, SIZE))
    ensures Fill(WrappedRows(RowSeeds(hashes), len), SIZE, SIZE)[hashes[0].0 % 65537] == 0
  {
    RowsFromHashes32(hashes, len);
    FillIsGreedyTable(RowsFrom32(hashes, len), 65537);
    FirstSlot(WrappedRows(RowSeeds(hashes), len), SIZE, SIZE);
    FirstEntry(hashes, len);
  }

  lemma FirstEntry(hashes: seq<(u32, u32)>, len: nat)
    requires 0 < |hashes| && 0 < len
    ensures WrappedRows(RowSeeds(hashes), len)[0][0] == hashes[0].0 % 65537
  {
  }

  /** Row entries are what the program computes from their index. */
  ghost predicate Computed(rows: seq<seq<nat>>, seeds: seq<RowSeed>) {
    |rows| == |seeds| && forall i :: 0 <= i < |rows| ==> rows[i] == WrappedRow(seeds[i], |rows[i]|)
  }

  /** The same turn with the row entry computed from its index, in wrapping 32-bit arithmetic. */
  method ClaimComputed(seeds: seq<RowSeed>, ghost rows: seq<seq<nat>>, i: u16, lut: array<u16>, next: array<nat>,
                       ghost t: nat)
    requires Computed(rows, seeds) && t < SIZE && CanFill(rows, SIZE, t + 1) && i == t % |seeds|
    requires lut.Length == SIZE && next.Length == |seeds| && AtTurn(rows, SIZE, lut[..], next[..], t)
    modifies lut, next
    ensures AtTurn(rows, SIZE, lut[..], next[..], t + 1)
  {
    CounterFindsChoice(rows, SIZE, t, i, next[..]);
    CounterAdvances(rows, SIZE, t, i, next[..]);
    ghost var before := next[..];
    var c := Wrapped(seeds[i], next[i]);
    assert forall j :: 0 <= j < |rows[i]| ==> rows[i][j] == Wrapped(seeds[i], j);
    while lut[c] != EMPTY
      invariant lut[..] == Fill(rows, SIZE, t)
      invariant next[..] == before[i := next[i]] && next[i] < |rows[i]| && c == rows[i][next[i]]
      invariant FirstEmpty(rows[i], lut[..], next[i]) == Choice(rows, SIZE, t)
      decreases |rows[i]| - next[i]
    {
      next[i] := next[i] + 1;
      c := Wrapped(seeds[i], next[i]);
    }
    lut[c] := i;
    next[i] := next[i] + 1;
  }

  /** The precondition is exactly that the program ends; any last skip but 65536 will do. */
  method Populate(lut: array<u16>, hashes: seq<(u32, u32)>)
    requires 0 < |hashes| <= 0xffff && PopulateEnds(RowSeeds(hashes))
    requires lut.Length == SIZE && lut[..] == Blank(SIZE)
    modifies lut
    ensures lut[..] == Fill(WrappedRows(RowSeeds(hashes), FAR + 1), SIZE, SIZE)
    ensures IsGreedyTable(RowsFrom32(hashes, FAR + 1), 65537, lut[..]) && lut[hashes[0].0 % 65537] == 0
    ensures forall c :: 0 <= c < SIZE ==> lut[c] < |hashes|
  {
    var next := new nat[|hashes|](_ => 0);
    PopulateFills(RowSeeds(hashes));
    PopulateTurns(RowSeeds(hashes), WrappedRows(RowSeeds(hashes), FAR + 1), lut, next);
    TableIsFull(WrappedRows(RowSeeds(hashes), FAR + 1), SIZE);
    PopulatedFromHashes(hashes, FAR + 1);
  }

  /** The turn loop, which returns as soon as all slots are filled. */
  method PopulateTurns(seeds: seq<RowSeed>, ghost rows: seq<seq<nat>>, lut: array<u16>, next: array<nat>)
    requires |seeds| <= 0xffff && Computed(rows, seeds) && CanFill(rows, SIZE, SIZE)
    requires next.Length == |seeds| && forall i :: 0 <= i < |seeds| ==> next[i] == 0
    requires lut.Length == SIZE && lut[..] == Blank(SIZE)
    modifies lut, next
    ensures lut[..] == Fill(rows, SIZE, SIZE)
  {
    var n, filled := |seeds|, 0;
    AtStart(rows, SIZE, next[..]);
    Arithmetic.DivModUnique(0, n, 0, 0);
    while true
      invariant filled < SIZE && filled % n == 0
      invariant AtTurn(rows, SIZE, lut[..], next[..], filled)
      decreases SIZE - filled
    {
      ghost var start := filled;
      var i := 0;
      while i < n
        invariant 0 <= i <= n && start <= filled < SIZE && (i > 0 ==> start < filled)
        invariant filled % n == if i == n then 0 else i
        invariant AtTurn(rows, SIZE, lut[..], next[..], filled)
      {
        FewerTurns(rows, SIZE, SIZE, filled + 1);
        ClaimComputed(seeds, rows, i, lut, next, filled);
        NextInRound(n, i, filled);
        filled := filled + 1;
        if filled == SIZE {
          return;
        }
        i := i + 1;
      }
    }
  }

  // ----- maglev/maglev.cpp -----

  method GeneratePermutations(hashes: seq<(u32, u32)>) returns (permutations: seq<seq<nat>>)
    ensures permutations == WrappedRows(RowSeeds(hashes), SIZE) == RowsFrom32(hashes, 65537)
  {
    RowsFromHashes32(hashes, SIZE);
    var seeds := RowSeeds(hashes);
    permutations := [];
    while |permutations| < |seeds|
      invariant |permutations| <= |seeds|
      invariant permutations == WrappedRows(seeds, SIZE)[..|permutations|]
    {
      var s, row, j := seeds[|permutations|], new nat[SIZE], 0;
      while j < SIZE
        invariant 0 <= j <= SIZE && forall k :: 0 <= k < j ==> row[k] == Wrapped(s, k)
      {
        row[j] := (s.off + j * s.skip % WORD) % WORD % SIZE;
        j := j + 1;
      }
      assert row[..] == WrappedRow(s, SIZE);
      permutations := permutations + [row[..]];
    }
  }

  /** The precondition is exactly that no read leaves the matrix; any last seed in bound will do. */
  method Setup(lut: array<u16>, hashes: seq<(u32, u32)>)
    requires 0 < |hashes| <= 0xffff && MatrixSuffices(RowSeeds(hashes))
    requires lut.Length == SIZE && lut[..] == Blank(SIZE)
    modifies lut
    ensures lut[..] == Fill(WrappedRows(RowSeeds(hashes), SIZE), SIZE, SIZE)
    ensures IsGreedyTable(RowsFrom32(hashes, 65537), 65537, lut[..]) && lut[hashes[0].0 % 65537] == 0
  {
    var permutations := GeneratePermutations(hashes);
    MatrixSufficesIff(RowSeeds(hashes));
    var next := new nat[|hashes|](_ => 0);
    PopulateMatrix(permutations, lut, next);
    PopulatedFromHashes(hashes, SIZE);
  }

  method PopulateMatrix(permutations: seq<seq<nat>>, lut: array<u16>, next: array<nat>)
    requires CanFill(permutations, SIZE, SIZE) && next.Length == |permutations| <= 0xffff
    requires lut.Length == SIZE && lut[..] == Blank(SIZE)
    requires forall i :: 0 <= i < |permutations| ==> next[i] == 0
    modifies lut, next
    ensures lut[..] == Fill(permutations, SIZE, SIZE)
  {
    var nb, n := |permutations|, 0;
    AtStart(permutations, SIZE, next[..]);
    Arithmetic.DivModUnique(0, nb, 0, 0);
    while true
      invariant n < SIZE && n % nb == 0
      invariant AtTurn(permutations, SIZE, lut[..], next[..], n)
      decreases SIZE - n
    {
      ghost var start := n;
      var i := 0;
      while i < nb
        invariant 0 <= i <= nb && start <= n < SIZE && (i > 0 ==> start < n)
        invariant n % nb == if i == nb then 0 else i
        invariant AtTurn(permutations, SIZE, lut[..], next[..], n)
      {
        FewerTurns(permutations, SIZE, SIZE, n + 1);
        ClaimNext(permutations, i, lut, next, n);
        NextInRound(nb, i, n);
        n := n + 1;
        if n == SIZE {
          return;
        }
        i := i + 1;
      }
    }
  }

  /** Where the matrix form is safe, the on-the-fly form ends with the same table, slot for slot. */
  lemma PopulateFormsAgree(hashes: seq<(u32, u32)>)
    requires 0 < |hashes| <= 0xffff && MatrixSuffices(RowSeeds(hashes))
    ensures PopulateEnds(RowSeeds(hashes))
    ensures Fill(WrappedRows(RowSeeds(hashes), FAR + 1), SIZE, SIZE) ==
      Fill(WrappedRows(RowSeeds(hashes), SIZE), SIZE, SIZE)
  {
    SameTableAnyLength(RowSeeds(hashes), FAR + 1);
  }
}
