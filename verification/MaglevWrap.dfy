/**
 For which seeds the wrap-around of the 32-bit forms (apec-demo/rs/maglev/src/table.rs,
 maglev/maglev.cpp) shows in the finished table: `WrappedTableIsExactIff`.
 */
module MaglevWrap {
  import opened Bits
  import opened Greedy
  import opened MaglevRows
  import opened MaglevTables

  /** The wrap-around does not show in the table when the last row is in bound and the others nearly. */
  lemma WrappedTableIsExact(seeds: seq<RowSeed>, len: nat)
    requires 0 < |seeds| <= 0x1_0000 && len >= SIZE && InBound(LastSeed(seeds))
    requires forall i :: 0 <= i < |seeds| ==> NearlyInBound(seeds[i])
    ensures Fill(WrappedRows(seeds, len), SIZE, SIZE) == Fill(ExactRows(seeds), SIZE, SIZE)
  {
    var rows, rows' := ExactRows(seeds), WrappedRows(seeds, len);
    ExactRowsFill(seeds);
    forall t | 0 <= t < SIZE ensures AgreeAt(rows, rows', SIZE, t) {
      ExactAgreesAt(seeds, len, t);
    }
    SameChoicesSameFill(rows, rows', SIZE, SIZE);
  }

  lemma ExactAgreesAt(seeds: seq<RowSeed>, len: nat, t: nat)
    requires 0 < |seeds| <= 0x1_0000 && len >= SIZE && t < SIZE
    requires InBound(LastSeed(seeds)) && NearlyInBound(seeds[t % |seeds|])
    ensures AgreeAt(ExactRows(seeds), WrappedRows(seeds, len), SIZE, t)
  {
    if t < SIZE - 1 {
      AgreeNearly(seeds, len, t);
    } else {
      ExactChoice(seeds, t);
      SameUpTo(seeds, len, t, SIZE - 1);
    }
  }

  lemma ExactChoiceIsEarly(seeds: seq<RowSeed>, t: nat)
    requires 0 < |seeds| <= 0x1_0000 && t < SIZE - 1
    ensures Choice(ExactRows(seeds), SIZE, t) < SIZE - 1
  {
    var i := t % |seeds|;
    ExactRowsFill(seeds);
    FewerTurns(ExactRows(seeds), SIZE, SIZE, t + 1);
    ExactRowIsPermutation(seeds[i]);
    ChoiceIsEarly(ExactRows(seeds), SIZE, t);
  }

  /** Up to an entry that does not wrap the two rows are the same. */
  lemma SameUpTo(seeds: seq<RowSeed>, len: nat, t: nat, k: nat)
    requires 0 < |seeds| <= 0x1_0000 && len >= SIZE && t < SIZE
    requires Choice(ExactRows(seeds), SIZE, t) <= k < SIZE
    requires var s := seeds[t % |seeds|]; s.off + k * s.skip < WORD
    ensures AgreeAt(ExactRows(seeds), WrappedRows(seeds, len), SIZE, t)
  {
    var rows, rows' := ExactRows(seeds), WrappedRows(seeds, len);
    var i, j := t % |seeds|, Choice(rows, SIZE, t);
    forall x | 0 <= x <= j ensures rows[i][x] == rows'[i][x] {
      ExactBefore(seeds[i], k, x);
    }
    assert rows[i][..j + 1] == rows'[i][..j + 1];
  }

  lemma AgreeNearly(seeds: seq<RowSeed>, len: nat, t: nat)
    requires 0 < |seeds| <= 0x1_0000 && len >= SIZE && t < SIZE - 1 && NearlyInBound(seeds[t % |seeds|])
    ensures AgreeAt(ExactRows(seeds), WrappedRows(seeds, len), SIZE, t)
  {
    ExactChoiceIsEarly(seeds, t);
    SameUpTo(seeds, len, t, SIZE - 2);
  }

  // ----- a row of the extreme seed -----

  /**
   The turn before the last is one of the extreme seed, and the slots left for it are 0 and 1,
   which its row meets in the other order when it wraps.
   */
  ghost predicate LastTwoSwap(seeds: seq<RowSeed>)
    requires 0 < |seeds| <= 0x1_0000
  {
    var lut := Fill(ExactRows(seeds), SIZE, SIZE - 2);
    Extreme(seeds[(SIZE - 2) % |seeds|]) && lut[0] == EMPTY && lut[1] == EMPTY
  }

  lemma ExactCountsDown(seeds: seq<RowSeed>, i: nat)
    requires i < |seeds| && Extreme(seeds[i])
    ensures CountsDown(ExactRows(seeds)[i], 1)
  {
    ExtremeRow(seeds[i], SIZE);
  }

  lemma WrappedCountsDown(seeds: seq<RowSeed>, len: nat, i: nat)
    requires i < |seeds| && Extreme(seeds[i]) && len >= SIZE
    ensures CountsDown(WrappedRows(seeds, len)[i], 0)
  {
    ExtremeRow(seeds[i], len);
  }

  /** A slot above 1 that is empty comes before slots 0 and 1. */
  lemma CountsDownFinds(row: seq<nat>, last: nat, lut: seq<u16>, c: nat)
    requires CountsDown(row, last) && 2 <= c < SIZE && |lut| == SIZE && lut[c] == EMPTY
    requires forall k :: 0 <= k < |row| ==> row[k] < SIZE
    ensures FirstEmpty(row, lut, 0) < 65535
  {
    assert row[65536 - c] == c;
  }

  lemma NoneAbove(rows: seq<seq<nat>>, t: nat, others: seq<nat>) returns (c: nat)
    requires Rows(rows, SIZE) && CountsDown(rows[t % |rows|], 1) && Choice(rows, SIZE, t) >= 65535
    requires t + |others| < SIZE
    ensures c < 2 && c !in others && Fill(rows, SIZE, t)[c] == EMPTY
  {
    c := AnotherEmpty(rows, SIZE, t, others);
    if c >= 2 { CountsDownFinds(rows[t % |rows|], 1, Fill(rows, SIZE, t), c); }
  }

  /** The row comes to its last two slots only when no others are left. */
  lemma CountsDownChoice(rows: seq<seq<nat>>, t: nat)
    requires Rows(rows, SIZE) && t < SIZE - 1 && CountsDown(rows[t % |rows|], 1)
    requires Choice(rows, SIZE, t) >= 65535
    ensures t == SIZE - 2 && Fill(rows, SIZE, t)[0] == EMPTY && Fill(rows, SIZE, t)[1] == EMPTY
  {
    if t < SIZE - 2 {
      var c := NoneAbove(rows, t, [0, 1]);
    }
    var zero := NoneAbove(rows, t, [1]);
    var one := NoneAbove(rows, t, [0]);
  }

  lemma ExtremeChoice(seeds: seq<RowSeed>, t: nat)
    requires 0 < |seeds| <= 0x1_0000 && t < SIZE - 1 && Extreme(seeds[t % |seeds|])
    requires Choice(ExactRows(seeds), SIZE, t) >= 65535
    ensures t == SIZE - 2 && LastTwoSwap(seeds)
  {
    ExactCountsDown(seeds, t % |seeds|);
    CountsDownChoice(ExactRows(seeds), t);
  }

  lemma AgreeUnlessSwapped(seeds: seq<RowSeed>, len: nat, t: nat)
    requires 0 < |seeds| <= 0x1_0000 && len >= SIZE && t < SIZE - 1
    requires t < SIZE - 2 || !LastTwoSwap(seeds)
    ensures AgreeAt(ExactRows(seeds), WrappedRows(seeds, len), SIZE, t)
  {
    NearlyAllInBound(seeds[t % |seeds|]);
    if !Extreme(seeds[t % |seeds|]) {
      AgreeNearly(seeds, len, t);
    } else {
      if Choice(ExactRows(seeds), SIZE, t) >= 65535 { ExtremeChoice(seeds, t); }
      SameUpTo(seeds, len, t, 65534);
    }
  }

  // ----- the last two turns, when they swap -----

  lemma CountsDownMeets(row: seq<nat>, last: nat, lut: seq<u16>)
    requires CountsDown(row, last) && last < 2
    requires |lut| == SIZE && forall c :: 0 <= c < SIZE ==> (lut[c] == EMPTY <==> c < 2)
    ensures Meets(row, lut, 65535, last)
  {
  }

  lemma OnlyTwoLeft(seeds: seq<RowSeed>, c: nat)
    requires 0 < |seeds| <= 0xffff && LastTwoSwap(seeds) && c < SIZE
    ensures Fill(ExactRows(seeds), SIZE, SIZE - 2)[c] == EMPTY <==> c < 2
  {
    if c >= 2 {
      ExactRowsFill(seeds);
      FewerTurns(ExactRows(seeds), SIZE, SIZE, SIZE - 2);
      TakenButTwo(ExactRows(seeds), SIZE, 0, 1, c);
    }
  }

  /** The extreme row, exact or wrapped, meets its last slot, and the last turn takes the other one. */
  lemma EndsWith(n: nat, rows: seq<seq<nat>>, lut: seq<u16>, x: nat, y: nat)
    requires 0 < n == |rows| <= 0xffff && CanFill(rows, SIZE, SIZE) && lut == Fill(rows, SIZE, SIZE - 2)
    requires CountsDown(rows[(SIZE - 2) % n], x) && x < 2 && y == 1 - x
    requires forall c :: 0 <= c < SIZE ==> (lut[c] == EMPTY <==> c < 2)
    ensures Fill(rows, SIZE, SIZE) == lut[x := (SIZE - 2) % n][y := (SIZE - 1) % n]
    ensures y in rows[(SIZE - 1) % n]
  {
    CountsDownMeets(rows[(SIZE - 2) % n], x, lut);
    LastTwoTurns(rows, SIZE, 65535, x, y);
  }

  lemma ExactEnd(seeds: seq<RowSeed>, lut: seq<u16>)
    requires 0 < |seeds| <= 0xffff && LastTwoSwap(seeds) && CanFill(ExactRows(seeds), SIZE, SIZE)
    requires lut == Fill(ExactRows(seeds), SIZE, SIZE - 2)
    ensures Fill(ExactRows(seeds), SIZE, SIZE) == lut[1 := (SIZE - 2) % |seeds|][0 := (SIZE - 1) % |seeds|]
  {
    forall c: nat | c < SIZE ensures lut[c] == EMPTY <==> c < 2 {
      OnlyTwoLeft(seeds, c);
    }
    ExactCountsDown(seeds, (SIZE - 2) % |seeds|);
    EndsWith(|seeds|, ExactRows(seeds), lut, 1, 0);
  }

  lemma WrappedEnd(seeds: seq<RowSeed>, len: nat, lut: seq<u16>)
    requires 0 < |seeds| <= 0xffff && len >= SIZE && LastTwoSwap(seeds)
    requires CanFill(WrappedRows(seeds, len), SIZE, SIZE)
    requires lut == Fill(ExactRows(seeds), SIZE, SIZE - 2) == Fill(WrappedRows(seeds, len), SIZE, SIZE - 2)
    ensures Fill(WrappedRows(seeds, len), SIZE, SIZE) == lut[0 := (SIZE - 2) % |seeds|][1 := (SIZE - 1) % |seeds|]
    ensures 1 in WrappedRow(LastSeed(seeds), len)
  {
    forall c: nat | c < SIZE ensures lut[c] == EMPTY <==> c < 2 {
      OnlyTwoLeft(seeds, c);
    }
    WrappedCountsDown(seeds, len, (SIZE - 2) % |seeds|);
    EndsWith(|seeds|, WrappedRows(seeds, len), lut, 0, 1);
  }

  lemma SwapShows(seeds: seq<RowSeed>, len: nat, lut: seq<u16>)
    requires 0 < |seeds| <= 0xffff && len >= SIZE && LastTwoSwap(seeds)
    requires CanFill(ExactRows(seeds), SIZE, SIZE) && CanFill(WrappedRows(seeds, len), SIZE, SIZE)
    requires lut == Fill(ExactRows(seeds), SIZE, SIZE - 2) == Fill(WrappedRows(seeds, len), SIZE, SIZE - 2)
    ensures Fill(ExactRows(seeds), SIZE, SIZE) != Fill(WrappedRows(seeds, len), SIZE, SIZE)
  {
    ExactEnd(seeds, lut);
    WrappedEnd(seeds, len, lut);
    LastTwoDiffer(seeds, len);
    SwappedDiffer(lut, (SIZE - 2) % |seeds|, (SIZE - 1) % |seeds|);
  }

  lemma SwappedDiffer(lut: seq<u16>, i: u16, k: u16)
    requires |lut| >= 2 && i != k
    ensures lut[1 := i][0 := k] != lut[0 := i][1 := k]
  {
    assert lut[1 := i][0 := k][1] != lut[0 := i][1 := k][1];
  }

  /** The last two turns are those of different backends: a single extreme one never finds slot 1. */
  lemma LastTwoDiffer(seeds: seq<RowSeed>, len: nat)
    requires 0 < |seeds| <= 0xffff && Extreme(seeds[(SIZE - 2) % |seeds|])
    requires 1 in WrappedRow(LastSeed(seeds), len)
    ensures (SIZE - 2) % |seeds| != (SIZE - 1) % |seeds|
  {
    if (SIZE - 2) % |seeds| == (SIZE - 1) % |seeds| {
      NeverInRow(LastSeed(seeds), len);
    }
  }

  // ----- the exact condition -----

  lemma SameBeforeSwap(seeds: seq<RowSeed>, len: nat)
    requires 0 < |seeds| <= 0xffff && len >= SIZE
    ensures Fill(ExactRows(seeds), SIZE, SIZE - 2) == Fill(WrappedRows(seeds, len), SIZE, SIZE - 2)
  {
    forall t | 0 <= t < SIZE - 2 ensures AgreeAt(ExactRows(seeds), WrappedRows(seeds, len), SIZE, t) {
      AgreeUnlessSwapped(seeds, len, t);
    }
    SameChoicesSameFill(ExactRows(seeds), WrappedRows(seeds, len), SIZE, SIZE - 2);
  }

  /** Where the wrapping fill ends, its table is the exact one but for the seeds that swap the last two slots. */
  lemma WrappedTableIsExactIff(seeds: seq<RowSeed>, len: nat)
    requires 0 < |seeds| <= 0xffff && FillEnds(seeds, len)
    ensures Fill(WrappedRows(seeds, len), SIZE, SIZE) == Fill(ExactRows(seeds), SIZE, SIZE) <==> !LastTwoSwap(seeds)
  {
    var rows, rows' := ExactRows(seeds), WrappedRows(seeds, len);
    ExactRowsFill(seeds);
    EndsIsFill(seeds, len);
    SameBeforeSwap(seeds, len);
    if LastTwoSwap(seeds) {
      SwapShows(seeds, len, Fill(rows, SIZE, SIZE - 2));
    } else {
      AgreeUnlessSwapped(seeds, len, SIZE - 2);
      SameTurn(rows, rows', SIZE, SIZE - 2);
      SameLastTurn(rows, rows', SIZE);
    }
  }

  // ----- such seeds exist -----

  /** One backend counts up from 2, the other one down from 65536. */
  ghost predicate Meeting(seeds: seq<RowSeed>) {
    |seeds| == 2 && seeds[0] == Seed(2, 1) && Extreme(seeds[1])
  }

  function MeetingSlot(t: nat): (slot: nat)
    requires t < SIZE - 2
    ensures 2 <= slot < SIZE
  {
    if t % 2 == 0 then 2 + t / 2 else 65536 - t / 2
  }

  ghost predicate MeetingOrder(order: seq<nat>) {
    |order| == SIZE - 2 && forall t :: 0 <= t < |order| ==> order[t] == MeetingSlot(t)
  }

  lemma MeetingEntry(seeds: seq<RowSeed>, t: nat)
    requires Meeting(seeds) && t < SIZE - 2
    ensures ExactRows(seeds)[t % 2][t / 2] == MeetingSlot(t)
  {
    if t % 2 == 1 { ExtremeExact(seeds[1], t / 2); }
  }

  lemma MetBefore(seeds: seq<RowSeed>, order: seq<nat>, t: nat, k: nat)
    requires Meeting(seeds) && MeetingOrder(order) && k < t / 2 && t < SIZE - 2
    ensures ExactRows(seeds)[t % 2][k] in order[..t]
  {
    var s := 2 * k + t % 2;
    assert s % 2 == t % 2 && s / 2 == k && order[..t][s] == MeetingSlot(s);
    MeetingEntry(seeds, s);
  }

  lemma MeetingIsGreedy(seeds: seq<RowSeed>, order: seq<nat>)
    requires Meeting(seeds) && MeetingOrder(order)
    ensures IsGreedyOrder(ExactRows(seeds), order)
  {
    forall t | 0 <= t < |order| ensures GreedyAt(ExactRows(seeds), order, t) {
      MeetingEntry(seeds, t);
      forall k | 0 <= k < t / 2 ensures ExactRows(seeds)[t % 2][k] in order[..t] {
        MetBefore(seeds, order, t, k);
      }
    }
  }

  lemma MeetingLeavesTwo(seeds: seq<RowSeed>, order: seq<nat>)
    requires Meeting(seeds) && MeetingOrder(order)
    ensures LastTwoSwap(seeds)
  {
    MeetingIsGreedy(seeds, order);
    ExactRowsFill(seeds);
    FewerTurns(ExactRows(seeds), SIZE, SIZE, SIZE - 2);
    LeftOver(ExactRows(seeds), SIZE, order, 0);
    LeftOver(ExactRows(seeds), SIZE, order, 1);
  }

  /** For these seeds all forms end, and the wrap-around shows in the table. */
  lemma SwapHappens(seeds: seq<RowSeed>)
    requires Meeting(seeds)
    ensures MatrixSuffices(seeds) && PopulateEnds(seeds) && LastTwoSwap(seeds)
    ensures Fill(WrappedRows(seeds, SIZE), SIZE, SIZE) != Fill(ExactRows(seeds), SIZE, SIZE)
  {
    MeetingLeavesTwo(seeds, seq(SIZE - 2, t requires 0 <= t < SIZE - 2 => MeetingSlot(t)));
    MatrixSufficesIff(seeds);
    WrappedTableIsExactIff(seeds, SIZE);
  }
}
