/**
 Building the Maglev table: the Rust form that stores its permutations
 (rs/maglev/src/maglev_table.rs), the Rust form that computes them on the fly
 (apec-demo/rs/maglev/src/table.rs), and the C++ form (maglev/maglev.cpp).
 */
module MaglevTables {
  import opened Bits
  import opened Counting
  import opened Greedy
  import opened MaglevRows

  ghost function ExactRows(seeds: seq<RowSeed>): seq<seq<nat>> {
    seq(|seeds|, i requires 0 <= i < |seeds| => ExactRow(seeds[i]))
  }

  ghost function WrappedRows(seeds: seq<RowSeed>, len: nat): seq<seq<nat>> {
    seq(|seeds|, i requires 0 <= i < |seeds| => WrappedRow(seeds[i], len))
  }

  /** The backend whose turn fills the last slot. */
  function LastSeed(seeds: seq<RowSeed>): RowSeed
    requires |seeds| > 0
  {
    seeds[(SIZE - 1) % |seeds|]
  }

  lemma ExactRowsFill(seeds: seq<RowSeed>)
    requires 0 < |seeds| <= 0x1_0000
    ensures CanFill(ExactRows(seeds), SIZE, SIZE)
  {
    var rows := ExactRows(seeds);
    forall i | 0 <= i < |seeds| ensures Onto(rows[i], SIZE) && NearlyOnto(rows[i], SIZE) {
      ExactRowIsPermutation(seeds[i]);
      assert OntoExcept(rows[i], SIZE, 0);
    }
    ChoiceExists(rows, SIZE, SIZE - 1);
  }

  lemma ExactChoice(seeds: seq<RowSeed>, t: nat)
    requires 0 < |seeds| <= 0x1_0000 && t < SIZE
    ensures Choice(ExactRows(seeds), SIZE, t) < SIZE
  {
    ExactRowsFill(seeds);
    FewerTurns(ExactRows(seeds), SIZE, SIZE, t + 1);
    ChoiceInRow(ExactRows(seeds), SIZE, t);
  }

  /**
   The table of any admitted number of backends: rows are permutations, every slot is taken by
   the greedy rule while marks are visible, and each backend gets its exact share.
   */
  lemma ExactTable(seeds: seq<RowSeed>, i: u16)
    requires 0 < |seeds| <= 0x1_0000 && i < |seeds|
    ensures var rows, lut := ExactRows(seeds), Fill(ExactRows(seeds), SIZE, SIZE);
      && (forall row :: row in rows ==> Distinct(row) && Onto(row, SIZE))
      && multiset(lut)[i] == SIZE / |seeds| + (if i < SIZE % |seeds| then 1 else 0)
      && (forall t :: 0 <= t < SIZE ==> Choice(rows, SIZE, t) < SIZE)
      && (|seeds| <= 0xffff ==> GreedyAfter(rows, SIZE, SIZE))
  {
    var rows := ExactRows(seeds);
    ExactRowsFill(seeds);
    forall row | row in rows ensures Distinct(row) && Onto(row, SIZE) {
      var k :| 0 <= k < |rows| && rows[k] == row;
      ExactRowIsPermutation(seeds[k]);
    }
    forall t | 0 <= t < SIZE ensures Choice(rows, SIZE, t) < SIZE {
      ExactChoice(seeds, t);
    }
    ExactBalance(rows, SIZE, i);
    if |seeds| <= 0xffff { FillIsGreedy(rows, SIZE, SIZE); }
  }

  /** Backends 0 and 65535 with equal hashes prefer the same slot, so the table cannot be the greedy one. */
  lemma EqualSeedsCollide(seeds: seq<RowSeed>)
    requires |seeds| == 0x1_0000 && seeds[0] == seeds[0xffff]
    ensures Rows(ExactRows(seeds), SIZE) && !GreedyAfter(ExactRows(seeds), SIZE, SIZE)
    ensures !Onto(Claimed(ExactRows(seeds), SIZE, SIZE), SIZE)
  {
    ExactRowsFill(seeds);
    FullHouseIff(ExactRows(seeds), SIZE);
  }

  /** Backend i starts at slot i; backend 0 goes down from there, the others up. */
  ghost predicate OwnStarts(seeds: seq<RowSeed>) {
    && |seeds| == 0x1_0000
    && forall i :: 0 <= i < |seeds| ==> seeds[i].off == i && seeds[i].skip == (if i == 0 then 65536 else 1)
  }

  lemma OwnSlots(seeds: seq<RowSeed>, order: seq<nat>)
    requires OwnStarts(seeds) && |order| == 0xffff && forall t :: 0 <= t < |order| ==> order[t] == t
    ensures IsGreedyOrder(ExactRows(seeds), order)
  {
    forall t | 0 <= t < |order| ensures GreedyAt(ExactRows(seeds), order, t) {
      assert t % |seeds| == t && ExactRows(seeds)[t][0] == t;
    }
  }

  lemma OwnSlotsMarked(seeds: seq<RowSeed>, order: seq<nat>, lut: seq<u16>)
    requires OwnStarts(seeds) && |order| == 0xffff && forall t :: 0 <= t < |order| ==> order[t] == t
    requires CanFill(ExactRows(seeds), SIZE, 0xffff) && lut == Fill(ExactRows(seeds), SIZE, 0xffff)
    ensures lut[0] != EMPTY && lut[0xffff] == EMPTY && lut[0x1_0000] == EMPTY
  {
    var rows := ExactRows(seeds);
    OwnSlots(seeds, order);
    LeftOver(rows, SIZE, order, 0xffff);
    LeftOver(rows, SIZE, order, 0x1_0000);
    FillIsGreedy(rows, SIZE, 0xffff);
    GreedyOrderIsUnique(rows, order, Claimed(rows, SIZE, 0xffff));
    assert order[0] == 0;
    MarkedIsTaken(rows, order, lut, 0);
  }

  /** For these seeds backend 65535 keeps its slot. */
  lemma FullHouseHappens(seeds: seq<RowSeed>)
    requires OwnStarts(seeds)
    ensures Rows(ExactRows(seeds), SIZE) && GreedyAfter(ExactRows(seeds), SIZE, SIZE)
    ensures Onto(Claimed(ExactRows(seeds), SIZE, SIZE), SIZE)
  {
    var rows := ExactRows(seeds);
    ExactRowsFill(seeds);
    FewerTurns(rows, SIZE, SIZE, 0xffff);
    OwnSlotsMarked(seeds, seq(0xffff, t requires 0 <= t => t), Fill(rows, SIZE, 0xffff));
    assert rows[0xffff][0] == 0xffff && rows[0][0] == 0 && rows[0][1] == 0x1_0000;
    FullHouseIff(rows, SIZE);
  }

  /** With wrapped rows every turn but the last finds its slot. */
  lemma WrappedRowsNearlyFill(seeds: seq<RowSeed>, len: nat, turns: nat)
    requires 0 < |seeds| <= 0x1_0000 && len >= SIZE > turns
    ensures CanFill(WrappedRows(seeds, len), SIZE, turns)
  {
    var rows := WrappedRows(seeds, len);
    forall i | 0 <= i < |seeds| ensures NearlyOnto(rows[i], SIZE) {
      WrappedOntoExcept(seeds[i], len);
      assert OntoExcept(rows[i], SIZE, Missing(seeds[i]));
    }
  }

  /** They find it within the first 65537 entries, so that longer rows lead to the same claims. */
  lemma LongerRowsAgree(seeds: seq<RowSeed>, len: nat)
    requires 0 < |seeds| <= 0x1_0000 && len >= SIZE
    ensures Fill(WrappedRows(seeds, SIZE), SIZE, SIZE - 1) == Fill(WrappedRows(seeds, len), SIZE, SIZE - 1)
    ensures Claimed(WrappedRows(seeds, SIZE), SIZE, SIZE - 1) == Claimed(WrappedRows(seeds, len), SIZE, SIZE - 1)
  {
    var rows, rows' := WrappedRows(seeds, SIZE), WrappedRows(seeds, len);
    forall t | 0 <= t < SIZE - 1 ensures AgreeAt(rows, rows', SIZE, t) {
      WrappedRowsNearlyFill(seeds, SIZE, t + 1);
      LongerRowAgrees(seeds, len, t);
    }
    SameChoicesSameFill(rows, rows', SIZE, SIZE - 1);
  }

  lemma LongerRowAgrees(seeds: seq<RowSeed>, len: nat, t: nat)
    requires 0 < |seeds| <= 0x1_0000 && len >= SIZE > t && CanFill(WrappedRows(seeds, SIZE), SIZE, t + 1)
    ensures AgreeAt(WrappedRows(seeds, SIZE), WrappedRows(seeds, len), SIZE, t)
  {
    ChoiceInRow(WrappedRows(seeds, SIZE), SIZE, t);
    SameStart(seeds, len, t % |seeds|, Choice(WrappedRows(seeds, SIZE), SIZE, t));
  }

  lemma SameStart(seeds: seq<RowSeed>, len: nat, i: nat, j: nat)
    requires i < |seeds| && j < SIZE <= len
    ensures WrappedRows(seeds, SIZE)[i][..j + 1] == WrappedRows(seeds, len)[i][..j + 1]
  {
  }

  // ----- when the fill ends -----

  /** Following a row for this many entries, turn t finds an empty slot. */
  ghost predicate TurnEnds(seeds: seq<RowSeed>, len: nat, t: nat)
    requires 0 < |seeds| <= 0x1_0000
  {
    Choice(WrappedRows(seeds, len), SIZE, t) < len
  }

  /** Rows of this length last for all turns. */
  ghost predicate FillEnds(seeds: seq<RowSeed>, len: nat)
    requires 0 < |seeds| <= 0x1_0000
  {
    len >= SIZE && forall t :: 0 <= t < SIZE ==> TurnEnds(seeds, len, t)
  }

  /** The slot that the last backend can miss has been taken by another before. */
  ghost predicate MissingIsTaken(seeds: seq<RowSeed>)
    requires 0 < |seeds| <= 0x1_0000
  {
    Missing(LastSeed(seeds)) in Claimed(WrappedRows(seeds, SIZE), SIZE, SIZE - 1)
  }

  /** What it takes for the on-the-fly form to end, which follows a row as far as it needs. */
  ghost predicate PopulateEnds(seeds: seq<RowSeed>)
    requires 0 < |seeds| <= 0x1_0000
  {
    LastSeed(seeds).skip != 65536 || MissingIsTaken(seeds)
  }

  /** What it takes for the matrix form, which must not read past entry 65536. */
  ghost predicate MatrixSuffices(seeds: seq<RowSeed>)
    requires 0 < |seeds| <= 0x1_0000
  {
    InBound(LastSeed(seeds)) || MissingIsTaken(seeds)
  }

  /** The last turn finds its slot unless that is the one slot its row misses. */
  lemma LastTurn(seeds: seq<RowSeed>, len: nat)
    requires 0 < |seeds| <= 0xffff && len >= SIZE
    requires Missing(LastSeed(seeds)) !in WrappedRow(LastSeed(seeds), len)
    ensures TurnEnds(seeds, len, SIZE - 1) <==> MissingIsTaken(seeds)
  {
    LongerRowsAgree(seeds, len);
    LastTurnIn(seeds, WrappedRows(seeds, len), len);
  }

  lemma LastTurnIn(seeds: seq<RowSeed>, rows: seq<seq<nat>>, len: nat)
    requires 0 < |seeds| <= 0xffff && len >= SIZE && rows == WrappedRows(seeds, len)
    requires Missing(LastSeed(seeds)) !in WrappedRow(LastSeed(seeds), len)
    ensures Choice(rows, SIZE, SIZE - 1) < len <==> Missing(LastSeed(seeds)) in Claimed(rows, SIZE, SIZE - 1)
  {
    var last := (SIZE - 1) % |rows|;
    WrappedRowsNearlyFill(seeds, len, SIZE - 1);
    WrappedOntoExcept(seeds[last], len);
    assert rows[last] == WrappedRow(LastSeed(seeds), len);
    LastTurnIff(rows, SIZE, Missing(LastSeed(seeds)));
  }

  lemma OntoLastTurn(seeds: seq<RowSeed>, len: nat)
    requires 0 < |seeds| <= 0xffff && len >= SIZE && Onto(WrappedRow(LastSeed(seeds), len), SIZE)
    ensures TurnEnds(seeds, len, SIZE - 1)
  {
    WrappedRowsNearlyFill(seeds, len, SIZE - 1);
    ChoiceExists(WrappedRows(seeds, len), SIZE, SIZE - 1);
  }

  /** The fill ends when its last turn does. */
  lemma LastTurnDecides(seeds: seq<RowSeed>, len: nat)
    requires 0 < |seeds| <= 0xffff && len >= SIZE
    ensures FillEnds(seeds, len) <==> TurnEnds(seeds, len, SIZE - 1)
  {
    forall t | 0 <= t < SIZE - 1 ensures TurnEnds(seeds, len, t) {
      WrappedRowsNearlyFill(seeds, len, t + 1);
      ChoiceInRow(WrappedRows(seeds, len), SIZE, t);
    }
  }

  /** No length of rows contains the slot that is missing in a row of skip 65536. */
  lemma LastTurnNeverEnds(seeds: seq<RowSeed>, len: nat)
    requires 0 < |seeds| <= 0xffff && len >= SIZE && !PopulateEnds(seeds)
    ensures !FillEnds(seeds, len)
  {
    NeverInRow(LastSeed(seeds), len);
    LastTurn(seeds, len);
  }

  lemma PopulateEndsBy(seeds: seq<RowSeed>)
    requires 0 < |seeds| <= 0xffff && PopulateEnds(seeds)
    ensures FillEnds(seeds, FAR + 1)
  {
    LastTurnDecides(seeds, FAR + 1);
    var last := LastSeed(seeds);
    if last.skip != 65536 {
      WrappedOnto(last, FAR + 1);
      OntoLastTurn(seeds, FAR + 1);
    } else {
      NeverInRow(last, FAR + 1);
      LastTurn(seeds, FAR + 1);
    }
  }

  /** Some length of rows lasts for all turns exactly if `PopulateEnds`; else none does, and the loop never ends. */
  lemma PopulateEndsIff(seeds: seq<RowSeed>)
    requires 0 < |seeds| <= 0xffff
    ensures (exists len: nat :: FillEnds(seeds, len)) <==> PopulateEnds(seeds)
  {
    if PopulateEnds(seeds) {
      PopulateEndsBy(seeds);
    } else {
      forall len: nat ensures !FillEnds(seeds, len) {
        if len >= SIZE { LastTurnNeverEnds(seeds, len); }
      }
    }
  }

  lemma PopulateFills(seeds: seq<RowSeed>)
    requires 0 < |seeds| <= 0xffff && PopulateEnds(seeds)
    ensures CanFill(WrappedRows(seeds, FAR + 1), SIZE, SIZE)
  {
    PopulateEndsBy(seeds);
    EndsIsFill(seeds, FAR + 1);
  }

  lemma EndsIsFill(seeds: seq<RowSeed>, len: nat)
    requires 0 < |seeds| <= 0xffff && FillEnds(seeds, len)
    ensures CanFill(WrappedRows(seeds, len), SIZE, SIZE)
  {
    WrappedRowsNearlyFill(seeds, len, SIZE - 1);
    assert TurnEnds(seeds, len, SIZE - 1);
    AllTurns(WrappedRows(seeds, len), SIZE);
  }

  /** The matrix fill stays inside its rows exactly when its last turn does. */
  lemma MatrixSufficesIff(seeds: seq<RowSeed>)
    requires 0 < |seeds| <= 0xffff
    ensures FillEnds(seeds, SIZE) <==> MatrixSuffices(seeds)
    ensures MatrixSuffices(seeds) <==> CanFill(WrappedRows(seeds, SIZE), SIZE, SIZE)
  {
    LastTurnDecides(seeds, SIZE);
    var last := LastSeed(seeds);
    if InBound(last) {
      WrappedOntoExcept(last, SIZE);
      OntoLastTurn(seeds, SIZE);
    } else {
      MissedInRow(last);
      LastTurn(seeds, SIZE);
    }
    WrappedRowsNearlyFill(seeds, SIZE, SIZE - 1);
  }

  /** A single backend: the fill ends exactly when its skip is not 65536. */
  lemma SingleBackendIff(seed: RowSeed)
    ensures PopulateEnds([seed]) <==> seed.skip != 65536
    ensures (exists len: nat :: FillEnds([seed], len)) <==> seed.skip != 65536
  {
    PopulateEndsIff([seed]);
    if seed.skip == 65536 && MissingIsTaken([seed]) {
      ClaimedInRow(seed, SIZE, SIZE - 1, Missing(seed));
      NeverInRow(seed, SIZE);
    }
  }

  lemma {:induction false} ClaimedInRow(seed: RowSeed, len: nat, t: nat, c: nat)
    requires c in Claimed(WrappedRows([seed], len), SIZE, t)
    ensures c in WrappedRow(seed, len)
    decreases t
  {
    var rows := WrappedRows([seed], len);
    assert rows[(t - 1) % 1] == WrappedRow(seed, len);
    if c in Claimed(rows, SIZE, t - 1) { ClaimedInRow(seed, len, t - 1, c); }
  }

  // ----- one table for all forms -----

  /** Following the rows further than 65537 entries changes nothing. */
  lemma SameTableAnyLength(seeds: seq<RowSeed>, len: nat)
    requires 0 < |seeds| <= 0xffff && len >= SIZE && MatrixSuffices(seeds)
    ensures Fill(WrappedRows(seeds, SIZE), SIZE, SIZE) == Fill(WrappedRows(seeds, len), SIZE, SIZE)
    ensures CanFill(WrappedRows(seeds, len), SIZE, SIZE)
  {
    MatrixSufficesIff(seeds);
    WrappedRowsNearlyFill(seeds, len, SIZE - 1);
    forall t | 0 <= t < SIZE ensures AgreeAt(WrappedRows(seeds, SIZE), WrappedRows(seeds, len), SIZE, t) {
      FewerTurns(WrappedRows(seeds, SIZE), SIZE, SIZE, t + 1);
      LongerRowAgrees(seeds, len, t);
    }
    SameTable(WrappedRows(seeds, SIZE), WrappedRows(seeds, len), SIZE);
  }
}
