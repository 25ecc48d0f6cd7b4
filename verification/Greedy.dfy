/**
 The greedy fill that all forms of the Maglev table share: at turn t, backend t mod n takes the
 first slot of its row whose mark in the lookup table is still EMPTY.

 `Fill` is that fill as a function of the table alone.  `IsGreedyOrder` is the reference: the
 order in which slots are claimed, in terms of claims and not of marks.  `FillIsGreedy` and
 `GreedyOrderIsUnique` say that the fill computes the one greedy order; `Balance` counts slots.
 */
module Greedy {
  import opened Bits
  import opened Counting
  import Arithmetic

  const EMPTY: u16 := 0xffff

  /** Rows of slots below m, one for each backend; 65536 is the most that the programs admit. */
  ghost predicate Rows(rows: seq<seq<nat>>, m: nat) {
    0 < |rows| <= 0x1_0000 &&
    forall i, j :: 0 <= i < |rows| && 0 <= j < |rows[i]| ==> rows[i][j] < m
  }

  ghost predicate Onto(row: seq<nat>, m: nat) {
    forall c: nat :: c < m ==> c in row
  }

  /** The row misses no slot below m but x. */
  ghost predicate OntoExcept(row: seq<nat>, m: nat, x: nat) {
    forall c: nat :: c < m && c != x ==> c in row
  }

  ghost predicate NearlyOnto(row: seq<nat>, m: nat) {
    exists x: nat :: OntoExcept(row, m, x)
  }

  /** Rows for this many turns: each misses at most one slot, and the last turn finds its one. */
  ghost predicate CanFill(rows: seq<seq<nat>>, m: nat, turns: nat) {
    && Rows(rows, m) && turns <= m
    && (forall i :: 0 <= i < |rows| ==> NearlyOnto(rows[i], m))
    && (turns == m > 0 ==> Choice(rows, m, m - 1) < |rows[(m - 1) % |rows|]|)
  }

  function FirstEmpty(row: seq<nat>, lut: seq<u16>, from: nat): (j: nat)
    requires from <= |row| && forall k :: 0 <= k < |row| ==> row[k] < |lut|
    ensures from <= j <= |row|
    ensures forall k :: from <= k < j ==> lut[row[k]] != EMPTY
    ensures j < |row| ==> lut[row[j]] == EMPTY
    decreases |row| - from, lut
  {
    if from == |row| || lut[row[from]] == EMPTY then from else FirstEmpty(row, lut, from + 1)
  }

  ghost function Turn(rows: seq<seq<nat>>, m: nat, lut: seq<u16>, t: nat): (lut': seq<u16>)
    requires Rows(rows, m) && |lut| == m
    ensures |lut'| == m
  {
    var row := rows[t % |rows|];
    var j := FirstEmpty(row, lut, 0);
    if j == |row| then lut else lut[row[j] := t % |rows|]
  }

  function Blank(m: nat): seq<u16> {
    seq(m, _ => EMPTY)
  }

  /** The table after t turns. */
  ghost function Fill(rows: seq<seq<nat>>, m: nat, t: nat): (lut: seq<u16>)
    requires Rows(rows, m)
    ensures |lut| == m
    decreases t, rows
  {
    if t == 0 then Blank(m) else Turn(rows, m, Fill(rows, m, t - 1), t - 1)
  }

  /** The position in its row of the slot that backend t mod n takes at turn t. */
  ghost function Choice(rows: seq<seq<nat>>, m: nat, t: nat): nat
    requires Rows(rows, m)
  {
    FirstEmpty(rows[t % |rows|], Fill(rows, m, t), 0)
  }

  /** The slots claimed in the first t turns, in order. */
  ghost function Claimed(rows: seq<seq<nat>>, m: nat, t: nat): (order: seq<nat>)
    requires Rows(rows, m)
    ensures |order| <= t && forall c :: c in order ==> c < m
    decreases t, rows
  {
    if t == 0 then []
    else
      var row, j := rows[(t - 1) % |rows|], Choice(rows, m, t - 1);
      Claimed(rows, m, t - 1) + (if j < |row| then [row[j]] else [])
  }

  lemma {:induction false} UnclaimedIsEmpty(rows: seq<seq<nat>>, m: nat, t: nat, c: nat)
    requires Rows(rows, m) && c < m && c !in Claimed(rows, m, t)
    ensures Fill(rows, m, t)[c] == EMPTY
    decreases t
  {
    if t > 0 { UnclaimedIsEmpty(rows, m, t - 1, c); }
  }

  // ----- the fill never runs out of row -----

  /** All slots outside the list are empty. */
  ghost predicate EmptyOutside(lut: seq<u16>, taken: seq<nat>) {
    forall c :: 0 <= c < |lut| && c !in taken ==> lut[c] == EMPTY
  }

  lemma EmptyInRow(row: seq<nat>, lut: seq<u16>, taken: seq<nat>, x: nat)
    requires forall k :: 0 <= k < |row| ==> row[k] < |lut|
    requires OntoExcept(row, |lut|, x) && EmptyOutside(lut, taken)
    requires |taken| + 1 < |lut| || (|taken| < |lut| && Onto(row, |lut|))
    ensures FirstEmpty(row, lut, 0) < |row|
  {
    var c: nat;
    if |taken| + 1 < |lut| {
      c := Pigeonhole(taken + [x], |lut|);
      assert x in taken + [x] && c !in taken;
    } else {
      c := Pigeonhole(taken, |lut|);
    }
    assert c in row;
    var k :| 0 <= k < |row| && row[k] == c;
  }

  /** After t turns some slot besides the others is empty. */
  lemma AnotherEmpty(rows: seq<seq<nat>>, m: nat, t: nat, others: seq<nat>) returns (c: nat)
    requires Rows(rows, m) && t + |others| < m
    ensures c < m && c !in others && Fill(rows, m, t)[c] == EMPTY
  {
    c := Pigeonhole(Claimed(rows, m, t) + others, m);
    UnclaimedIsEmpty(rows, m, t, c);
  }

  lemma ClaimsLeaveEmpty(rows: seq<seq<nat>>, m: nat, t: nat)
    requires Rows(rows, m)
    ensures EmptyOutside(Fill(rows, m, t), Claimed(rows, m, t))
  {
    forall c | 0 <= c < m && c !in Claimed(rows, m, t) ensures Fill(rows, m, t)[c] == EMPTY {
      UnclaimedIsEmpty(rows, m, t, c);
    }
  }

  /**
   At every turn the backend whose turn it is finds a slot, as long as rows miss at most one slot
   each, and the row of the last turn none.
   */
  lemma ChoiceExists(rows: seq<seq<nat>>, m: nat, t: nat)
    requires t < m && CanFill(rows, m, t)
    requires t == m - 1 ==> Onto(rows[t % |rows|], m)
    ensures Choice(rows, m, t) < |rows[t % |rows|]| && CanFill(rows, m, t + 1)
  {
    var i := t % |rows|;
    ClaimsLeaveEmpty(rows, m, t);
    assert NearlyOnto(rows[i], m);
    var x: nat :| OntoExcept(rows[i], m, x);
    EmptyInRow(rows[i], Fill(rows, m, t), Claimed(rows, m, t), x);
  }

  /** The same where the last turn is known to find its slot. */
  lemma ChoiceInRow(rows: seq<seq<nat>>, m: nat, t: nat)
    requires t < m && CanFill(rows, m, t + 1)
    ensures Choice(rows, m, t) < |rows[t % |rows|]|
  {
    if t < m - 1 { ChoiceExists(rows, m, t); }
  }

  lemma AllTurns(rows: seq<seq<nat>>, m: nat)
    requires m > 0 && CanFill(rows, m, m - 1) && Choice(rows, m, m - 1) < |rows[(m - 1) % |rows|]|
    ensures CanFill(rows, m, m)
  {
  }

  lemma FewerTurns(rows: seq<seq<nat>>, m: nat, turns: nat, t: nat)
    requires CanFill(rows, m, turns) && t <= turns
    ensures CanFill(rows, m, t)
  {
  }

  /** What a turn does once its slot is known. */
  lemma TurnClaims(rows: seq<seq<nat>>, m: nat, t: nat) returns (i: u16, slot: nat)
    requires t < m && CanFill(rows, m, t + 1)
    ensures i == t % |rows| && Choice(rows, m, t) < |rows[i]| && slot == rows[i][Choice(rows, m, t)]
    ensures slot < m && Fill(rows, m, t)[slot] == EMPTY
    ensures Fill(rows, m, t + 1) == Fill(rows, m, t)[slot := i]
    ensures Claimed(rows, m, t + 1) == Claimed(rows, m, t) + [slot]
    ensures forall k :: 0 <= k < Choice(rows, m, t) ==> rows[i][k] in Claimed(rows, m, t)
  {
    ChoiceInRow(rows, m, t);
    i := t % |rows|;
    slot := rows[i][Choice(rows, m, t)];
    forall k | 0 <= k < Choice(rows, m, t) ensures rows[i][k] in Claimed(rows, m, t) {
      if rows[i][k] !in Claimed(rows, m, t) { UnclaimedIsEmpty(rows, m, t, rows[i][k]); }
    }
  }

  /** The row meets slot c at index j, before any other empty slot. */
  ghost predicate Meets(row: seq<nat>, lut: seq<u16>, j: nat, c: nat) {
    && j < |row| && row[j] == c < |lut| && lut[c] == EMPTY
    && forall k :: 0 <= k < j ==> row[k] < |lut| && lut[row[k]] != EMPTY
  }

  lemma TurnTakes(rows: seq<seq<nat>>, m: nat, t: nat, j: nat, c: nat)
    requires Rows(rows, m) && Meets(rows[t % |rows|], Fill(rows, m, t), j, c)
    ensures Fill(rows, m, t + 1) == Fill(rows, m, t)[c := t % |rows|]
  {
  }

  // ----- the fill is the greedy one -----

  /** The backend of turn t prefers no slot that is still free to the one it claims. */
  ghost predicate GreedyAt(rows: seq<seq<nat>>, order: seq<nat>, t: nat)
    requires |rows| > 0 && t < |order|
  {
    var row := rows[t % |rows|];
    exists j :: 0 <= j < |row| && row[j] == order[t] && forall k :: 0 <= k < j ==> row[k] in order[..t]
  }

  ghost predicate IsGreedyOrder(rows: seq<seq<nat>>, order: seq<nat>)
    requires |rows| > 0
  {
    Distinct(order) && forall t :: 0 <= t < |order| ==> GreedyAt(rows, order, t)
  }

  /** The slot claimed at turn s carries the backend whose turn it was. */
  ghost predicate MarkAt(rows: seq<seq<nat>>, order: seq<nat>, lut: seq<u16>, s: nat)
    requires |rows| > 0 && s < |order|
  {
    order[s] < |lut| && lut[order[s]] == s % |rows|
  }

  ghost predicate Marks(rows: seq<seq<nat>>, order: seq<nat>, lut: seq<u16>)
    requires |rows| > 0
  {
    forall s :: 0 <= s < |order| ==> MarkAt(rows, order, lut, s)
  }

  /** None of the first t turns is one of backend 65535, whose mark is EMPTY. */
  predicate Visible(n: nat, t: nat) {
    0 < n <= 0xffff || (n == 0x1_0000 && t <= 0xffff)
  }

  lemma MarkedIsTaken(rows: seq<seq<nat>>, order: seq<nat>, lut: seq<u16>, x: nat)
    requires Visible(|rows|, |order|) && Marks(rows, order, lut) && x in order
    ensures x < |lut| && lut[x] < |rows| && lut[x] != EMPTY
  {
    var s :| 0 <= s < |order| && order[s] == x;
    assert MarkAt(rows, order, lut, s);
    if |rows| == 0x1_0000 { assert s % 0x1_0000 == s; }
  }

  ghost predicate GreedyAfter(rows: seq<seq<nat>>, m: nat, t: nat)
    requires Rows(rows, m)
  {
    && |Claimed(rows, m, t)| == t
    && IsGreedyOrder(rows, Claimed(rows, m, t))
    && Marks(rows, Claimed(rows, m, t), Fill(rows, m, t))
  }

  lemma TurnIsGreedy(rows: seq<seq<nat>>, m: nat, t: nat)
    requires t < m && CanFill(rows, m, t + 1) && Visible(|rows|, t + 1) && GreedyAfter(rows, m, t)
    ensures GreedyAfter(rows, m, t + 1)
  {
    var i, slot := TurnClaims(rows, m, t);
    var before := Claimed(rows, m, t);
    NextMarks(rows, before, Fill(rows, m, t), slot, i);
    OneMoreClaim(rows, before, slot, Choice(rows, m, t));
  }

  /** As long as all marks are visible, the fill makes the greedy claims and marks them. */
  lemma {:induction false} FillIsGreedy(rows: seq<seq<nat>>, m: nat, t: nat)
    requires CanFill(rows, m, t) && Visible(|rows|, t)
    ensures GreedyAfter(rows, m, t)
    decreases t
  {
    if t > 0 {
      FillIsGreedy(rows, m, t - 1);
      TurnIsGreedy(rows, m, t - 1);
    }
  }

  /** A slot whose mark is empty is new, and marking it leaves the other marks. */
  lemma NextMarks(rows: seq<seq<nat>>, before: seq<nat>, lut: seq<u16>, slot: nat, i: u16)
    requires Visible(|rows|, |before|) && Marks(rows, before, lut)
    requires slot < |lut| && lut[slot] == EMPTY && i == |before| % |rows|
    ensures slot !in before && Marks(rows, before + [slot], lut[slot := i])
  {
    if slot in before { MarkedIsTaken(rows, before, lut, slot); }
    var order, lut' := before + [slot], lut[slot := i];
    forall s | 0 <= s < |order| ensures MarkAt(rows, order, lut', s) {
      if s < |before| { assert MarkAt(rows, before, lut, s); }
    }
  }

  lemma OneMoreClaim(rows: seq<seq<nat>>, before: seq<nat>, slot: nat, j: nat)
    requires |rows| > 0 && IsGreedyOrder(rows, before) && slot !in before
    requires var row := rows[|before| % |rows|];
      j < |row| && row[j] == slot && forall k :: 0 <= k < j ==> row[k] in before
    ensures IsGreedyOrder(rows, before + [slot])
  {
    var order := before + [slot];
    forall s | 0 <= s < |order| ensures GreedyAt(rows, order, s) {
      if s < |before| {
        assert GreedyAt(rows, before, s);
        assert order[..s] == before[..s];
      } else {
        assert order[..s] == before;
      }
    }
  }

  /** Rows and turn order determine the greedy order, and with it the table. */
  lemma {:induction false} GreedyOrderIsUnique(rows: seq<seq<nat>>, a: seq<nat>, b: seq<nat>)
    requires |rows| > 0 && |a| == |b| && IsGreedyOrder(rows, a) && IsGreedyOrder(rows, b)
    ensures a == b
    decreases |a|
  {
    if a != [] {
      var t := |a| - 1;
      GreedyPrefix(rows, a);
      GreedyPrefix(rows, b);
      GreedyOrderIsUnique(rows, a[..t], b[..t]);
      var row := rows[t % |rows|];
      assert GreedyAt(rows, a, t) && GreedyAt(rows, b, t);
      var j :| 0 <= j < |row| && row[j] == a[t] && forall k :: 0 <= k < j ==> row[k] in a[..t];
      var j' :| 0 <= j' < |row| && row[j'] == b[t] && forall k :: 0 <= k < j' ==> row[k] in b[..t];
      assert a[t] !in a[..t] && b[t] !in b[..t];
      assert a == a[..t] + [a[t]] && b == b[..t] + [b[t]];
    }
  }

  lemma GreedyPrefix(rows: seq<seq<nat>>, order: seq<nat>)
    requires |rows| > 0 && order != [] && IsGreedyOrder(rows, order)
    ensures IsGreedyOrder(rows, order[..|order| - 1])
  {
    var init := order[..|order| - 1];
    forall s | 0 <= s < |init| ensures GreedyAt(rows, init, s) {
      assert GreedyAt(rows, order, s);
      assert init[..s] == order[..s];
    }
  }

  /** In a row without repetitions, a slot preferred to the one claimed was claimed at an earlier turn. */
  lemma PreferredWasClaimed(rows: seq<seq<nat>>, order: seq<nat>, t: nat, j: nat, k: nat)
    requires |rows| > 0 && t < |order| && IsGreedyOrder(rows, order) && Distinct(rows[t % |rows|])
    requires k < j < |rows[t % |rows|]| && rows[t % |rows|][j] == order[t]
    ensures exists s :: 0 <= s < t && order[s] == rows[t % |rows|][k]
  {
    assert GreedyAt(rows, order, t);
    assert rows[t % |rows|][k] in order[..t];
  }

  /** Whatever greedy order of all slots one finds, the finished table is the one it describes. */
  lemma TableIsDetermined(rows: seq<seq<nat>>, m: nat, order: seq<nat>)
    requires CanFill(rows, m, m) && |rows| <= 0xffff && |order| == m && IsGreedyOrder(rows, order)
    ensures Marks(rows, order, Fill(rows, m, m))
  {
    FillIsGreedy(rows, m, m);
    GreedyOrderIsUnique(rows, order, Claimed(rows, m, m));
  }

  /** The slots outside a greedy order of some length are empty after as many turns. */
  lemma LeftOver(rows: seq<seq<nat>>, m: nat, order: seq<nat>, c: nat)
    requires CanFill(rows, m, |order|) && Visible(|rows|, |order|) && IsGreedyOrder(rows, order)
    requires c < m && c !in order
    ensures Fill(rows, m, |order|)[c] == EMPTY
  {
    FillIsGreedy(rows, m, |order|);
    GreedyOrderIsUnique(rows, order, Claimed(rows, m, |order|));
    UnclaimedIsEmpty(rows, m, |order|, c);
  }

  /** Every slot of the finished table was claimed, and holds a backend. */
  lemma TableIsFull(rows: seq<seq<nat>>, m: nat)
    requires CanFill(rows, m, m)
    ensures |rows| <= 0xffff ==> Onto(Claimed(rows, m, m), m)
    ensures forall c :: 0 <= c < m ==> Fill(rows, m, m)[c] < |rows|
  {
    if |rows| <= 0xffff {
      var order, lut := Claimed(rows, m, m), Fill(rows, m, m);
      FillIsGreedy(rows, m, m);
      forall c: nat | c < m ensures c in order && lut[c] < |rows| {
        InjectiveIsOnto(order, m, c);
        MarkedIsTaken(rows, order, lut, c);
      }
    }
  }

  /** The table that rows and turn order determine, in terms of claims alone. */
  ghost predicate IsGreedyTable(rows: seq<seq<nat>>, m: nat, lut: seq<u16>) {
    |rows| > 0 && exists order: seq<nat> :: |order| == m && IsGreedyOrder(rows, order) && Marks(rows, order, lut)
  }

  lemma FillIsGreedyTable(rows: seq<seq<nat>>, m: nat)
    requires CanFill(rows, m, m) && |rows| <= 0xffff
    ensures IsGreedyTable(rows, m, Fill(rows, m, m))
  {
    FillIsGreedy(rows, m, m);
  }

  /** Backend 0 gets the slot it likes best, and keeps it. */
  lemma {:induction false} FirstSlot(rows: seq<seq<nat>>, m: nat, t: nat)
    requires CanFill(rows, m, t) && t > 0
    ensures |rows[0]| > 0 && rows[0][0] < m && Fill(rows, m, t)[rows[0][0]] == 0
    decreases t
  {
    FewerTurns(rows, m, t, t - 1);
    var i, slot := TurnClaims(rows, m, t - 1);
    if t > 1 {
      FirstSlot(rows, m, t - 1);
    } else {
      assert Fill(rows, m, 0) == Blank(m);
    }
  }

  // ----- the one backend too many -----

  /** Where row i has its first slot that is still empty after 65535 turns. */
  ghost function Preferred(rows: seq<seq<nat>>, m: nat, i: nat): nat
    requires Rows(rows, m) && i < |rows|
  {
    FirstEmpty(rows[i], Fill(rows, m, 0xffff), 0)
  }

  /**
   With 65536 backends the mark of the last one is EMPTY itself, so its slot still looks free to
   backend 0, which moves next.  The table is the greedy one, and every slot is claimed, exactly
   when after 65535 turns those two prefer different slots.
   */
  lemma FullHouseIff(rows: seq<seq<nat>>, m: nat)
    requires |rows| == 0x1_0000 && m == 0x1_0001 && CanFill(rows, m, m)
    ensures var j, k := Preferred(rows, m, 0xffff), Preferred(rows, m, 0);
      && j < |rows[0xffff]| && k < |rows[0]|
      && (GreedyAfter(rows, m, m) <==> rows[0xffff][j] != rows[0][k])
      && (Onto(Claimed(rows, m, m), m) <==> rows[0xffff][j] != rows[0][k])
  {
    FillIsGreedy(rows, m, 0xffff);
    var before, lut := Claimed(rows, m, 0xffff), Fill(rows, m, 0xffff);
    var i, a := TurnClaims(rows, m, 0xffff);
    assert Fill(rows, m, 0x1_0000) == lut;
    var k, b := TurnClaims(rows, m, 0x1_0000);
    TwoMoreClaims(rows, before, lut, a, b, Choice(rows, m, 0xffff), Choice(rows, m, 0x1_0000));
    LastTwoClaims(before, a, b, m);
  }

  /** All slots are claimed exactly when none is claimed twice. */
  lemma LastTwoClaims(before: seq<nat>, a: nat, b: nat, m: nat)
    requires |before| + 2 == m && Distinct(before) && a !in before && b !in before
    requires forall c :: c in before + [a] + [b] ==> c < m
    ensures Onto(before + [a] + [b], m) <==> a != b
  {
    if a != b {
      forall c: nat | c < m ensures c in before + [a] + [b] {
        InjectiveIsOnto(before + [a] + [b], m, c);
      }
    } else {
      var c := Pigeonhole(before + [a], m);
      assert c !in before + [a] + [b];
    }
  }

  lemma TwoMoreClaims(rows: seq<seq<nat>>, before: seq<nat>, lut: seq<u16>, a: nat, b: nat, j: nat, k: nat)
    requires |rows| == 0x1_0000 && |before| == 0xffff && IsGreedyOrder(rows, before) && Marks(rows, before, lut)
    requires a < |lut| && lut[a] == EMPTY && b < |lut| && lut[b] == EMPTY
    requires j < |rows[0xffff]| && rows[0xffff][j] == a && forall x :: 0 <= x < j ==> rows[0xffff][x] in before
    requires k < |rows[0]| && rows[0][k] == b && forall x :: 0 <= x < k ==> rows[0][x] in before + [a]
    ensures a !in before && b !in before
    ensures var order := before + [a] + [b];
      IsGreedyOrder(rows, order) && Marks(rows, order, lut[b := 0]) <==> a != b
  {
    var order, lut' := before + [a] + [b], lut[b := 0];
    NextMarks(rows, before, lut, a, 0xffff);
    OneMoreClaim(rows, before, a, j);
    if b in before { MarkedIsTaken(rows, before, lut, b); }
    if a != b {
      OneMoreClaim(rows, before + [a], b, k);
      forall s | 0 <= s < |order| ensures MarkAt(rows, order, lut', s) {
        if s < |before| { assert MarkAt(rows, before, lut, s); }
      }
    } else {
      assert order[0xffff] == order[0x1_0000];
    }
  }

  ghost predicate OnlyEmpty(lut: seq<u16>, c: nat) {
    forall x :: 0 <= x < |lut| ==> (lut[x] == EMPTY <==> x == c)
  }

  /** A row without x that reaches all other slots finds the one empty slot unless that is x. */
  lemma FindsUnless(row: seq<nat>, lut: seq<u16>, c: nat, x: nat)
    requires OnlyEmpty(lut, c) && c < |lut| && OntoExcept(row, |lut|, x) && x !in row
    requires forall k :: 0 <= k < |row| ==> row[k] < |lut|
    ensures FirstEmpty(row, lut, 0) < |row| <==> c != x
  {
    if c != x {
      assert c in row;
    }
  }

  /** Before the last turn exactly one slot is empty. */
  lemma OneSlotLeft(rows: seq<seq<nat>>, m: nat) returns (c: nat)
    requires m > 0 && CanFill(rows, m, m - 1) && |rows| <= 0xffff
    ensures c < m && c !in Claimed(rows, m, m - 1)
    ensures OnlyEmpty(Fill(rows, m, m - 1), c)
  {
    var order, lut := Claimed(rows, m, m - 1), Fill(rows, m, m - 1);
    FillIsGreedy(rows, m, m - 1);
    c := Pigeonhole(order, m);
    UnclaimedIsEmpty(rows, m, m - 1, c);
    OthersAreTaken(rows, order, lut, c);
  }

  /** The last turn finds its slot unless that is the one slot x that its row misses. */
  lemma LastTurnIff(rows: seq<seq<nat>>, m: nat, x: nat)
    requires m > 0 && CanFill(rows, m, m - 1) && |rows| <= 0xffff && x < m
    requires OntoExcept(rows[(m - 1) % |rows|], m, x) && x !in rows[(m - 1) % |rows|]
    ensures Choice(rows, m, m - 1) < |rows[(m - 1) % |rows|]| <==> x in Claimed(rows, m, m - 1)
  {
    var row, lut := rows[(m - 1) % |rows|], Fill(rows, m, m - 1);
    var c := OneSlotLeft(rows, m);
    assert c == x <==> x !in Claimed(rows, m, m - 1) by {
      if x !in Claimed(rows, m, m - 1) { UnclaimedIsEmpty(rows, m, m - 1, x); }
    }
    FindsUnless(row, lut, c, x);
  }

  lemma OthersAreTaken(rows: seq<seq<nat>>, order: seq<nat>, lut: seq<u16>, c: nat)
    requires 0 < |rows| <= 0xffff && Marks(rows, order, lut) && Distinct(order)
    requires |order| + 1 == |lut| && c < |lut| && c !in order && lut[c] == EMPTY
    ensures OnlyEmpty(lut, c)
  {
    assert forall y :: y in order ==> y < |lut| by {
      forall y | y in order ensures y < |lut| { MarkedIsTaken(rows, order, lut, y); }
    }
    forall x: nat | x < |lut| && x != c ensures lut[x] != EMPTY {
      AllButOne(order, |lut|, c, x);
      MarkedIsTaken(rows, order, lut, x);
    }
  }

  /** The last turn fills the one slot that is left, whatever its row. */
  lemma LastSlot(rows: seq<seq<nat>>, m: nat, c: nat)
    requires m > 0 && CanFill(rows, m, m) && |rows| <= 0xffff
    requires c < m && Fill(rows, m, m - 1)[c] == EMPTY
    ensures Fill(rows, m, m) == Fill(rows, m, m - 1)[c := (m - 1) % |rows|]
    ensures c in rows[(m - 1) % |rows|]
  {
    FewerTurns(rows, m, m, m - 1);
    var only := OneSlotLeft(rows, m);
    OnlyTurn(rows, m, c);
  }

  lemma OnlyTurn(rows: seq<seq<nat>>, m: nat, c: nat)
    requires m > 0 && CanFill(rows, m, m) && OnlyEmpty(Fill(rows, m, m - 1), c)
    ensures c < m && Fill(rows, m, m) == Fill(rows, m, m - 1)[c := (m - 1) % |rows|]
    ensures c in rows[(m - 1) % |rows|]
  {
    var i, slot := TurnClaims(rows, m, m - 1);
    assert slot == c;
  }

  lemma SameLastTurn(rows: seq<seq<nat>>, rows': seq<seq<nat>>, m: nat)
    requires m > 0 && CanFill(rows, m, m) && CanFill(rows', m, m) && |rows| == |rows'| <= 0xffff
    requires Fill(rows, m, m - 1) == Fill(rows', m, m - 1)
    ensures Fill(rows, m, m) == Fill(rows', m, m)
  {
    FewerTurns(rows, m, m, m - 1);
    var c := OneSlotLeft(rows, m);
    LastSlot(rows, m, c);
    LastSlot(rows', m, c);
  }

  /** The last two turns, when the first of them takes x of the two slots that are left. */
  lemma LastTwoTurns(rows: seq<seq<nat>>, m: nat, j: nat, x: nat, y: nat)
    requires m >= 2 && CanFill(rows, m, m) && |rows| <= 0xffff && x != y && y < m
    requires Meets(rows[(m - 2) % |rows|], Fill(rows, m, m - 2), j, x) && Fill(rows, m, m - 2)[y] == EMPTY
    ensures Fill(rows, m, m) == Fill(rows, m, m - 2)[x := (m - 2) % |rows|][y := (m - 1) % |rows|]
    ensures y in rows[(m - 1) % |rows|]
  {
    TurnTakes(rows, m, m - 2, j, x);
    LastSlot(rows, m, y);
  }

  /** Before the last two turns no more than two slots are empty. */
  lemma TakenButTwo(rows: seq<seq<nat>>, m: nat, x: nat, y: nat, c: nat)
    requires m >= 2 && CanFill(rows, m, m - 2) && |rows| <= 0xffff
    requires x < m && y < m && c < m && x != y && x != c && y != c
    requires Fill(rows, m, m - 2)[x] == EMPTY && Fill(rows, m, m - 2)[y] == EMPTY
    ensures Fill(rows, m, m - 2)[c] != EMPTY
  {
    var order, lut := Claimed(rows, m, m - 2), Fill(rows, m, m - 2);
    FillIsGreedy(rows, m, m - 2);
    OnlyTaken(rows, order, lut, x, y, c);
  }

  lemma OnlyTaken(rows: seq<seq<nat>>, order: seq<nat>, lut: seq<u16>, x: nat, y: nat, c: nat)
    requires 0 < |rows| <= 0xffff && Marks(rows, order, lut) && Distinct(order) && |order| + 2 == |lut|
    requires forall z :: z in order ==> z < |lut|
    requires x < |lut| && y < |lut| && c < |lut| && x != y && x != c && y != c
    requires lut[x] == EMPTY && lut[y] == EMPTY
    ensures lut[c] != EMPTY
  {
    if x in order { MarkedIsTaken(rows, order, lut, x); }
    if y in order { MarkedIsTaken(rows, order, lut, y); }
    InjectiveIsOnto(order + [x, y], |lut|, c);
    MarkedIsTaken(rows, order, lut, c);
  }

  // ----- balance -----

  /** How many of the turns 0 .. t are those of backend i. */
  function Share(n: nat, t: nat, i: nat): nat
    requires n > 0
    decreases t, n
  {
    if t == 0 then 0 else Share(n, t - 1, i) + (if (t - 1) % n == i then 1 else 0)
  }

  lemma NextTurn(n: nat, t: nat, u: nat)
    requires n > 0 && u == t + 1
    ensures u % n == if t % n == n - 1 then 0 else t % n + 1
    ensures u / n == if t % n == n - 1 then t / n + 1 else t / n
  {
    var q, r := t / n, t % n;
    assert t == n * q + r;
    if r == n - 1 {
      assert n * (q + 1) == n * q + n;
      Arithmetic.DivModUnique(u, n, q + 1, 0);
    } else {
      Arithmetic.DivModUnique(u, n, q, r + 1);
    }
  }

  /** That is floor(t / n), and one more if i < t mod n. */
  lemma {:induction false} ShareValue(n: nat, t: nat, i: nat)
    requires i < n
    ensures Share(n, t, i) == t / n + (if i < t % n then 1 else 0)
    decreases t
  {
    if t == 0 {
      Arithmetic.DivModUnique(0, n, 0, 0);
    } else {
      ShareValue(n, t - 1, i);
      NextTurn(n, t - 1, t);
    }
  }

  ghost predicate IsShare(rows: seq<seq<nat>>, m: nat, t: nat, i: u16)
    requires Rows(rows, m)
  {
    multiset(Fill(rows, m, t))[i] == Share(|rows|, t, i)
  }

  lemma TurnKeepsShare(rows: seq<seq<nat>>, m: nat, t: nat, i: u16)
    requires t < m && CanFill(rows, m, t + 1) && i < |rows| && i != EMPTY
    requires IsShare(rows, m, t, i)
    ensures IsShare(rows, m, t + 1, i)
  {
    var k, slot := TurnClaims(rows, m, t);
    CountUpdate(Fill(rows, m, t), slot, k, i);
  }

  lemma ShareAtStart(rows: seq<seq<nat>>, m: nat, i: u16)
    requires Rows(rows, m) && i < |rows| && i != EMPTY
    ensures IsShare(rows, m, 0, i)
  {
    assert i !in Fill(rows, m, 0);
  }

  /** After any number of turns, each backend with a visible mark owns exactly its share of slots. */
  lemma {:induction false} Balance(rows: seq<seq<nat>>, m: nat, t: nat, i: u16)
    requires CanFill(rows, m, t) && i < |rows| && i != EMPTY
    ensures IsShare(rows, m, t, i)
    decreases t
  {
    if t == 0 {
      ShareAtStart(rows, m, i);
    } else {
      FewerTurns(rows, m, t, t - 1);
      Balance(rows, m, t - 1, i);
      TurnKeepsShare(rows, m, t - 1, i);
    }
  }

  lemma CountUpdate(lut: seq<u16>, slot: nat, k: u16, i: u16)
    requires slot < |lut| && lut[slot] != i
    ensures multiset(lut[slot := k])[i] == multiset(lut)[i] + (if k == i then 1 else 0)
  {
  }

  /** The turns whose mark is EMPTY itself: those of backend 65535, if there is one. */
  function Unmarked(n: nat, t: nat): nat
    requires n > 0
  {
    if n == 0x1_0000 then Share(n, t, EMPTY) else 0
  }

  ghost predicate IsRest(rows: seq<seq<nat>>, m: nat, t: nat)
    requires Rows(rows, m)
  {
    multiset(Fill(rows, m, t))[EMPTY] + t == m + Unmarked(|rows|, t)
  }

  lemma TurnKeepsRest(rows: seq<seq<nat>>, m: nat, t: nat)
    requires t < m && CanFill(rows, m, t + 1) && IsRest(rows, m, t)
    ensures IsRest(rows, m, t + 1)
  {
    var k, slot := TurnClaims(rows, m, t);
    RestUpdate(Fill(rows, m, t), slot, k);
  }

  lemma RestUpdate(lut: seq<u16>, slot: nat, k: u16)
    requires slot < |lut| && lut[slot] == EMPTY
    ensures multiset(lut[slot := k])[EMPTY] == multiset(lut)[EMPTY] - (if k == EMPTY then 0 else 1)
  {
  }

  lemma {:induction false} RestAtStart(m: nat)
    ensures multiset(Blank(m))[EMPTY] == m
  {
    if m > 0 {
      RestAtStart(m - 1);
      assert Blank(m) == Blank(m - 1) + [EMPTY];
    }
  }

  lemma NoTurnsIsRest(rows: seq<seq<nat>>, m: nat)
    requires Rows(rows, m)
    ensures IsRest(rows, m, 0)
  {
    RestAtStart(m);
  }

  lemma {:induction false} Rest(rows: seq<seq<nat>>, m: nat, t: nat)
    requires CanFill(rows, m, t)
    ensures IsRest(rows, m, t)
    decreases t
  {
    if t == 0 {
      NoTurnsIsRest(rows, m);
    } else {
      FewerTurns(rows, m, t, t - 1);
      Rest(rows, m, t - 1);
      TurnKeepsRest(rows, m, t - 1);
    }
  }

  /** The finished table is exactly balanced, for every number of backends that is admitted. */
  lemma ExactBalance(rows: seq<seq<nat>>, m: nat, i: u16)
    requires CanFill(rows, m, m) && i < |rows|
    ensures multiset(Fill(rows, m, m))[i] == m / |rows| + (if i < m % |rows| then 1 else 0)
  {
    ShareValue(|rows|, m, i);
    if i == EMPTY {
      Rest(rows, m, m);
    } else {
      Balance(rows, m, m, i);
    }
  }

  /**
   At every turn any two backends differ by at most one slot.  The mark of backend 65535 tells its
   slot from the empty ones only in the finished table.
   */
  lemma NearlyEqual(rows: seq<seq<nat>>, m: nat, t: nat, i: u16, k: u16)
    requires CanFill(rows, m, t) && i < |rows| && k < |rows|
    requires t < m ==> i != EMPTY && k != EMPTY
    ensures var lut := Fill(rows, m, t); multiset(lut)[i] <= multiset(lut)[k] + 1
  {
    if t == m {
      ExactBalance(rows, m, i);
      ExactBalance(rows, m, k);
    } else {
      Balance(rows, m, t, i);
      Balance(rows, m, t, k);
      ShareValue(|rows|, t, i);
      ShareValue(|rows|, t, k);
    }
  }

  // ----- rows that lead to the same table -----

  lemma {:induction false} SameFirstEmpty(row: seq<nat>, row': seq<nat>, lut: seq<u16>, from: nat)
    requires from <= |row| && from <= |row'|
    requires forall k :: 0 <= k < |row| ==> row[k] < |lut|
    requires forall k :: 0 <= k < |row'| ==> row'[k] < |lut|
    requires var j := FirstEmpty(row, lut, from); j < |row| && j < |row'| && row[..j + 1] == row'[..j + 1]
    ensures FirstEmpty(row', lut, from) == FirstEmpty(row, lut, from)
    decreases |row| - from
  {
    var j := FirstEmpty(row, lut, from);
    assert row[..j + 1][from] == row'[..j + 1][from];
    if lut[row[from]] != EMPTY { SameFirstEmpty(row, row', lut, from + 1); }
  }

  /** The two families of rows agree up to and including the choice of turn t. */
  ghost predicate AgreeAt(rows: seq<seq<nat>>, rows': seq<seq<nat>>, m: nat, t: nat)
    requires Rows(rows, m) && |rows| == |rows'|
  {
    var i, j := t % |rows|, Choice(rows, m, t);
    j < |rows[i]| && j < |rows'[i]| && rows[i][..j + 1] == rows'[i][..j + 1]
  }

  lemma SameTurn(rows: seq<seq<nat>>, rows': seq<seq<nat>>, m: nat, t: nat)
    requires Rows(rows, m) && Rows(rows', m) && |rows| == |rows'|
    requires Fill(rows, m, t) == Fill(rows', m, t) && AgreeAt(rows, rows', m, t)
    ensures Fill(rows, m, t + 1) == Fill(rows', m, t + 1)
    ensures Choice(rows', m, t) == Choice(rows, m, t) < |rows'[t % |rows|]|
    ensures Claimed(rows, m, t) == Claimed(rows', m, t) ==> Claimed(rows, m, t + 1) == Claimed(rows', m, t + 1)
  {
    var i, j := t % |rows|, Choice(rows, m, t);
    SameFirstEmpty(rows[i], rows'[i], Fill(rows, m, t), 0);
    assert rows[i][..j + 1][j] == rows'[i][..j + 1][j];
  }

  /** Rows that agree up to each choice give the same table, by the same claims. */
  lemma {:induction false} SameChoicesSameFill(rows: seq<seq<nat>>, rows': seq<seq<nat>>, m: nat, t: nat)
    requires Rows(rows, m) && Rows(rows', m) && |rows| == |rows'|
    requires forall s :: 0 <= s < t ==> AgreeAt(rows, rows', m, s)
    ensures Fill(rows, m, t) == Fill(rows', m, t) && Claimed(rows, m, t) == Claimed(rows', m, t)
    ensures t > 0 ==> Choice(rows', m, t - 1) < |rows'[(t - 1) % |rows|]|
    decreases t
  {
    if t > 0 {
      SameChoicesSameFill(rows, rows', m, t - 1);
      SameTurn(rows, rows', m, t - 1);
    }
  }

  /** And then the others last for all turns, too. */
  lemma SameTable(rows: seq<seq<nat>>, rows': seq<seq<nat>>, m: nat)
    requires m > 0 && CanFill(rows, m, m) && CanFill(rows', m, m - 1) && |rows| == |rows'|
    requires forall t :: 0 <= t < m ==> AgreeAt(rows, rows', m, t)
    ensures Fill(rows, m, m) == Fill(rows', m, m) && CanFill(rows', m, m)
  {
    SameChoicesSameFill(rows, rows', m, m);
    AllTurns(rows', m);
  }

  /** Before the last turn a full row is not needed to its end: two slots are empty. */
  lemma ChoiceIsEarly(rows: seq<seq<nat>>, m: nat, t: nat)
    requires CanFill(rows, m, t + 1) && t < m - 1
    requires |rows[t % |rows|]| == m && Onto(rows[t % |rows|], m)
    ensures Choice(rows, m, t) < m - 1
  {
    var row := rows[t % |rows|];
    var c := AnotherEmpty(rows, m, t, [row[m - 1]]);
    assert c in row;
  }

  // ----- the `next` counters of the programs -----

  /**
   Backend i has walked over k entries of its row, all of them taken.  Backend 65535 leaves no
   visible mark, but it has only one turn, and walks from the start of its row then.
   */
  ghost predicate PassedBy(row: seq<nat>, lut: seq<u16>, k: nat, i: nat, t: nat)
    requires forall j :: 0 <= j < |row| ==> row[j] < |lut|
  {
    && k <= |row|
    && (i < 0xffff ==> forall j :: 0 <= j < k ==> lut[row[j]] != EMPTY)
    && (i == 0xffff && t <= 0xffff ==> k == 0)
  }

  ghost predicate Passed(rows: seq<seq<nat>>, lut: seq<u16>, next: seq<nat>, t: nat)
    requires Rows(rows, |lut|)
  {
    |next| == |rows| && forall i :: 0 <= i < |rows| ==> PassedBy(rows[i], lut, next[i], i, t)
  }

  /** The state of the programs after t turns: the table and the counters. */
  ghost predicate AtTurn(rows: seq<seq<nat>>, m: nat, lut: seq<u16>, next: seq<nat>, t: nat)
    requires Rows(rows, m)
  {
    lut == Fill(rows, m, t) && Passed(rows, lut, next, t)
  }

  lemma AtStart(rows: seq<seq<nat>>, m: nat, next: seq<nat>)
    requires Rows(rows, m) && |next| == |rows| && forall i :: 0 <= i < |next| ==> next[i] == 0
    ensures AtTurn(rows, m, Blank(m), next, 0)
  {
  }

  lemma {:induction false} FirstEmptyFrom(row: seq<nat>, lut: seq<u16>, lo: nat, from: nat)
    requires lo <= from <= |row| && forall j :: 0 <= j < |row| ==> row[j] < |lut|
    requires forall j :: lo <= j < from ==> lut[row[j]] != EMPTY
    ensures FirstEmpty(row, lut, lo) == FirstEmpty(row, lut, from)
    decreases from - lo
  {
    if lo < from { FirstEmptyFrom(row, lut, lo + 1, from); }
  }

  /** Starting at the counter finds what starting at the row's beginning would. */
  lemma CounterFindsChoice(rows: seq<seq<nat>>, m: nat, t: nat, i: nat, next: seq<nat>)
    requires Rows(rows, m) && t < 0x1_0001 && i == t % |rows| && Passed(rows, Fill(rows, m, t), next, t)
    ensures next[i] <= |rows[i]|
    ensures FirstEmpty(rows[i], Fill(rows, m, t), next[i]) == Choice(rows, m, t)
  {
    assert PassedBy(rows[i], Fill(rows, m, t), next[i], i, t);
    assert i == 0xffff ==> t == 0xffff;
    FirstEmptyFrom(rows[i], Fill(rows, m, t), 0, next[i]);
  }

  lemma CounterAdvances(rows: seq<seq<nat>>, m: nat, t: nat, i: u16, next: seq<nat>)
    requires t < m && CanFill(rows, m, t + 1) && t < 0x1_0001 && i == t % |rows|
    requires Passed(rows, Fill(rows, m, t), next, t)
    ensures Choice(rows, m, t) < |rows[i]|
    ensures Passed(rows, Fill(rows, m, t + 1), next[i := Choice(rows, m, t) + 1], t + 1)
  {
    var k, slot := TurnClaims(rows, m, t);
    var lut, j := Fill(rows, m, t), Choice(rows, m, t);
    var next' := next[i := j + 1];
    forall b | 0 <= b < |rows| ensures PassedBy(rows[b], lut[slot := k], next'[b], b, t + 1) {
      if b == i {
        OwnCounter(rows[b], lut, j, k, t);
      } else {
        assert PassedBy(rows[b], lut, next[b], b, t);
        OtherCounter(rows[b], lut, slot, k, next[b], b, t);
      }
    }
  }

  /** A claim takes an empty slot, so what was passed stays passed. */
  lemma OtherCounter(row: seq<nat>, lut: seq<u16>, slot: nat, i: u16, k: nat, b: nat, t: nat)
    requires slot < |lut| && lut[slot] == EMPTY && b != i && (b == 0xffff ==> t != 0xffff)
    requires forall j :: 0 <= j < |row| ==> row[j] < |lut|
    requires PassedBy(row, lut, k, b, t)
    ensures PassedBy(row, lut[slot := i], k, b, t + 1)
  {
  }

  lemma OwnCounter(row: seq<nat>, lut: seq<u16>, j: nat, i: u16, t: nat)
    requires forall k :: 0 <= k < |row| ==> row[k] < |lut|
    requires j == FirstEmpty(row, lut, 0) < |row| && (i == 0xffff ==> t >= 0xffff)
    ensures PassedBy(row, lut[row[j] := i], j + 1, i, t + 1)
  {
  }
}
