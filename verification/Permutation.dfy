/**
 The permutation rows of the Maglev table: (off + j * skip) mod m for j = 0, 1, ...

 For a prime m and 0 < skip < m such a row visits every slot once.  `Prime65537` discharges the
 hypothesis for the table size of the programs.
 */
module Permutation {
  import opened Arithmetic
  import opened Counting

  ghost predicate Divides(a: nat, n: nat)
    requires a > 0
  {
    n % a == 0
  }

  ghost predicate IsPrime(p: nat) {
    2 <= p && forall a: nat :: 2 <= a < p ==> !Divides(a, p)
  }

  /** Euclid's lemma, by the division algorithm: a prime that divides a * b divides b. */
  lemma {:induction false} Euclid(p: nat, a: nat, b: nat, k: int)
    requires IsPrime(p) && 0 < a < p && a * b == p * k
    ensures Divides(p, b)
    decreases a
  {
    if a == 1 {
      DivModUnique(b, p, k, 0);
    } else {
      var q, r := p / a, p % a;
      assert !Divides(a, p);
      assert r == p - a * q;
      calc {
        r * b;
        p * b - a * q * b;
        p * b - q * (a * b);
        p * b - q * (p * k);
        p * (b - q * k);
      }
      Euclid(p, r, b, b - q * k);
    }
  }

  function Row(m: nat, off: nat, skip: nat, j: nat): (slot: nat)
    requires m > 0
    ensures slot < m
  {
    (off + j * skip) % m
  }

  function RowSeq(m: nat, off: nat, skip: nat): (row: seq<nat>)
    requires m > 0
  {
    seq(m, j requires 0 <= j => Row(m, off, skip, j))
  }

  /** Adding skip and subtracting m on overflow walks along the row. */
  lemma RowWalk(m: nat, off: nat, skip: nat, j: nat)
    requires 0 < skip < m
    ensures var x := Row(m, off, skip, j) + skip;
      Row(m, off, skip, j + 1) == if x >= m then x - m else x
  {
    var y := off + j * skip;
    assert off + (j + 1) * skip == y + skip;
    var q, r := y / m, y % m;
    assert y == m * q + r;
    if r + skip >= m {
      assert m * (q + 1) == m * q + m;
      DivModUnique(y + skip, m, q + 1, r + skip - m);
    } else {
      DivModUnique(y + skip, m, q, r + skip);
    }
  }

  lemma RowIsInjective(m: nat, off: nat, skip: nat, i: nat, j: nat)
    requires IsPrime(m) && 0 < skip < m && i < j < m
    ensures Row(m, off, skip, i) != Row(m, off, skip, j)
  {
    if Row(m, off, skip, i) == Row(m, off, skip, j) {
      var x, y := off + i * skip, off + j * skip;
      assert x == m * (x / m) + x % m;
      assert y == m * (y / m) + y % m;
      assert (j - i) * skip == j * skip - i * skip;
      assert m * (y / m - x / m) == m * (y / m) - m * (x / m);
      Euclid(m, j - i, skip, y / m - x / m);
      DivModUnique(skip, m, 0, skip);
    }
  }

  /** Every slot appears in the row, exactly once. */
  lemma RowIsPermutation(m: nat, off: nat, skip: nat)
    requires IsPrime(m) && 0 < skip < m
    ensures Distinct(RowSeq(m, off, skip))
    ensures forall c: nat :: c < m ==> c in RowSeq(m, off, skip)
  {
    var row := RowSeq(m, off, skip);
    forall i, j | 0 <= i < j < |row| ensures row[i] != row[j] {
      RowIsInjective(m, off, skip, i, j);
    }
    forall c: nat | c < m ensures c in row {
      InjectiveIsOnto(row, m, c);
    }
  }

  // ----- 65537 is prime -----

  /** No number in 2 .. k divides n: trial division. */
  predicate TrialDivision(n: nat, k: nat) {
    k < 2 || (n % k != 0 && TrialDivision(n, k - 1))
  }

  lemma {:induction false} TrialDivisionFinds(n: nat, k: nat, a: nat)
    requires TrialDivision(n, k) && 2 <= a <= k
    ensures !Divides(a, n)
    decreases k
  {
    if a < k { TrialDivisionFinds(n, k - 1, a); }
  }

  /** A divisor above 256 comes with one in 2 .. 256. */
  lemma CoDivisor(n: nat, a: nat)
    requires 256 < a < n <= 65537 && Divides(a, n)
    ensures 2 <= n / a <= 256 && Divides(n / a, n)
  {
    var b := n / a;
    assert n == a * b;
    assert (a - 257) * b == a * b - 257 * b;
    assert b != 0 && b != 1;
    DivModUnique(n, b, a, 0);
  }

  // The verifier evaluates a few steps of the trial division at a time.

  lemma TrialDivisionTo64()
    ensures TrialDivision(65537, 64)
  {
    assert TrialDivision(65537, 8);
    assert TrialDivision(65537, 16);
    assert TrialDivision(65537, 24);
    assert TrialDivision(65537, 32);
    assert TrialDivision(65537, 40);
    assert TrialDivision(65537, 48);
    assert TrialDivision(65537, 56);
  }

  lemma TrialDivisionTo128()
    ensures TrialDivision(65537, 128)
  {
    TrialDivisionTo64();
    assert TrialDivision(65537, 72);
    assert TrialDivision(65537, 80);
    assert TrialDivision(65537, 88);
    assert TrialDivision(65537, 96);
    assert TrialDivision(65537, 104);
    assert TrialDivision(65537, 112);
    assert TrialDivision(65537, 120);
  }

  lemma TrialDivisionTo192()
    ensures TrialDivision(65537, 192)
  {
    TrialDivisionTo128();
    assert TrialDivision(65537, 136);
    assert TrialDivision(65537, 144);
    assert TrialDivision(65537, 152);
    assert TrialDivision(65537, 160);
    assert TrialDivision(65537, 168);
    assert TrialDivision(65537, 176);
    assert TrialDivision(65537, 184);
  }

  lemma TrialDivisionTo256()
    ensures TrialDivision(65537, 256)
  {
    TrialDivisionTo192();
    assert TrialDivision(65537, 200);
    assert TrialDivision(65537, 208);
    assert TrialDivision(65537, 216);
    assert TrialDivision(65537, 224);
    assert TrialDivision(65537, 232);
    assert TrialDivision(65537, 240);
    assert TrialDivision(65537, 248);
  }

  lemma Prime65537()
    ensures IsPrime(65537)
  {
    TrialDivisionTo256();
    forall a: nat | 2 <= a < 65537 ensures !Divides(a, 65537) {
      if a <= 256 {
        TrialDivisionFinds(65537, 256, a);
      } else if Divides(a, 65537) {
        CoDivisor(65537, a);
        TrialDivisionFinds(65537, 256, 65537 / a);
      }
    }
  }
}
