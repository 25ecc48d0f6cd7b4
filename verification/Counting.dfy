/** Finite sets of small numbers, and the pigeonhole principle. */
module Counting {
  /** There are at most n numbers below n. */
  lemma {:induction false} SetBelow(s: set<nat>, n: nat)
    requires forall x :: x in s ==> x < n
    ensures |s| <= n
    decreases n
  {
    if n == 0 {
      assert s == {};
    } else {
      SetBelow(s - {n - 1}, n - 1);
      if n - 1 in s {
        assert s == s - {n - 1} + {n - 1};
      } else {
        assert s == s - {n - 1};
      }
    }
  }

  lemma {:induction false} SubsetSize<T>(a: set<T>, b: set<T>)
    requires a <= b
    ensures |a| <= |b|
    decreases a
  {
    if a != {} {
      var x :| x in a;
      SubsetSize(a - {x}, b - {x});
    }
  }

  /** A set of fewer than n numbers misses some number below n. */
  lemma {:induction false} FreeBelow(s: set<nat>, n: nat) returns (free: nat)
    requires |s| < n
    ensures free < n && free !in s
    decreases n
  {
    if n - 1 !in s {
      free := n - 1;
    } else {
      free := FreeBelow(s - {n - 1}, n - 1);
    }
  }

  /** Of more than n positions with numbers below n, two have the same. */
  lemma {:induction false} Collision(xs: seq<nat>, s: set<nat>, n: nat) returns (a: nat, b: nat)
    requires |s| > n && forall i :: i in s ==> i < |xs| && xs[i] < n
    ensures a in s && b in s && a != b && xs[a] == xs[b]
    decreases n
  {
    var i :| i in s;
    var rest := set j | j in s && xs[j] < n - 1;
    if k, l :| k in s && l in s && k != l && xs[k] == xs[l] == n - 1 {
      return k, l;
    }
    if k :| k in s && xs[k] == n - 1 {
      assert s == rest + {k};
    } else {
      assert s == rest;
    }
    a, b := Collision(xs, rest, n - 1);
  }

  /** A list shorter than n misses some number below n. */
  lemma Pigeonhole(taken: seq<nat>, n: nat) returns (free: nat)
    requires |taken| < n
    ensures free < n && free !in taken
  {
    DistinctCount(taken);
    free := FreeBelow(Elements(taken), n);
  }

  /** n different numbers below n are all of them. */
  lemma InjectiveIsOnto(s: seq<nat>, n: nat, x: nat)
    requires |s| == n && x < n && Distinct(s)
    requires forall y :: y in s ==> y < n
    ensures x in s
  {
    if x !in s {
      // n different numbers, none of them x, would be n + 1 numbers below n
      DistinctCount(s);
      SetBelow(Elements(s) + {x}, n);
    }
  }

  /** n - 1 different numbers below n, and one more, are all of them. */
  lemma AllButOne(s: seq<nat>, n: nat, c: nat, x: nat)
    requires |s| + 1 == n && x < n && c < n && x != c && Distinct(s) && c !in s
    requires forall y :: y in s ==> y < n
    ensures x in s
  {
    InjectiveIsOnto(s + [c], n, x);
  }

  ghost predicate Distinct(s: seq<nat>) {
    forall i, j :: 0 <= i < j < |s| ==> s[i] != s[j]
  }

  ghost function Elements(s: seq<nat>): (r: set<nat>) {
    set x | x in s
  }

  lemma FirstElement(s: seq<nat>)
    requires s != []
    ensures Elements(s) == Elements(s[1..]) + {s[0]}
    ensures Distinct(s) ==> Distinct(s[1..]) && s[0] !in Elements(s[1..])
  {
    assert s == [s[0]] + s[1..];
  }

  lemma {:induction false} DistinctCount(s: seq<nat>)
    ensures |Elements(s)| <= |s|
    ensures Distinct(s) ==> |Elements(s)| == |s|
  {
    if s != [] {
      DistinctCount(s[1..]);
      FirstElement(s);
    }
  }
}
