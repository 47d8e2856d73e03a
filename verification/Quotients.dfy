/** Division and remainder by a variable, reduced to the few facts that proofs need. */
module Quotients {
  /** The quotient: a value shifted right, when `d` is a power of two. */
  function Upper(x: nat, d: nat): nat
    requires d > 0
  {
    x / d
  }

  /** The remainder: a value truncated to its low part. */
  function Lower(x: nat, d: nat): nat
    requires d > 0
  {
    x % d
  }

  lemma Split(x: nat, d: nat)
    requires d > 0
    ensures x == Upper(x, d) * d + Lower(x, d) && Lower(x, d) < d
  {
  }

  lemma Monotone(m: int, k: int, d: int)
    requires d >= 0
    ensures m <= k ==> m * d <= k * d
  {
    assert (k - m) * d == k * d - m * d;
  }

  lemma Below(k: int, m: int, d: int)
    requires k * d < m * d && d > 0
    ensures k < m
  {
    Monotone(m, k, d);
  }

  lemma BelowOne(k: int, d: int)
    requires -d < k * d < d
    ensures k == 0
  {
    Below(k, 1, d);
    Below(-1, k, d);
  }

  lemma Distribute(x: int, y: int, d: int)
    ensures (x + y) * d == x * d + y * d && (x - y) * d == x * d - y * d
  {
  }

  lemma Unique(x: nat, d: nat, q: int, r: int)
    requires d > 0 && x == q * d + r && 0 <= r < d
    ensures Upper(x, d) == q && Lower(x, d) == r
  {
    Split(x, d);
    hide Upper, Lower;
    Distribute(Upper(x, d), q, d);
    BelowOne(Upper(x, d) - q, d);
  }

  lemma UpperBelow(x: nat, m: nat, d: nat)
    requires d > 0 && x < m * d
    ensures Upper(x, d) < m
  {
    Split(x, d);
    hide Upper, Lower;
    Below(Upper(x, d), m, d);
  }

  lemma Small(x: nat, d: nat)
    requires x < d
    ensures Upper(x, d) == 0 && Lower(x, d) == x
  {
    Unique(x, d, 0, x);
  }
}
