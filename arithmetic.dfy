/**
 * Facts about natural-number multiplication, floored division and
 * remainders that the solver does not find unaided.
 */
module Arithmetic {

  /** Multiplication by a natural number is monotonic. */
  lemma MulLe(a: nat, b: nat, m: nat)
    requires a <= b
    ensures a * m <= b * m
  {
  }

  /** The floored quotient brackets `n` between two consecutive multiples of `m`. */
  lemma QuotientBounds(n: nat, m: nat)
    requires m > 0
    ensures (n / m) * m <= n < (n / m + 1) * m
  {
  }

  /** Floored division of a natural number by a positive one stays natural. */
  lemma DivNonnegative(n: int, m: int)
    requires n >= 0 && m > 0
    ensures n / m >= 0
  {
  }

  /** A number between `a * m` and `(a + 1) * m` has floored quotient `a`. */
  lemma DivBetween(n: nat, m: nat, a: nat)
    requires m > 0
    requires a * m <= n < (a + 1) * m
    ensures n / m == a
  {
    var q := n / m;
    QuotientBounds(n, m);
    if q < a {
      MulLe(q + 1, a, m);
    } else if q > a {
      MulLe(a + 1, q, m);
    }
  }

  /** A number between `lo * m` and `hi * m` has floored quotient between `lo` and `hi`. */
  lemma DivBounds(n: nat, m: nat, lo: nat, hi: nat)
    requires m > 0
    requires lo * m <= n < hi * m
    ensures lo <= n / m < hi
  {
    var q := n / m;
    QuotientBounds(n, m);
    if q < lo {
      MulLe(q + 1, lo, m);
    } else if q >= hi {
      MulLe(hi, q, m);
    }
  }

  /** Multiplying by `p` and dividing by `p` gives back the number. */
  lemma MulDiv(m: nat, p: nat)
    requires p > 0
    ensures (m * p) / p == m
  {
    DivBetween(m * p, p, m);
  }

  /** Multiplication is associative. */
  lemma Associate(a: nat, b: nat, c: nat)
    ensures a * (b * c) == (a * b) * c
  {
  }

  /** A multiple of `m` leaves no remainder. */
  lemma MultipleOfItself(k: nat, m: nat)
    requires m > 0
    ensures (k * m) % m == 0
  {
    MulDiv(k, m);
  }

  /** No remainder exactly when the floored quotient times `p` gives `c` back. */
  lemma MultipleIff(c: nat, p: nat)
    requires p > 0
    ensures c % p == 0 <==> (c / p) * p == c
  {
  }

  /** Two different multiples of 3 are at least 3 apart. */
  lemma ThreeApart(a: nat, b: nat)
    requires a % 3 == 0 && b % 3 == 0 && a < b
    ensures a + 3 <= b
  {
  }

  /** Below one period the remainder is the number; going back one period does not change it. */
  lemma ModAfterOnePeriod(m: nat)
    requires m > 0
    ensures forall i :: 0 <= i < m ==> i % m == i
    ensures forall i :: m <= i ==> (i - m) % m == i % m
  {
    forall i | m <= i
      ensures (i - m) % m == i % m
    {
      var q := i / m;
      QuotientBounds(i, m);
      DivBetween(i - m, m, q - 1);
    }
  }
}
