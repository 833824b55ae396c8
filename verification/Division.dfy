/** Quotient and remainder. */
module Division {
  /** The remainder is what is missing to a multiple, if it is below the divisor. */
  lemma RemainderExactly(u: nat, n: nat, r: nat)
    requires n > 0
    ensures u % n == r <==> r < n && exists q: nat :: u == q * n + r
  {
    assert u == (u / n) * n + u % n;
    if r < n && exists q: nat :: u == q * n + r {
      var q: nat :| u == q * n + r;
      Unique(q, u / n, n, r, u % n);
    }
  }

  lemma Unique(q: nat, q': nat, n: nat, r: nat, r': nat)
    requires r < n && r' < n && q * n + r == q' * n + r'
    ensures r == r'
  {
    if q < q' {
      Multiples(q, q', n);
    } else if q > q' {
      Multiples(q', q, n);
    }
  }

  lemma Multiples(q: nat, q': nat, n: nat)
    requires q < q'
    ensures q * n + n <= q' * n
  {
    Product(q' - q - 1, n);
    assert (q' - q - 1) * n == q' * n - q * n - n;
  }

  lemma Product(x: nat, n: nat)
    ensures x * n >= 0
  {
  }
}
