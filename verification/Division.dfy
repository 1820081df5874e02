/** Quotients and remainders. */
module Division {

  lemma MultipleOutsideGap(k: int, d: int)
    requires d > 0
    ensures k >= 1 ==> k * d >= d
    ensures k <= -1 ==> k * d <= -d
  {
    if k >= 1 {
      assert k * d == (k - 1) * d + d && (k - 1) * d >= 0;
    } else if k <= -1 {
      assert k * d == (k + 1) * d - d && (k + 1) * d <= 0;
    }
  }

  lemma DivModUnique(n: int, d: int, q: int, r: int)
    requires d > 0 && 0 <= r < d && n == q * d + r
    ensures n / d == q && n % d == r
  {
    var q', r' := n / d, n % d;
    assert n == d * q' + r';
    assert (q - q') * d == r' - r by {
      assert (q - q') * d == q * d - q' * d;
    }
    MultipleOutsideGap(q - q', d);
  }

  lemma NextRemainder(n: nat, total: int)
    requires total > 0
    ensures if n % total == total - 1 then (n + 1) % total == 0 && (n + 1) / total == n / total + 1
            else (n + 1) % total == n % total + 1 && (n + 1) / total == n / total
  {
    var q, r := n / total, n % total;
    assert n == q * total + r;
    if r == total - 1 {
      assert n + 1 == (q + 1) * total;
      DivModUnique(n + 1, total, q + 1, 0);
    } else {
      DivModUnique(n + 1, total, q, r + 1);
    }
  }

  /** Stepping a remainder. */
  lemma NextInCycle(n: nat, total: int)
    requires total > 0
    ensures (n % total + 1) % total == (n + 1) % total
  {
    NextRemainder(n, total);
    if n % total < total - 1 {
      DivModUnique(n % total + 1, total, 0, n % total + 1);
    } else {
      DivModUnique(n % total + 1, total, 1, 0);
    }
  }
}
