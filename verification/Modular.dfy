/** Division with remainder for variable divisors. */
module Modular {
  lemma AtLeastOneMultiple(n: int, d: int)
    requires n >= 1 && d >= 1
    ensures n * d >= n
  {
    var e := d - 1;
    assert n * d == n * e + n;
    assert n * e >= 0;
  }

  lemma DivModUnique(a: int, n: int, q: int, r: int)
    requires 0 <= r < n && a == n * q + r
    ensures a % n == r && a / n == q
  {
    var d := a / n - q;
    assert n * d == n * (a / n) - n * q && n * -d == -(n * d);
    if d >= 1 {
      AtLeastOneMultiple(n, d);
    } else if d <= -1 {
      AtLeastOneMultiple(n, -d);
    }
  }

  /** Counting modulo `n`, in both directions. */
  lemma Successor(s: int, n: int)
    requires n >= 1
    ensures (s + 1) % n == if s % n + 1 == n then 0 else s % n + 1
    ensures (s + 1) / n == if s % n + 1 == n then s / n + 1 else s / n
    ensures (s - 1) % n == if s % n == 0 then n - 1 else s % n - 1
  {
    var q, r := s / n, s % n;
    assert n * (q + 1) == n * q + n && n * (q - 1) == n * q - n;
    if r + 1 == n {
      DivModUnique(s + 1, n, q + 1, 0);
    } else {
      DivModUnique(s + 1, n, q, r + 1);
    }
    if r == 0 {
      DivModUnique(s - 1, n, q - 1, n - 1);
    } else {
      DivModUnique(s - 1, n, q, r - 1);
    }
  }
}
