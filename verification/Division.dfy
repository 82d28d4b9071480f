/** Quotients and remainders by a variable divisor. */
module Division {

  lemma MulMono(n: int, a: int, b: int)
    requires n >= 0 && a <= b
    ensures n * a <= n * b
  {
  }

  lemma QuotientUnique(n: int, q: int, r: int, q': int, r': int)
    requires 0 <= r < n && 0 <= r' < n && n * q + r == n * q' + r'
    ensures q == q' && r == r'
  {
    if q < q' {
      MulMono(n, q + 1, q');
    } else if q' < q {
      MulMono(n, q' + 1, q);
    }
  }

  lemma DivUnique(x: int, n: int, q: int, r: int)
    requires 0 <= r < n && x == n * q + r
    ensures x / n == q && x % n == r
  {
    QuotientUnique(n, x / n, x % n, q, r);
  }

  /** Less than a full period later the quotient is the same. */
  lemma SamePeriod(t: nat, d: nat, n: nat)
    requires n > 0 && d < n - t % n
    ensures (t + d) / n == t / n && (t + d) % n == t % n + d
  {
    var q, r := t / n, t % n;
    assert t == n * q + r;
    DivUnique(t + d, n, q, r + d);
  }

  /** The next multiple after `t`. */
  lemma NextPeriod(t: nat, n: nat)
    requires n > 0
    ensures (t + (n - t % n)) % n == 0 && (t + (n - t % n)) / n == t / n + 1
  {
    var q, r := t / n, t % n;
    assert t == n * q + r;
    assert n * (q + 1) == n * q + n;
    DivUnique(t + (n - r), n, q + 1, 0);
  }

  lemma DivMono(a: nat, b: nat, n: nat)
    requires n > 0 && a <= b
    ensures a / n <= b / n
    ensures a / n == b / n && b % n == 0 ==> a == b
  {
    var p, q, r, s := a / n, b / n, a % n, b % n;
    assert a == n * p + r && b == n * q + s;
    if q < p {
      MulMono(n, q + 1, p);
    }
  }
}
