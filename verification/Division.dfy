/** Facts about division that the solver does not find by itself. */
module Division {

  lemma MulMonotone(d: int, a: int, b: int)
    requires d >= 0 && a <= b
    ensures d * a <= d * b
  {
    assert d * (b - a) >= 0;
  }

  lemma DivModUnique(n: int, d: int, q: int, r: int)
    requires d > 0 && 0 <= r < d && n == d * q + r
    ensures n / d == q && n % d == r
  {
    var q', r' := n / d, n % d;
    assert n == d * q' + r';
    if q' >= q + 1 {
      MulMonotone(d, q + 1, q');
    } else if q' <= q - 1 {
      MulMonotone(d, q', q - 1);
    }
  }

  lemma DivStep(n: int, d: int)
    requires d > 0
    ensures n / d == 1 + (n - d) / d
    ensures n % d == (n - d) % d
  {
    var q := (n - d) / d;
    var r := (n - d) % d;
    assert n == d * (q + 1) + r;
    DivModUnique(n, d, q + 1, r);
  }

  /** The residues of `n` consecutive numbers are a rotation. */
  lemma ModWindow(i: nat, d: nat, n: nat)
    requires d < n
    ensures (i + d) % n == if i % n + d < n then i % n + d else i % n + d - n
  {
    var q := i / n;
    assert i == n * q + i % n;
    if i % n + d < n {
      DivModUnique(i + d, n, q, i % n + d);
    } else {
      assert n * (q + 1) == n * q + n;
      DivModUnique(i + d, n, q + 1, i % n + d - n);
    }
  }
}
