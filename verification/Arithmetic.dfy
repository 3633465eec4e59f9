/** Division with remainder by a number that is not a literal. */
module Arithmetic {

  lemma AtLeast(m: int, n: int)
    requires m > 0 && n >= 1
    ensures m * n >= m
  {
    assert m * n == m + m * (n - 1);
  }

  /** `x` modulo `m`, from any way of writing `x` as a multiple of `m` and a small rest. */
  lemma ModuloIs(x: int, m: int, q: int, r: int)
    requires 0 <= r < m && x == m * q + r
    ensures x % m == r
  {
    var d := x / m;
    assert x == m * d + x % m;
    assert m * (d - q) == r - x % m;
    if d > q {
      AtLeast(m, d - q);
    } else if d < q {
      AtLeast(m, q - d);
    }
  }

  lemma AddMultiple(a: int, m: int, k: int)
    requires m > 0
    ensures (a + m * k) % m == a % m
  {
    var q, r := a / m, a % m;
    assert a + m * k == m * (q + k) + r;
    ModuloIs(a + m * k, m, q + k, r);
  }

  /** `x` modulo `m`, as a function that proofs can hide. */
  function Rest(x: int, m: int): (r: int)
    requires m > 0
    ensures 0 <= r < m
  {
    x % m
  }

  predicate Multiple(x: int, m: int)
    requires m > 0
  {
    x % m == 0
  }

  lemma MultiplesAdd(a: int, b: int, m: int)
    requires m > 0 && Multiple(a, m) && Multiple(b, m)
    ensures Multiple(a + b, m) && Multiple(a - b, m)
  {
    var p, q := a / m, b / m;
    assert a == m * p && b == m * q;
    assert m * (p + q) == m * p + m * q && m * (p - q) == m * p - m * q;
    ModuloIs(a + b, m, p + q, 0);
    ModuloIs(a - b, m, p - q, 0);
  }

  /** Two multiples of `m` closer than `m` are the same. */
  lemma MultiplesApart(a: int, b: int, m: int)
    requires m > 0 && Multiple(a, m) && Multiple(b, m) && a <= b < a + m
    ensures a == b
  {
    var p := a / m;
    assert a == m * p;
    ModuloIs(b, m, p, b - a);
  }

  lemma RoundedDown(x: int, m: int)
    requires m > 0
    ensures Multiple(x - Rest(x, m), m)
  {
    var q := x / m;
    assert x == m * q + x % m;
    ModuloIs(x - x % m, m, q, 0);
  }

  lemma RoundedUp(x: int, m: int)
    requires m > 0
    ensures Multiple(x + Rest(-x, m), m)
  {
    var q := -x / m;
    assert -x == m * q + -x % m;
    assert m * -q == -(m * q);
    ModuloIs(x + -x % m, m, -q, 0);
  }
}
