/** Remainders by a positive modulus; Dafny's % is never negative, so these hold for negative numbers too. */
module Modular {

  lemma MulMono(m: nat, x: int, y: int)
    requires x <= y
    ensures m * x <= m * y
  {}

  lemma DivUnique(m: nat, a: int, q: int, r: int)
    requires m > 0 && 0 <= r < m && a == m * q + r
    ensures a / m == q && a % m == r
  {
    var q', r' := a / m, a % m;
    assert a == m * q' + r';
    if q' > q { MulMono(m, q + 1, q'); }
    if q' < q { MulMono(m, q' + 1, q); }
  }

  lemma ModShift(m: nat, a: int, k: int)
    requires m > 0
    ensures (a + k * m) % m == a % m
  {
    var q := a / m;
    assert m * (q + k) == m * q + k * m;
    DivUnique(m, a + k * m, q + k, a % m);
  }

  lemma ModMul(m: nat, a: int, b: int)
    requires m > 0
    ensures ((a % m) * (b % m)) % m == (a * b) % m
  {
    var q, r, u, w := a / m, a % m, b / m, b % m;
    assert a * b == (m * q + r) * (m * u + w);
    assert (m * q + r) * (m * u + w) == r * w + (q * (m * u + w) + r * u) * m by {
      assert (m * q) * (m * u + w) == (q * (m * u + w)) * m;
      assert r * (m * u) == (r * u) * m;
    }
    ModShift(m, r * w, q * (m * u + w) + r * u);
  }

  lemma ModAdd(m: nat, a: int, b: int)
    requires m > 0
    ensures (a % m + b % m) % m == (a + b) % m
  {
    var q, u, r, w := a / m, b / m, a % m, b % m;
    assert a == m * q + r && b == m * u + w;
    assert m * q + m * u == (q + u) * m;
    ModShift(m, r + w, q + u);
  }

  lemma ModSub(m: nat, a: int, b: int)
    requires m > 0
    ensures (a % m - b % m) % m == (a - b) % m
  {
    var q, u, r, w := a / m, b / m, a % m, b % m;
    assert a == m * q + r && b == m * u + w;
    assert m * q - m * u == (q - u) * m;
    ModShift(m, r - w, q - u);
  }

  /** Multiplication respects congruence in its left argument. */
  lemma ModMulLeft(m: nat, a: int, a': int, b: int)
    requires m > 0 && a % m == a' % m
    ensures (a * b) % m == (a' * b) % m
  {
    ModMul(m, a, b);
    ModMul(m, a', b);
  }

  lemma ModMulBoth(m: nat, a: int, a': int, b: int, b': int)
    requires m > 0 && a % m == a' % m && b % m == b' % m
    ensures (a * b) % m == (a' * b') % m
  {
    ModMul(m, a, b);
    ModMul(m, a', b');
  }

  lemma ModMod(m: nat, a: int)
    requires m > 0
    ensures (a % m) % m == a % m
  {}
}
