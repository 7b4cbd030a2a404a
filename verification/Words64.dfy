/** 64-bit words kept as two 32-bit halves. */
module Words64 {
  import opened Positional
  import opened Bits
  import opened Modular

  const TWO64: nat := 0x1_0000_0000_0000_0000

  type U64 = x: int | 0 <= x < 0x1_0000_0000_0000_0000

  function Join(lo: U32, hi: U32): U64 {
    (lo as int) + TWO32 * (hi as int)
  }

  function Add64(x: U64, y: U64): U64 {
    ((x as int) + (y as int)) % TWO64
  }

  function Xor64(x: U64, y: U64): U64 {
    PowersOfTwo();
    assert Pow(2, 64) == TWO64 by { PowAdd(2, 32, 32); }
    XorBound(x, y, 64);
    Xor(x, y)
  }

  /** The rotation by n bits to the right, `>>>` in section 2.3 of RFC 7693. */
  function RotR(x: U64, n: nat): U64
    requires n <= 64
  {
    PowersSplit(n);
    RotRBound(x, Pow(2, n), Pow(2, 64 - n));
    x / Pow(2, n) + x % Pow(2, n) * Pow(2, 64 - n)
  }

  lemma PowersSplit(n: nat)
    requires n <= 64
    ensures Pow(2, n) > 0 && Pow(2, 64 - n) > 0 && Pow(2, n) * Pow(2, 64 - n) == TWO64
  {
    PowersOfTwo();
    PowPositive(2, n);
    PowPositive(2, 64 - n);
    PowAdd(2, n, 64 - n);
    PowAdd(2, 32, 32);
  }

  lemma RotRBound(x: nat, p: nat, q: nat)
    requires p > 0 && x < p * q
    ensures 0 <= x / p + x % p * q < p * q
  {
    var a, r := x / p, x % p;
    assert a < q by { if a >= q { MulMono(p, q, a); } }
    MulMono(q, r, p - 1);
    assert (p - 1) * q == p * q - q;
  }

  /** One more low bit on both sides. */
  lemma XorDouble(x: int, y: int, u: int, w: int, z: int)
    requires Xor(x / 2 + u, y / 2 + w) == Xor(x / 2, y / 2) + z
    ensures Xor(x + 2 * u, y + 2 * w) == Xor(x, y) + 2 * z
  {
    hide Xor;
    XorStep(x + 2 * u, y + 2 * w);
    XorStep(x, y);
    SameHalves(Xor(x + 2 * u, y + 2 * w), Xor(x, y) + 2 * z);
  }

  /** Exclusive or acts on the low and the high part separately. */
  lemma {:induction false} XorSplit(n: nat, x: nat, y: nat, h: int, k: int)
    requires x < Pow(2, n) && y < Pow(2, n)
    ensures Xor(x + Pow(2, n) * h, y + Pow(2, n) * k) == Xor(x, y) + Pow(2, n) * Xor(h, k)
  {
    hide Xor;
    if n == 0 {
      XorZero(0);
    } else {
      var p := Pow(2, n - 1);
      XorSplit(n - 1, x / 2, y / 2, h, k);
      XorDouble(x, y, p * h, p * k, p * Xor(h, k));
      Twice(p, h);
      Twice(p, k);
      Twice(p, Xor(h, k));
    }
  }

  lemma Twice(p: int, h: int)
    ensures 2 * p * h == 2 * (p * h)
  {
  }

  lemma XorHalves(x0: U32, x1: U32, y0: U32, y1: U32)
    ensures Xor64(Join(x0, x1), Join(y0, y1)) == Join(XorWord(x0, y0), XorWord(x1, y1))
  {
    hide Pow, Xor;
    PowersOfTwo();
    XorSplit(32, x0, y0, x1, y1);
  }

  /** Exclusive or of numbers without a common bit is their sum. */
  lemma XorDisjoint(n: nat, x: nat, h: nat)
    requires x < Pow(2, n)
    ensures Xor(x, Pow(2, n) * h) == x + Pow(2, n) * h == Xor(Pow(2, n) * h, x)
  {
    hide *;
    XorSplit(n, x, 0, 0, h);
    XorZero(x);
    XorZero(h);
    XorComm(0, h);
    XorComm(x, Pow(2, n) * h);
    assert Pow(2, n) * 0 == 0;
  }

  /** The shifts `x << n` and `x >>> n` of a 32-bit word. */
  function ShiftL(x: U32, n: nat): U32 {
    (x as int) * Pow(2, n) % TWO32
  }

  function ShiftR(x: U32, n: nat): U32 {
    PowPositive(2, n);
    ShiftRBound(x, Pow(2, n));
    x / Pow(2, n)
  }

  lemma ShiftRBound(x: nat, p: nat)
    requires p > 0
    ensures 0 <= x / p <= x
  {
    DivUnique(p, x, x / p, x % p);
    MulMono(x / p, 1, p);
  }

  /** The upper bits of x below the lower bits of y: one half of a rotated double word. */
  function Funnel(x: U32, y: U32, n: nat): U32
    requires n <= 32
  {
    XorWord(ShiftR(x, n), ShiftL(y, 32 - n))
  }

  /** A rotation by less than 32 bits goes half by half. */
  lemma RotRFunnel(x0: U32, x1: U32, n: nat)
    requires 0 < n < 32
    ensures RotR(Join(x0, x1), n) == Join(Funnel(x0, x1, n), Funnel(x1, x0, n))
  {
    FunnelIsSum(x0, x1, n);
    FunnelIsSum(x1, x0, n);
    PowersSmall(n);
    RotRSum(x0, x1, Pow(2, n), Pow(2, 32 - n));
  }

  lemma PowersSmall(n: nat)
    requires n < 32
    ensures Pow(2, n) > 0 && Pow(2, 32 - n) > 0 && Pow(2, n) * Pow(2, 32 - n) == TWO32
    ensures Pow(2, 64 - n) == Pow(2, 32 - n) * TWO32
  {
    PowersOfTwo();
    PowPositive(2, n);
    PowPositive(2, 32 - n);
    PowAdd(2, n, 32 - n);
    PowAdd(2, 32 - n, 32);
  }

  /** The two parts of a funnel have no bit in common. */
  lemma FunnelIsSum(x: U32, y: U32, n: nat)
    requires 0 < n < 32
    ensures Pow(2, n) > 0 && Funnel(x, y, n) == x / Pow(2, n) + Pow(2, 32 - n) * (y % Pow(2, n))
  {
    var p, q := Pow(2, n), Pow(2, 32 - n);
    PowersSmall(n);
    ShiftLSum(y, p, q);
    ShiftRSmall(x, p, q);
    hide Pow, Xor;
    XorDisjoint(32 - n, x / p, y % p);
  }

  lemma ShiftLSum(y: nat, p: nat, q: nat)
    requires p > 0 && q > 0 && p * q == TWO32
    ensures y * q % TWO32 == q * (y % p)
  {
    var a, r := y / p, y % p;
    assert y * q == a * (p * q) + q * r by { assert y == a * p + r; }
    MulMono(q, r, p - 1);
    assert q * (p - 1) == TWO32 - q;
    DivUnique(TWO32, y * q, a, q * r);
  }

  lemma ShiftRSmall(x: U32, p: nat, q: nat)
    requires p > 0 && p * q == TWO32
    ensures 0 <= x / p < q
  {
    var a := x / p;
    if a >= q { MulMono(p, q, a); }
  }

  lemma RotRSum(x0: U32, x1: U32, p: nat, q: nat)
    requires p > 0 && p * q == TWO32
    ensures ((x0 as int) + TWO32 * (x1 as int)) / p + ((x0 as int) + TWO32 * (x1 as int)) % p * (q * TWO32)
      == (x0 / p + q * (x1 % p)) + TWO32 * (x1 / p + q * (x0 % p))
  {
    var a, r, b, s := x0 / p, x0 % p, x1 / p, x1 % p;
    var x: int := (x0 as int) + TWO32 * (x1 as int);
    var h := a + q * (x1 as int);
    assert x == p * h + r by { assert p * (q * (x1 as int)) == (p * q) * (x1 as int); assert (x0 as int) == p * a + r; }
    DivUnique(p, x, h, r);
    assert q * (x1 as int) == TWO32 * b + q * s by {
      assert (x1 as int) == p * b + s;
      assert q * (p * b) == (p * q) * b;
    }
    assert r * (q * TWO32) == TWO32 * (q * r);
  }

  /** A rotation by 32 bits exchanges the halves. */
  lemma RotR32(x0: U32, x1: U32)
    ensures RotR(Join(x0, x1), 32) == Join(x1, x0)
  {
    PowersOfTwo();
  }

  /** A rotation by 63 bits is one by 31 bits of the exchanged halves. */
  lemma RotR63(x0: U32, x1: U32)
    ensures RotR(Join(x0, x1), 63) == Join(Funnel(x1, x0, 31), Funnel(x0, x1, 31))
  {
    hide Pow, Funnel;
    FunnelIsSum(x1, x0, 31);
    FunnelIsSum(x0, x1, 31);
    Powers31();
    RotR63Sum(x0, x1);
  }

  lemma RotR63Sum(x0: U32, x1: U32)
    ensures var x := (x0 as int) + TWO32 * (x1 as int);
      x / 0x8000_0000_0000_0000 + x % 0x8000_0000_0000_0000 * 2
        == (x1 / 0x8000_0000 + 2 * (x0 % 0x8000_0000)) + TWO32 * (x0 / 0x8000_0000 + 2 * (x1 % 0x8000_0000))
  {
    var a: int, r: int, b: int, s: int := x0 / 0x8000_0000, x0 % 0x8000_0000, x1 / 0x8000_0000, x1 % 0x8000_0000;
    assert (x0 as int) == 0x8000_0000 * a + r && (x1 as int) == 0x8000_0000 * b + s;
    DivUnique(0x8000_0000_0000_0000, (x0 as int) + TWO32 * (x1 as int), b, (x0 as int) + TWO32 * s);
  }

  lemma Powers31()
    ensures Pow(2, 1) == 2 && Pow(2, 31) == 0x8000_0000 && Pow(2, 63) == 0x8000_0000_0000_0000
  {
    PowersOfTwo();
    assert Pow(2, 32) == 2 * Pow(2, 31);
    PowAdd(2, 31, 32);
  }
}
