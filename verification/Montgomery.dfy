/** What the ladder of RFC 7748 computes on the curve y^2 = x^3 + 486662 x^2 + x over the integers
    modulo 2^255 - 19, in projective coordinates x : z. */
module Montgomery {
  import opened Bits
  import opened Modular
  import opened Positional
  import opened Field25519
  import opened Pack25519
  import opened X25519
  import opened Fermat

  /** The modulus of the field. */
  lemma Modulus()
    ensures P == Pow(2, 255) - 19 && TWO255 == Pow(2, 255)
  {
    hide Pow;
    PowersOfTwo();
    PowAdd(2, 32, 32);
    PowAdd(2, 64, 64);
    PowAdd(2, 128, 128);
    HalfPower();
    assert Pow(2, 128) == 0x1_0000_0000_0000_0000 * 0x1_0000_0000_0000_0000;
  }

  lemma HalfPower()
    ensures 2 * Pow(2, 255) == Pow(2, 256)
  {
  }

  // ---- The formulas of the curve ----

  /** Doubling, for a point x : z. */
  ghost function DoubleX(x: int, z: int): nat {
    ((x * x - z * z) * (x * x - z * z)) % P
  }

  ghost function DoubleZ(x: int, z: int): nat {
    (4 * (x * z) * (x * x + 486662 * (x * z) + z * z)) % P
  }

  /** The sum of x : z and u : w, whose difference is x1 : 1. */
  ghost function SumX(x: int, z: int, u: int, w: int): nat {
    (4 * ((x * u - z * w) * (x * u - z * w))) % P
  }

  ghost function SumZ(x1: int, x: int, z: int, u: int, w: int): nat {
    (x1 * (4 * ((u * z - x * w) * (u * z - x * w)))) % P
  }

  predicate Same(a: int, b: int) {
    a % P == b % P
  }

  lemma SameMul(a: int, a': int, b: int, b': int)
    requires Same(a, a') && Same(b, b')
    ensures Same(FMul(a, b), a' * b')
  {
    ModMulBoth(P, a, a', b, b');
    ModMod(P, a' * b');
  }

  lemma Reduced(a: int, b: int, q: int)
    requires Same(FMul(a, b), q)
    ensures FMul(a, b) == q % P
  {
    ModMod(P, a * b);
  }

  lemma SameAdd(a: int, a': int, b: int, b': int)
    requires Same(a, a') && Same(b, b')
    ensures Same(FAdd(a, b), a' + b') && Same(FSub(a, b), a' - b')
  {
    ModAdd(P, a, b);
    ModAdd(P, a', b');
    ModSub(P, a, b);
    ModSub(P, a', b');
    ModMod(P, a' + b');
    ModMod(P, a' - b');
  }

  /** The eighteen operations of a step double the first point and add the two. */
  lemma StepFormulas(x1: nat, p: Points)
    ensures Step(x1, p)
      == Points(DoubleX(p.x2, p.z2), DoubleZ(p.x2, p.z2),
                SumX(p.x2, p.z2, p.x3, p.z3), SumZ(x1, p.x2, p.z2, p.x3, p.z3))
  {
    hide FMul, FAdd, FSub, Same, DoubleX, DoubleZ, SumX, SumZ;
    var x: int, z: int, u: int, w: int := p.x2, p.z2, p.x3, p.z3;
    SameSelf(x, z);
    SameSelf(u, w);
    var a, b, c, d := FAdd(x, z), FSub(x, z), FAdd(u, w), FSub(u, w);
    SameAdd(x, x, z, z);
    SameAdd(u, u, w, w);
    var aa, bb := FMul(a, a), FMul(b, b);
    SameMul(a, x + z, a, x + z);
    SameMul(b, x - z, b, x - z);
    SameMul(aa, (x + z) * (x + z), bb, (x - z) * (x - z));
    Reduced(aa, bb, (x + z) * (x + z) * ((x - z) * (x - z)));
    DoublingResidues(aa, bb, (x + z) * (x + z), (x - z) * (x - z), x * z);
    var e := FSub(aa, bb);
    Reduced(e, FAdd(aa, FMul(A24, e)), 4 * (x * z) * ((x + z) * (x + z) + 486660 * (x * z)));
    DoublingFormula(x, z);
    var da, cb := FMul(d, a), FMul(c, b);
    SameMul(d, u - w, a, x + z);
    SameMul(c, u + w, b, x - z);
    SumFormula(x1, da, cb, x, z, u, w);
  }

  lemma SameSelf(a: int, b: int)
    ensures Same(a, a) && Same(b, b)
  {
  }

  lemma DoublingResidues(aa: int, bb: int, s: int, t: int, v: int)
    requires Same(aa, s) && Same(bb, t) && s - t == 4 * v
    ensures var e := FSub(aa, bb); Same(FMul(e, FAdd(aa, FMul(A24, e))), 4 * v * (s + 486660 * v))
  {
    hide FMul, FAdd, FSub, Same;
    var e := FSub(aa, bb);
    SameAdd(aa, s, bb, t);
    SameSelf(A24, A24);
    SameMul(A24, A24, e, 4 * v);
    SameAdd(aa, s, FMul(A24, e), A24 * (4 * v));
    SameMul(e, 4 * v, FAdd(aa, FMul(A24, e)), s + A24 * (4 * v));
    assert A24 * (4 * v) == 486660 * v;
  }

  lemma DoublingFormula(x: int, z: int)
    ensures var s, t, v := (x + z) * (x + z), (x - z) * (x - z), x * z;
      s - t == 4 * v && (s * t) % P == DoubleX(x, z) && (4 * v * (s + 486660 * v)) % P == DoubleZ(x, z)
  {
    SquaresProduct(x, z);
    SquaresDifference(x, z);
  }

  lemma SquaresProduct(x: int, z: int)
    ensures ((x + z) * (x + z)) * ((x - z) * (x - z)) == (x * x - z * z) * (x * x - z * z)
  {
    var a, b := x + z, x - z;
    assert a * b == x * x - z * z;
    assert (a * a) * (b * b) == (a * b) * (a * b);
  }

  lemma SquaresDifference(x: int, z: int)
    ensures (x + z) * (x + z) - (x - z) * (x - z) == 4 * (x * z)
    ensures (x + z) * (x + z) == x * x + 2 * (x * z) + z * z
  {
  }

  lemma SumFormula(x1: int, da: int, cb: int, x: int, z: int, u: int, w: int)
    requires Same(da, (u - w) * (x + z)) && Same(cb, (u + w) * (x - z))
    ensures FMul(FAdd(da, cb), FAdd(da, cb)) == SumX(x, z, u, w)
    ensures FMul(x1, FMul(FSub(da, cb), FSub(da, cb))) == SumZ(x1, x, z, u, w)
  {
    hide FMul, FAdd, FSub, Same;
    var m, n := (u - w) * (x + z), (u + w) * (x - z);
    var f, g := x * u - z * w, u * z - x * w;
    CrossProducts(x, z, u, w);
    SameAdd(da, m, cb, n);
    SameMul(FAdd(da, cb), 2 * f, FAdd(da, cb), 2 * f);
    assert (2 * f) * (2 * f) == 4 * (f * f);
    Reduced(FAdd(da, cb), FAdd(da, cb), 4 * (f * f));
    SameMul(FSub(da, cb), 2 * g, FSub(da, cb), 2 * g);
    assert (2 * g) * (2 * g) == 4 * (g * g);
    SameSelf(x1, x1);
    SameMul(x1, x1, FMul(FSub(da, cb), FSub(da, cb)), 4 * (g * g));
    Reduced(x1, FMul(FSub(da, cb), FSub(da, cb)), x1 * (4 * (g * g)));
  }

  lemma CrossProducts(x: int, z: int, u: int, w: int)
    ensures (u - w) * (x + z) + (u + w) * (x - z) == 2 * (x * u - z * w)
    ensures (u - w) * (x + z) - (u + w) * (x - z) == 2 * (u * z - x * w)
  {
  }

  // ---- The multiple that the ladder reaches ----

  /** Stands says which pairs x : z stand for which multiple of the point with coordinate x1. */
  type Stands = (nat, nat, nat) -> bool

  /** The formulas take multiples to multiples; 0 is 1 : 0 and the point itself is x1 : 1. */
  ghost predicate Multiples(stands: Stands, x1: nat) {
    && stands(0, 1, 0) && stands(1, x1, 1)
    && (forall n: nat, x: nat, z: nat :: stands(n, x, z) ==> stands(2 * n, DoubleX(x, z), DoubleZ(x, z)))
    && (forall n: nat, x: nat, z: nat, u: nat, w: nat :: stands(n, x, z) && stands(n + 1, u, w)
          ==> stands(2 * n + 1, SumX(x, z, u, w), SumZ(x1, x, z, u, w)))
  }

  lemma SumSwapped(x1: int, x: int, z: int, u: int, w: int)
    ensures SumX(x, z, u, w) == SumX(u, w, x, z) && SumZ(x1, x, z, u, w) == SumZ(x1, u, w, x, z)
  {
    assert x * u - z * w == u * x - w * z;
    var g := u * z - x * w;
    assert x * w - u * z == -g && g * g == (-g) * (-g);
  }

  /** A step from the multiples n and n + 1, in either order. */
  lemma StepMultiples(stands: Stands, x1: nat, n: nat, p: Points)
    requires Multiples(stands, x1)
    ensures stands(n, p.x2, p.z2) && stands(n + 1, p.x3, p.z3) ==>
      var q := Step(x1, p); stands(2 * n, q.x2, q.z2) && stands(2 * n + 1, q.x3, q.z3)
    ensures stands(n + 1, p.x2, p.z2) && stands(n, p.x3, p.z3) ==>
      var q := Step(x1, p); stands(2 * n + 2, q.x2, q.z2) && stands(2 * n + 1, q.x3, q.z3)
  {
    hide Step, DoubleX, DoubleZ, SumX, SumZ;
    StepFormulas(x1, p);
    SumSwapped(x1, p.x2, p.z2, p.x3, p.z3);
    assert 2 * (n + 1) == 2 * n + 2;
  }

  /** The bits of k from t on, up to bit 254. */
  ghost function Upper(k: int, t: nat): nat
    requires t <= 255
    decreases 255 - t
  {
    if t == 255 then 0 else 2 * Upper(k, t + 1) + ScalarBit(k, t)
  }

  /** After the bits down to t the two points are neighbouring multiples. */
  lemma {:induction false} LadderMultiples(stands: Stands, x1: nat, k: int, t: nat)
    requires t <= 255 && Multiples(stands, x1)
    ensures var p, n := EagerLadder(x1, k, t), Upper(k, t);
      stands(n, p.x2, p.z2) && stands(n + 1, p.x3, p.z3)
    decreases 255 - t
  {
    hide Step, ScalarBit, Multiples;
    if t == 255 {
      StartMultiples(stands, x1);
    } else {
      LadderMultiples(stands, x1, k, t + 1);
      BitRange(k, t);
      StepMultiples(stands, x1, Upper(k, t + 1), CSwap(ScalarBit(k, t), EagerLadder(x1, k, t + 1)));
    }
  }

  lemma StartMultiples(stands: Stands, x1: nat)
    requires Multiples(stands, x1)
    ensures stands(0, 1, 0) && stands(1, x1, 1)
  {
    hide DoubleX, DoubleZ, SumX, SumZ;
  }

  lemma BitRange(k: int, t: nat)
    ensures ScalarBit(k, t) == 0 || ScalarBit(k, t) == 1
  {
  }

  lemma {:induction false} UpperValue(k: int, t: nat)
    requires t <= 255 && 0 <= k < Pow(2, 255)
    ensures Pow(2, t) > 0
    ensures Upper(k, t) == k / Pow(2, t)
    decreases 255 - t
  {
    PowPositive(2, t);
    if t == 255 {
      DivUnique(Pow(2, 255), k, 0, k);
    } else {
      UpperValue(k, t + 1);
      HalfQuotient(k, Pow(2, t));
    }
  }

  lemma HalfQuotient(k: nat, p: nat)
    requires p > 0
    ensures k / p == 2 * (k / (2 * p)) + k / p % 2
  {
    var q := k / p;
    assert k == p * q + k % p;
    var h := q / 2;
    assert p * q == (2 * p) * h + p * (q % 2) by { assert q == 2 * h + q % 2; }
    assert p * (q % 2) + k % p < 2 * p;
    DivUnique(2 * p, k, h, p * (q % 2) + k % p);
  }

  /** The two coordinates that the ladder ends with stand for the k-th multiple of the point. */
  lemma LadderIsMultiple(stands: Stands, x1: nat, k: nat) returns (x: nat, z: nat)
    requires Multiples(stands, x1) && k < Pow(2, 255)
    ensures stands(k, x, z) && LadderResult(x1, k) == (x * FPow(z, P - 2)) % P
  {
    hide Ladder, EagerLadder, Multiples, FPow, Upper, Pow, CSwap;
    var p := EagerLadder(x1, k, 0);
    LadderMultiples(stands, x1, k, 0);
    UpperValue(k, 0);
    NoPower();
    EagerIsLazy(x1, k, 0);
    x, z := p.x2, p.z2;
  }

  lemma NoPower()
    ensures Pow(2, 0) == 1 && Pow(256, 0) == 1
  {
  }

  lemma {:induction false} FPowIsPow(x: nat, e: nat)
    ensures FPow(x, e) == Pow(x, e) % P
  {
    if e > 0 {
      FPowIsPow(x, e - 1);
      ModMod(P, Pow(x, e - 1));
      ModMulBoth(P, x, x, FPow(x, e - 1), Pow(x, e - 1));
    }
  }

  /** The result is the quotient of the two coordinates, and 0 for a point without one; this rests on the
      modulus being prime. */
  lemma FinishIsQuotient(p: Points)
    requires Prime(P)
    ensures p.z2 % P == 0 ==> Finish(p) == 0
    ensures p.z2 % P != 0 ==> (Finish(p) * p.z2) % P == p.x2 % P
  {
    hide Pow, FPow, Prime;
    var x, z := p.x2, p.z2;
    FPowIsPow(z, P - 2);
    var w := FPow(z, P - 2);
    if z % P == 0 {
      PowerOfZero(P, z, P - 2);
      ModMulBoth(P, x, x, w, 0);
    } else {
      PowerInverse(P, z);
      ModMulBoth(P, z, z, w, Pow(z, P - 2));
      Divided(x, z, w);
    }
  }

  lemma PowerOfZero(m: nat, z: nat, n: nat)
    requires n > 0 && m > 0 && z % m == 0
    ensures Pow(z, n) % m == 0
  {
    assert Pow(z, n) == z * Pow(z, n - 1);
    ModMulBoth(m, z, 0, Pow(z, n - 1), Pow(z, n - 1));
  }

  lemma Divided(x: nat, z: nat, w: nat)
    requires w < P && (z * w) % P == 1
    ensures (FMul(x, w) * z) % P == x % P
  {
    ModMod(P, x * w);
    ModMulBoth(P, FMul(x, w), x * w, z, z);
    assert (x * w) * z == x * (z * w);
    ModMulBoth(P, x, x, z * w, 1);
  }

  // ---- The scalar ----

  /** The clamped scalar: bit 254 set, the three lowest and the top one clear, the others as they are. */
  lemma ScalarValue(k: seq<byte>)
    requires |k| == 32
    ensures Pow(2, 254) > 0
    ensures DecodeScalar(k) == Pow(2, 254) + (LittleEndian(k) % Pow(2, 254)) / 8 * 8
    ensures Pow(2, 254) <= DecodeScalar(k) < Pow(2, 255)
  {
    hide Val, Pow;
    var low, high := k[0] % 8, k[31] as int;
    var s := k[0 := k[0] - low];
    ValUpdate(256, k, 0, k[0] - low);
    ValUpdate(256, s, 31, high % 64 + 64);
    var v, w := LittleEndian(k), Pow(256, 31);
    ScalarWeights();
    ValPrefix(256, k, 31);
    assert k[..32] == k;
    var rest := Val(256, k[..31]);
    ValBound(256, k[..31]);
    LowByte(k);
    ScalarArithmetic(v, w, rest, high, low);
    assert DecodeScalar(k) == v - low + (high % 64 + 64 - high) * w;
  }

  lemma ScalarWeights()
    ensures Pow(256, 0) == 1 && 64 * Pow(256, 31) == Pow(2, 254) && Pow(2, 255) == 2 * Pow(2, 254)
    ensures Pow(256, 31) % 8 == 0 && Pow(256, 31) > 0
  {
    hide Pow;
    NoPower();
    BytePower(31);
    PowAdd(2, 248, 6);
    SixtyFour();
    NextPower(256, 30);
    NextPower(2, 254);
    PowPositive(256, 31);
    assert 256 * Pow(256, 30) == 8 * (32 * Pow(256, 30));
  }

  lemma SixtyFour()
    ensures Pow(2, 6) == 64
  {
  }

  lemma NextPower(b: nat, n: nat)
    ensures Pow(b, n + 1) == b * Pow(b, n)
  {
  }

  lemma {:induction false} BytePower(n: nat)
    ensures Pow(256, n) == Pow(2, 8 * n)
  {
    if n > 0 {
      BytePower(n - 1);
      PowAdd(2, 8, 8 * (n - 1));
      assert Pow(2, 8) == 256;
    }
  }

  lemma LowByte(k: seq<byte>)
    requires k != []
    ensures Val(256, k) % 8 == k[0] % 8
  {
    var rest := Val(256, k[1..]);
    assert Val(256, k) == k[0] + 8 * (32 * rest);
    ModShift(8, k[0], 32 * rest);
  }

  lemma ScalarArithmetic(v: int, w: nat, rest: nat, high: nat, low: nat)
    requires v == rest + high * w && 0 <= rest < w && w % 8 == 0 && v % 8 == low && high < 256
    ensures var m := v % (64 * w);
      v - low + (high % 64 + 64 - high) * w == 64 * w + m / 8 * 8 && 0 <= m / 8 * 8 < 64 * w
  {
    var q, h := high / 64, high % 64;
    var m := rest + h * w;
    assert high * w == (64 * w) * q + h * w by { Spread(q, h, w); }
    MulMono(w, h, 63);
    DivUnique(64 * w, v, q, m);
    assert (h + 64 - high) * w == h * w + 64 * w - high * w;
    LowBits(m, q, w, v);
  }

  lemma Spread(q: int, h: int, w: int)
    ensures (64 * q + h) * w == (64 * w) * q + h * w
  {
  }

  lemma LowBits(m: int, q: int, w: int, v: int)
    requires v == (64 * w) * q + m && w % 8 == 0
    ensures v % 8 == m % 8
  {
    var e := w / 8;
    assert (64 * w) * q == (64 * e * q) * 8;
    ModShift(8, m, 64 * e * q);
  }
}
