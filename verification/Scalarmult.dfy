/** inv25519 and cryptoScalarmult over limb arrays, against X25519. */
module Scalarmult {
  import opened Bits
  import opened Modular
  import opened Positional
  import opened Field25519
  import opened Pack25519
  import opened X25519

  lemma FMulAssoc(x: int, y: int, z: int)
    ensures FMul(FMul(x, y), z) == FMul(x, FMul(y, z))
  {
    ModMulLeft(P, FMul(x, y), x * y, z);
    ModMulLeft(P, FMul(y, z), y * z, x);
    assert (x * y) * z == (y * z) * x;
    assert FMul(y, z) * x == x * FMul(y, z);
  }

  lemma {:induction false} FPowAdd(x: int, e: nat, f: nat)
    ensures FMul(FPow(x, e), FPow(x, f)) == FPow(x, e + f)
    decreases e
  {
    if e == 0 {
      FPowReduced(x, f);
    } else {
      FPowAdd(x, e - 1, f);
      FMulAssoc(x, FPow(x, e - 1), FPow(x, f));
    }
  }

  lemma FPowReduced(x: int, e: nat)
    ensures FPow(x, e) < P
  {}

  /** Exponent reached after n rounds of square-and-multiply; rounds 250 and 252 only square. */
  ghost function Exponent(n: nat): nat {
    if n == 0 then 1 else 2 * Exponent(n - 1) + (if n == 250 || n == 252 then 0 else 1)
  }

  lemma {:induction false} ExponentRun(n: nat)
    requires n <= 249
    ensures Exponent(n) == Pow(2, n + 1) - 1
  {
    if n > 0 { ExponentRun(n - 1); }
  }

  /** 254 rounds reach 2^255 - 21 = P - 2. */
  lemma ExponentEnd()
    ensures Exponent(254) == P - 2
  {
    ExponentRun(249);
    TwoTo250();
    assert Exponent(250) == 2 * Exponent(249);
    assert Exponent(251) == 2 * Exponent(250) + 1;
    assert Exponent(252) == 2 * Exponent(251);
    assert Exponent(253) == 2 * Exponent(252) + 1;
  }

  lemma TwoTo250()
    ensures 32 * Pow(2, 250) == P + 19
  {
    assert Pow(2, 5) == 32;
    Doubling(5, 32);
    Doubling(10, 0x400);
    Doubling(20, 0x10_0000);
    Doubling(40, 0x100_0000_0000);
    Doubling(80, 0x1_0000_0000_0000_0000_0000);
    PowAdd(2, 160, 80);
    PowAdd(2, 240, 10);
  }

  lemma Doubling(n: nat, p: nat)
    requires Pow(2, n) == p
    ensures Pow(2, 2 * n) == p * p
  {
    PowAdd(2, n, n);
  }

  /** One round of square-and-multiply. */
  lemma RoundPower(x: nat, n: nat)
    requires x < P && n > 0
    ensures var s := FMul(FPow(x, Exponent(n - 1)), FPow(x, Exponent(n - 1)));
      FPow(x, Exponent(n)) == if n == 250 || n == 252 then s else FMul(s, x)
  {
    var e := Exponent(n - 1);
    FPowAdd(x, e, e);
    OnePower(x);
    FPowAdd(x, 2 * e, 1);
  }

  method Copy(o: array<Exact>, i: array<Exact>)
    requires o.Length == 16 && i.Length == 16
    modifies o
    ensures o[..] == old(i[..])
  {
    for a := 0 to 16
      invariant forall k :: 0 <= k < a ==> o[k] == old(i[k])
      invariant forall k :: a <= k < 16 ==> i[k] == old(i[k])
    {
      o[a] := i[a];
    }
  }

  /** Raises to the power P - 2. The output may be the input array. */
  method Inv25519(o: array<Exact>, i: array<Exact>)
    requires o.Length == 16 && Tight(i)
    modifies o
    ensures Tight(o) && El(o) == FPow(old(El(i)), P - 2)
  {
    ghost var s, x := i[..], El(i);
    var c := new Exact[16](_ => 0);
    Copy(c, i);
    OnePower(x);
    ExponentEnd();
    assert Exponent(0) == 1;
    hide FMul, FPow, Exponent;
    for a := 254 downto 0
      invariant i[..] == s && Tight(c) && El(c) == FPow(x, Exponent(254 - a))
    {
      RoundPower(x, 254 - a);
      S(c, c);
      if a != 2 && a != 4 {
        M(c, c, i);
      }
    }
    Copy(o, c);
  }

  lemma OnePower(x: nat)
    requires x < P
    ensures FPow(x, 1) == x
  {
    DivUnique(P, x, 0, x);
    assert FPow(x, 0) == 1 && x * 1 == x;
  }

  ghost predicate Fresh7(a: array<Exact>, b: array<Exact>, c: array<Exact>, d: array<Exact>,
    e: array<Exact>, f: array<Exact>, x: array<Exact>)
  {
    && a !in {b, c, d, e, f, x} && b !in {c, d, e, f, x} && c !in {d, e, f, x}
    && d !in {e, f, x} && e !in {f, x} && f != x
    && a.Length == b.Length == c.Length == d.Length == e.Length == f.Length == x.Length == 16
  }

  ghost predicate Tight4(a: array<Exact>, b: array<Exact>, c: array<Exact>, d: array<Exact>)
    reads a, b, c, d
  {
    Tight(a) && Tight(b) && Tight(c) && Tight(d)
  }

  ghost function PointsOf(a: array<Exact>, b: array<Exact>, c: array<Exact>, d: array<Exact>): Points
    reads a, b, c, d
  {
    Points(El(a), El(c), El(b), El(d))
  }

  /** The field operations of one ladder iteration, in the order and with the buffers of the source. */
  method LadderStep(a: array<Exact>, b: array<Exact>, c: array<Exact>, d: array<Exact>,
    e: array<Exact>, f: array<Exact>, x: array<Exact>, k121665: array<Exact>)
    requires Fresh7(a, b, c, d, e, f, x) && k121665 !in {a, b, c, d, e, f}
    requires Tight4(a, b, c, d) && Tight(x)
    requires Tight(k121665) && El(k121665) == A24
    modifies a, b, c, d, e, f
    ensures Tight4(a, b, c, d)
    ensures PointsOf(a, b, c, d) == Step(El(x), old(PointsOf(a, b, c, d)))
  {
    ghost var p := PointsOf(a, b, c, d);
    A(e, a, c);
    Z(a, a, c);
    A(c, b, d);
    Z(b, b, d);
    S(d, e);
    S(f, a);
    M(a, c, a);
    M(c, b, e);
    LadderTail(a, b, c, d, e, f, x, k121665);
    StepOrder(El(x), p);
  }

  ghost function Tail(x1: nat, cb: nat, da: nat, aa: nat, bb: nat): Points {
    var e := FSub(aa, bb);
    Points(
      FMul(aa, bb),
      FMul(e, FAdd(FMul(e, A24), aa)),
      FMul(FAdd(cb, da), FAdd(cb, da)),
      FMul(FMul(FSub(cb, da), FSub(cb, da)), x1))
  }

  /** The source subtracts in the other order before it squares, and multiplies the other way round. */
  lemma StepOrder(x1: nat, p: Points)
    ensures var a, b := FAdd(p.x2, p.z2), FSub(p.x2, p.z2);
      var c, d := FAdd(p.x3, p.z3), FSub(p.x3, p.z3);
      Tail(x1, FMul(c, b), FMul(d, a), FMul(a, a), FMul(b, b)) == Step(x1, p)
  {
    hide FMul, FAdd, FSub;
    var a, b := FAdd(p.x2, p.z2), FSub(p.x2, p.z2);
    var c, d := FAdd(p.x3, p.z3), FSub(p.x3, p.z3);
    var aa, e := FMul(a, a), FSub(FMul(a, a), FMul(b, b));
    Commutes(aa, FMul(A24, e));
    Commutes(A24, e);
    var cb, da := FMul(c, b), FMul(d, a);
    Commutes(cb, da);
    Commutes(x1, FMul(FSub(cb, da), FSub(cb, da)));
    SquareOfDifference(P, cb, da);
    Definitions(cb, da);
    Definitions(da, cb);
  }

  lemma Commutes(x: int, y: int)
    ensures FMul(x, y) == FMul(y, x) && FAdd(x, y) == FAdd(y, x)
  {
  }

  lemma Definitions(x: int, y: int)
    ensures FSub(x, y) == (x - y) % P && FMul(FSub(x, y), FSub(x, y)) == (FSub(x, y) * FSub(x, y)) % P
  {
  }

  lemma SquareOfDifference(m: nat, x: int, y: int)
    requires m > 0
    ensures (((x - y) % m) * ((x - y) % m)) % m == (((y - x) % m) * ((y - x) % m)) % m
  {
    ModMul(m, x - y, x - y);
    ModMul(m, y - x, y - x);
    assert (x - y) * (x - y) == (y - x) * (y - x);
  }

  method LadderTail(a: array<Exact>, b: array<Exact>, c: array<Exact>, d: array<Exact>,
    e: array<Exact>, f: array<Exact>, x: array<Exact>, k121665: array<Exact>)
    requires Fresh7(a, b, c, d, e, f, x) && k121665 !in {a, b, c, d, e, f}
    requires Tight(a) && Tight(c) && Tight(d) && Tight(f) && Tight(x)
    requires Tight(k121665) && El(k121665) == A24
    modifies a, b, c, d, e
    ensures Tight4(a, b, c, d)
    ensures PointsOf(a, b, c, d) == Tail(El(x), old(El(a)), old(El(c)), old(El(d)), El(f))
  {
    A(e, a, c);
    Z(a, a, c);
    S(b, a);
    Z(c, d, f);
    M(a, c, k121665);
    A(a, a, d);
    M(c, c, a);
    M(a, d, f);
    M(d, b, x);
    S(b, e);
  }

  /** cryptoScalarmult: q receives X25519(n, p), for every scalar and every coordinate. */
  method CryptoScalarmult(q: array<byte>, n: array<byte>, p: array<byte>)
    requires q.Length == 32 && n.Length == 32 && p.Length == 32
    modifies q
    ensures LittleEndian(q[..]) == old(Value(n[..], p[..]))
  {
    ghost var ns, us := n[..], p[..];
    ghost var k, x1 := DecodeScalar(ns), DecodeCoordinate(us) % P;
    assert Value(ns, us) == LadderResult(x1, k);
    var z := Clamped(n);
    var x := new Exact[16](_ => 0);
    Unpack25519(x, p);
    DigitsReduced(x[..]);
    assert El(x) == x1;
    var x16, x32 := RunLadder(z, x);
    EagerIsLazy(x1, k, 0);
    ghost var r := EagerLadder(x1, k, 0);
    assert LadderResult(x1, k) == Finish(r);
    hide LadderResult, EagerLadder, Ladder;
    Inv25519(x32, x32);
    M(x16, x16, x32);
    Pack25519.Pack25519(q, x16);
  }

  lemma DigitsReduced(s: seq<int>)
    requires |s| == 16 && Digits(RADIX, s)
    ensures Reduced(s)
  {}

  method Clamped(n: array<byte>) returns (z: array<byte>)
    requires n.Length == 32
    ensures fresh(z) && z[..] == ClampScalar(n[..])
  {
    z := new byte[32](_ => 0);
    for i := 0 to 31
      invariant forall k :: 0 <= k < i ==> z[k] == n[k]
    {
      z[i] := n[i];
    }
    z[31] := n[31] % 64 + 64;
    z[0] := z[0] - z[0] % 8;
  }

  method SelTight(p: array<Exact>, q: array<Exact>, b: int)
    requires p != q && (b == 0 || b == 1) && Tight(p) && Tight(q)
    modifies p, q
    ensures Tight(p) && Tight(q)
    ensures El(p) == old(if b == 1 then El(q) else El(p))
    ensures El(q) == old(if b == 1 then El(p) else El(q))
  {
    Sel25519(p, q, b);
  }

  /** One loop iteration: swap, step, swap back. */
  method LadderRound(a: array<Exact>, b: array<Exact>, c: array<Exact>, d: array<Exact>,
    e: array<Exact>, f: array<Exact>, x: array<Exact>, k121665: array<Exact>, r: int)
    requires Fresh7(a, b, c, d, e, f, x) && k121665 !in {a, b, c, d, e, f} && (r == 0 || r == 1)
    requires Tight4(a, b, c, d) && Tight(x)
    requires Tight(k121665) && El(k121665) == A24
    modifies a, b, c, d, e, f
    ensures Tight4(a, b, c, d)
    ensures PointsOf(a, b, c, d) == CSwap(r, Step(El(x), CSwap(r, old(PointsOf(a, b, c, d)))))
  {
    SelTight(a, b, r);
    SelTight(c, d, r);
    LadderStep(a, b, c, d, e, f, x, k121665);
    SelTight(a, b, r);
    SelTight(c, d, r);
  }

  method BitAt(z: array<byte>, i: nat) returns (r: int)
    requires i / 8 < z.Length
    ensures r == ScalarBit(LittleEndian(z[..]), i) && (r == 0 || r == 1)
  {
    PowPositive(2, i % 8);
    r := (z[i / 8] / Pow(2, i % 8)) % 2;
    BitOfBytes(z[..], i);
  }

  /** All 255 iterations, from bit 254 down to bit 0. */
  method LadderLoop(a: array<Exact>, b: array<Exact>, c: array<Exact>, d: array<Exact>,
    e: array<Exact>, f: array<Exact>, x: array<Exact>, k121665: array<Exact>, z: array<byte>)
    requires Fresh7(a, b, c, d, e, f, x) && k121665 !in {a, b, c, d, e, f} && z.Length == 32
    requires Tight4(a, b, c, d) && Tight(x) && Tight(k121665) && El(k121665) == A24
    requires PointsOf(a, b, c, d) == Points(1, 0, El(x), 1)
    modifies a, b, c, d, e, f
    ensures Tight4(a, b, c, d)
    ensures PointsOf(a, b, c, d) == EagerLadder(El(x), LittleEndian(z[..]), 0)
  {
    ghost var k, x1 := LittleEndian(z[..]), El(x);
    hide LittleEndian, El, Tight, Step, ScalarBit;
    for i := 255 downto 0
      invariant Tight4(a, b, c, d)
      invariant PointsOf(a, b, c, d) == EagerLadder(x1, k, i)
    {
      var r := BitAt(z, i);
      LadderRound(a, b, c, d, e, f, x, k121665, r);
    }
  }

  /** The ladder over the bits of the clamped scalar z; x16 and x32 receive x2 and z2. */
  method RunLadder(z: array<byte>, x: array<Exact>) returns (x16: array<Exact>, x32: array<Exact>)
    requires z.Length == 32 && Tight(x)
    ensures fresh(x16) && fresh(x32) && x16 != x32 && Tight(x16) && Tight(x32)
    ensures var r := EagerLadder(El(x), LittleEndian(z[..]), 0); El(x16) == r.x2 && El(x32) == r.z2
  {
    hide FMul, FAdd, FSub, Step, LittleEndian, EagerLadder, El, Tight;
    TightLength(x);
    var e := new Exact[16](_ => 0);
    var f := new Exact[16](_ => 0);
    var b := new Exact[16](_ => 0);
    Copy(b, x);
    SameElement(b, x);
    var a := Small(1, 0);
    var c := Small(0, 0);
    var d := Small(1, 0);
    var k121665 := Small(0xdb41, 1);
    LadderLoop(a, b, c, d, e, f, x, k121665, z);
    return a, c;
  }

  lemma TightLength(x: array<Exact>)
    requires Tight(x)
    ensures x.Length == 16
  {
  }

  lemma SameElement(b: array<Exact>, x: array<Exact>)
    requires b[..] == x[..] && Tight(x)
    ensures Tight(b) && El(b) == El(x)
  {
  }

  /** gf([x, y]) */
  method Small(x: Exact, y: Exact) returns (o: array<Exact>)
    requires 0 <= x < RADIX && 0 <= y < RADIX
    ensures fresh(o) && Tight(o) && El(o) == x + RADIX * y
  {
    o := new Exact[16](_ => 0);
    o[0], o[1] := x, y;
    SmallConstant(o[..], x, y);
  }

  lemma SmallConstant(s: seq<int>, x: int, y: int)
    requires |s| == 16 && s[0] == x && s[1] == y && 0 <= x < RADIX && 0 <= y < RADIX
    requires forall i :: 2 <= i < 16 ==> s[i] == 0
    ensures Reduced(s) && Elem(s) == x + RADIX * y
  {
    ValZero(RADIX, s[2..]);
    assert s[1..][1..] == s[2..];
    assert Limbs(s[1..]) == y + RADIX * Limbs(s[2..]);
    DivUnique(P, x + RADIX * y, 0, x + RADIX * y);
  }
}
