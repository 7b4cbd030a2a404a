/** The field modulo 2^255 - 19 in sixteen signed limbs of 16 bits, kept in doubles. */
module Field25519 {
  import opened Bits
  import opened Modular
  import opened Positional

  /** An integer a double holds exactly. Every value stored in a Float64Array, and every
      intermediate of the limb arithmetic, is given this type. */
  type Exact = x: int | -0x20_0000_0000_0000 <= x <= 0x20_0000_0000_0000

  const P: nat := 0x7fffffffffffffffffffffffffffffffffffffffffffffffffffffffffffffed
  const RADIX: nat := 0x1_0000

  const TWO256: nat := 2 * P + 38

  ghost function Limbs(s: seq<int>): int {
    Val(RADIX, s)
  }

  ghost predicate Within(s: seq<int>, bound: int) {
    forall i :: 0 <= i < |s| ==> -bound <= s[i] <= bound
  }

  lemma TwoTo256()
    ensures Pow(RADIX, 16) == TWO256
  {
    assert Pow(RADIX, 4) == 0x1_0000_0000_0000_0000;
    PowAdd(RADIX, 4, 4);
    PowAdd(RADIX, 8, 8);
  }

  /** What one carry pass makes of limbs worth v: the sixteen base-65536 digits of v modulo
      2^256, with 38 times the overflow folded into limb 0. */
  ghost predicate Carried(s: seq<int>, v: int) {
    && |s| == 16
    && (var q := v / TWO256;
        && Limbs(s) == v - q * (2 * P)
        && Digits(RADIX, s[0 := s[0] - 38 * q]))
  }

  lemma CarryNext(s: seq<int>, i: nat, q: int)
    requires |s| == 16 && i < 15
    ensures Limbs(s[i + 1 := s[i + 1] + q][i := s[i] - q * RADIX]) == Limbs(s)
  {
    ValUpdate(RADIX, s, i + 1, s[i + 1] + q);
    ValUpdate(RADIX, s[i + 1 := s[i + 1] + q], i, s[i] - q * RADIX);
    assert Pow(RADIX, i + 1) == RADIX * Pow(RADIX, i);
    assert q * Pow(RADIX, i + 1) == (q * RADIX) * Pow(RADIX, i);
  }

  lemma CarryLast(s: seq<int>, q: int)
    requires |s| == 16 && Digits(RADIX, s[..15]) && 0 <= s[15] - q * RADIX < RADIX
    ensures Carried(s[0 := s[0] + 38 * q][15 := s[15] - q * RADIX], Limbs(s))
  {
    var d := s[15 := s[15] - q * RADIX];
    var t := s[0 := s[0] + 38 * q][15 := s[15] - q * RADIX];
    var v, w := Limbs(s), TWO256;
    TwoTo256();
    ValUpdate(RADIX, s, 15, s[15] - q * RADIX);
    assert (q * RADIX) * Pow(RADIX, 15) == q * w;
    forall k | 0 <= k < 16 ensures 0 <= d[k] < RADIX {
      if k < 15 { assert d[k] == s[..15][k]; }
    }
    ValBound(RADIX, d);
    assert 0 <= v - q * w < w;
    DivUnique(w, v, q, v - q * w);
    assert t == d[0 := d[0] + 38 * q];
    ValUpdate(RADIX, d, 0, d[0] + 38 * q);
    assert t[0 := t[0] - 38 * q] == d;
  }

  const CARRY_LIMIT := 0x8_0000_0000_0000

  method Car25519(o: array<Exact>)
    requires o.Length == 16 && Within(o[..], CARRY_LIMIT)
    modifies o
    ensures Carried(o[..], old(Limbs(o[..])))
  {
    hide Val, Pow, Carried;
    ghost var v := Limbs(o[..]);
    for i := 0 to 16
      invariant forall k :: 0 <= k < i && i < 16 ==> 0 <= o[k] < RADIX
      invariant forall k :: i < k < 16 ==> -CARRY_LIMIT <= o[k] <= CARRY_LIMIT
      invariant i < 16 ==> -CARRY_LIMIT - 0x10_0000_0000 <= o[i] <= CARRY_LIMIT + 0x10_0000_0000
      invariant if i < 16 then Limbs(o[..]) == v else Carried(o[..], v)
    {
      ghost var s := o[..];
      o[i] := o[i] + 65536;
      var c := o[i] / 65536;
      var n := (i + 1) * (if i < 15 then 1 else 0);
      o[n] := o[n] + (c - 1 + 37 * (c - 1) * (if i == 15 then 1 else 0));
      o[i] := o[i] - c * 65536;
      if i < 15 {
        CarryNext(s, i, c - 1);
        assert o[..] == s[i + 1 := s[i + 1] + (c - 1)][i := s[i] - (c - 1) * RADIX];
      } else {
        CarryLast(s, c - 1);
        assert o[..] == s[0 := s[0] + 38 * (c - 1)][15 := s[15] - (c - 1) * RADIX];
      }
    }
  }

  lemma WithinStep(bound: int, p: int, x: int, y: int)
    requires bound * (p - 1) >= (RADIX - 1) * x
    requires bound >= y
    ensures bound * (RADIX * p - 1) >= (RADIX - 1) * (y + RADIX * x)
  {
    assert bound * (RADIX * p - 1) == RADIX * (bound * (p - 1)) + (RADIX - 1) * bound;
  }

  /** Limbs within a bound are worth at most bound * (2^256 - 1) / 65535. */
  lemma {:induction false} WithinValue(s: seq<int>, bound: int)
    requires Within(s, bound)
    ensures -bound * (Pow(RADIX, |s|) - 1) <= (RADIX - 1) * Limbs(s) <= bound * (Pow(RADIX, |s|) - 1)
  {
    if s != [] {
      assert Within(s[1..], bound) && -bound <= s[0] <= bound;
      WithinValue(s[1..], bound);
      var p, x := Pow(RADIX, |s| - 1), Limbs(s[1..]);
      WithinStep(bound, p, x, s[0]);
      WithinStep(bound, p, -x, -s[0]);
    }
  }

  /** The limb range of a product: what two carry passes leave. */
  ghost predicate Reduced(s: seq<int>) {
    && |s| == 16
    && -38 <= s[0] <= 65573
    && Digits(RADIX, s[1..])
  }

  lemma CarryValue(s: seq<int>, v: int)
    requires Carried(s, v)
    ensures Limbs(s) == v % TWO256 + 38 * (v / TWO256)
    ensures Limbs(s) % P == v % P
  {
    var q := v / TWO256;
    assert v == TWO256 * q + v % TWO256;
    assert v - q * (2 * P) == v + (-2 * q) * P;
    ModShift(P, v, -2 * q);
  }

  const PASS_LIMIT := 0x10_0000_0000

  lemma SecondPass(s: seq<int>, v: int, t: seq<int>)
    requires Carried(s, v) && Carried(t, Limbs(s))
    requires -PASS_LIMIT * TWO256 <= v <= PASS_LIMIT * TWO256
    ensures Reduced(t) && 0 <= Limbs(t) < TWO256
  {
    CarryValue(s, v);
    var q := v / TWO256;
    assert -PASS_LIMIT <= q <= PASS_LIMIT;
    var w := Limbs(s);
    CarryValue(t, w);
    assert -1 <= w / TWO256 <= 1;
    var d := t[0 := t[0] - 38 * (w / TWO256)];
    assert 0 <= d[0] < RADIX;
    forall i | 0 <= i < 15 ensures 0 <= t[1..][i] < RADIX {
      assert t[1..][i] == d[i + 1];
    }
  }

  lemma ThirdPass(t: seq<int>, v: int)
    requires Carried(t, v) && 0 <= v < TWO256
    ensures Digits(RADIX, t) && Limbs(t) == v
  {
    DivUnique(TWO256, v, 0, v);
    assert t[0 := t[0] - 38 * 0] == t;
  }

  const INPUT_LIMIT := 131146
  const PRODUCT_LIMIT := 17199273316

  /** One more product a_i * b_j in column i + j. */
  lemma ColumnAdd(t: seq<int>, i: nat, j: nat, a: int, b: int)
    requires i + j < |t|
    ensures Limbs(t[i + j := t[i + j] + a * b]) == Limbs(t) + (a * Pow(RADIX, i)) * (b * Pow(RADIX, j))
  {
    ValUpdate(RADIX, t, i + j, t[i + j] + a * b);
    PowAdd(RADIX, i, j);
    Shuffle(a, b, Pow(RADIX, i), Pow(RADIX, j));
  }

  lemma Shuffle(a: int, b: int, p: int, q: int)
    ensures (a * b) * (p * q) == (a * p) * (b * q)
  {
    calc {
      (a * b) * (p * q);
      a * (b * (p * q));
      a * (p * (b * q));
      (a * p) * (b * q);
    }
  }

  /** Folding columns 16 to 30 back with factor 38 keeps the residue. */
  lemma FoldValue(t: seq<int>, u: seq<int>)
    requires |t| == 31 && |u| == 16
    requires u[15] == t[15] && forall i :: 0 <= i < 15 ==> u[i] == t[i] + 38 * t[i + 16]
    ensures Limbs(u) % P == Limbs(t) % P
  {
    var hi := t[16..] + [0];
    forall i | 0 <= i < 16 ensures u[i] == t[..16][i] + 38 * hi[i] {
      if i < 15 { assert u[i] == t[i] + 38 * t[i + 16]; } else { assert u[15] == t[15]; }
    }
    ValSplit(RADIX, t, 16);
    ValSnoc(RADIX, t[16..], 0);
    ValLinear(RADIX, t[..16], hi, 38, u);
    TwoTo256();
    var h := Limbs(t[16..]);
    assert Limbs(t) == Limbs(u) + (2 * h) * P;
    ModShift(P, Limbs(u), 2 * h);
  }

  /** Two carry passes over limbs small enough for a product. */
  lemma CarryTwice(u: seq<int>, s: seq<int>, t: seq<int>)
    requires |u| == 16 && Within(u, CARRY_LIMIT) && Carried(s, Limbs(u)) && Carried(t, Limbs(s))
    ensures Reduced(t) && 0 <= Limbs(t) < TWO256 && Limbs(t) % P == Limbs(u) % P
  {
    WithinValue(u, CARRY_LIMIT);
    TwoTo256();
    SecondPass(s, Limbs(u), t);
    CarryValue(s, Limbs(u));
    CarryValue(t, Limbs(s));
  }

  /** After one pass the limbs are small again, so a second pass is exact. */
  lemma CarriedWithin(s: seq<int>, v: int)
    requires Carried(s, v) && -PASS_LIMIT * TWO256 <= v <= PASS_LIMIT * TWO256
    ensures Within(s, 64 * PASS_LIMIT)
  {
    var q := v / TWO256;
    assert -PASS_LIMIT <= q <= PASS_LIMIT;
    var d := s[0 := s[0] - 38 * q];
    forall i | 0 <= i < 16 ensures -64 * PASS_LIMIT <= s[i] <= 64 * PASS_LIMIT {
      assert 0 <= d[i] < RADIX;
    }
  }

  /** The residue a limb array stands for. */
  ghost function Elem(s: seq<int>): nat {
    Limbs(s) % P
  }

  ghost function FMul(x: int, y: int): nat { (x * y) % P }
  ghost function FAdd(x: int, y: int): nat { (x + y) % P }
  ghost function FSub(x: int, y: int): nat { (x - y) % P }

  ghost predicate Input(s: seq<int>) {
    |s| == 16 && Within(s, INPUT_LIMIT)
  }

  lemma ReducedInput(s: seq<int>)
    ensures Reduced(s) ==> Within(s, 65573)
  {
    assert Reduced(s) ==> forall i :: 1 <= i < 16 ==> s[i] == s[1..][i - 1];
  }

  /** The residue held by an array, and its two limb ranges. */
  ghost function El(a: array<Exact>): nat
    reads a
  {
    Elem(a[..])
  }

  ghost predicate Tight(a: array<Exact>)
    reads a
    ensures Tight(a) ==> Loose(a)
  {
    ReducedInput(a[..]);
    Reduced(a[..])
  }

  ghost predicate Loose(a: array<Exact>)
    reads a
  {
    Input(a[..])
  }

  lemma ProductWithin(x: int, y: int)
    requires -INPUT_LIMIT <= x <= INPUT_LIMIT && -INPUT_LIMIT <= y <= INPUT_LIMIT
    ensures -PRODUCT_LIMIT <= x * y <= PRODUCT_LIMIT
  {
    var u: int, w: int := Abs(x), Abs(y);
    MulMono(Abs(x), w, INPUT_LIMIT);
    MulMono(INPUT_LIMIT, u, INPUT_LIMIT);
    assert x * y == u * w || x * y == -(u * w);
  }

  lemma RowAdd(x: int, y: int, z: int)
    ensures x * (y + z) == x * y + x * z
    ensures (y + z) * x == y * x + z * x
  {}

  /** Value of the columns after i rows of the schoolbook product and j products of the next row. */
  ghost function Partial(a: seq<int>, b: seq<int>, i: nat, j: nat): int
    requires i <= |a| && j <= |b| && (j > 0 ==> i < |a|)
  {
    Limbs(a[..i]) * Limbs(b) + (if j == 0 then 0 else (a[i] * Pow(RADIX, i)) * Limbs(b[..j]))
  }

  lemma PartialProduct(t: seq<int>, a: seq<int>, b: seq<int>, i: nat, j: nat)
    requires i < |a| && j < |b| && i + j < |t| && Limbs(t) == Partial(a, b, i, j)
    ensures Limbs(t[i + j := t[i + j] + a[i] * b[j]]) == Partial(a, b, i, j + 1)
  {
    ColumnAdd(t, i, j, a[i], b[j]);
    ValPrefix(RADIX, b, j);
    RowAdd(a[i] * Pow(RADIX, i), Limbs(b[..j]), b[j] * Pow(RADIX, j));
  }

  lemma PartialRow(a: seq<int>, b: seq<int>, i: nat)
    requires i < |a| && |b| > 0
    ensures Partial(a, b, i, |b|) == Partial(a, b, i + 1, 0)
  {
    assert b[..|b|] == b;
    ValPrefix(RADIX, a, i);
    RowAdd(Limbs(b), Limbs(a[..i]), a[i] * Pow(RADIX, i));
  }

  /** The schoolbook product in 31 columns: no carry, and every partial sum fits a double. */
  method Columns(a: array<Exact>, b: array<Exact>) returns (t: array<Exact>)
    requires Loose(a) && Loose(b)
    ensures fresh(t) && t.Length == 31 && Within(t[..], 16 * PRODUCT_LIMIT)
    ensures Limbs(t[..]) == Limbs(a[..]) * Limbs(b[..])
  {
    ghost var sa, sb := a[..], b[..];
    t := new Exact[31](_ => 0);
    ValZero(RADIX, t[..]);
    for i := 0 to 16
      invariant a[..] == sa && b[..] == sb
      invariant forall k :: 0 <= k < 31 ==> -i * PRODUCT_LIMIT <= t[k] <= i * PRODUCT_LIMIT
      invariant Limbs(t[..]) == Partial(sa, sb, i, 0)
    {
      for j := 0 to 16
        invariant a[..] == sa && b[..] == sb
        invariant forall k :: 0 <= k < 31 ==>
          var n := if i <= k < i + j then i + 1 else i;
          -n * PRODUCT_LIMIT <= t[k] <= n * PRODUCT_LIMIT
        invariant Limbs(t[..]) == Partial(sa, sb, i, j)
      {
        ghost var u := t[..];
        ProductWithin(sa[i], sb[j]);
        PartialProduct(u, sa, sb, i, j);
        var p: Exact := a[i] * b[j];
        t[i + j] := t[i + j] + p;
        assert t[..] == u[i + j := u[i + j] + sa[i] * sb[j]];
      }
      PartialRow(sa, sb, i);
    }
    assert sa[..16] == sa;
  }

  const COLUMN_LIMIT := 624 * PRODUCT_LIMIT

  lemma FoldWithin(t: seq<int>, u: seq<int>)
    requires |t| == 31 && |u| == 16 && Within(t, 16 * PRODUCT_LIMIT)
    requires u[15] == t[15] && forall i :: 0 <= i < 15 ==> u[i] == t[i] + 38 * t[i + 16]
    ensures Within(u, COLUMN_LIMIT)
  {
    forall i | 0 <= i < 16 ensures -COLUMN_LIMIT <= u[i] <= COLUMN_LIMIT {
      assert -16 * PRODUCT_LIMIT <= t[i] <= 16 * PRODUCT_LIMIT;
      if i < 15 { assert -16 * PRODUCT_LIMIT <= t[i + 16] <= 16 * PRODUCT_LIMIT; }
    }
  }

  /** The two carry passes that end a product. */
  method CarryProduct(o: array<Exact>)
    requires o.Length == 16 && Within(o[..], COLUMN_LIMIT)
    modifies o
    ensures Tight(o) && 0 <= Limbs(o[..]) < TWO256 && El(o) == old(El(o))
  {
    ghost var u := o[..];
    WithinValue(u, COLUMN_LIMIT);
    TwoTo256();
    Car25519(o);
    ghost var s := o[..];
    CarriedWithin(s, Limbs(u));
    Car25519(o);
    CarryTwice(u, s, o[..]);
  }

  method M(o: array<Exact>, a: array<Exact>, b: array<Exact>)
    requires o.Length == 16 && Loose(a) && Loose(b)
    modifies o
    ensures Tight(o) && El(o) == FMul(old(El(a)), old(El(b)))
  {
    ghost var va, vb := Limbs(a[..]), Limbs(b[..]);
    var t := Columns(a, b);
    ghost var cols := t[..];
    for i := 0 to 15
      invariant forall k :: 0 <= k < i ==> t[k] == cols[k] + 38 * cols[k + 16]
      invariant forall k :: i <= k < 31 ==> t[k] == cols[k]
    {
      t[i] := t[i] + 38 * t[i + 16];
    }
    ghost var folded := t[..];
    for i := 0 to 16
      invariant t[..] == folded && o[..i] == folded[..i]
    {
      o[i] := t[i];
    }
    assert o[..] == folded[..16];
    FoldWithin(cols, o[..]);
    FoldValue(cols, o[..]);
    CarryProduct(o);
    ModMul(P, va, vb);
  }

  method S(o: array<Exact>, a: array<Exact>)
    requires o.Length == 16 && Loose(a)
    modifies o
    ensures Tight(o) && El(o) == FMul(old(El(a)), old(El(a)))
  {
    M(o, a, a);
  }

  lemma ElemLinear(a: seq<int>, b: seq<int>, k: int, o: seq<int>)
    requires |a| == |b| == |o| && (k == 1 || k == -1)
    requires forall i :: 0 <= i < |o| ==> o[i] == a[i] + k * b[i]
    ensures Elem(o) == if k == 1 then FAdd(Elem(a), Elem(b)) else FSub(Elem(a), Elem(b))
  {
    ValLinear(RADIX, a, b, k, o);
    ModAdd(P, Limbs(a), Limbs(b));
    ModSub(P, Limbs(a), Limbs(b));
  }

  method A(o: array<Exact>, a: array<Exact>, b: array<Exact>)
    requires o.Length == 16 && Tight(a) && Tight(b)
    modifies o
    ensures Loose(o) && El(o) == FAdd(old(El(a)), old(El(b)))
  {
    ghost var sa, sb := a[..], b[..];
    ReducedInput(sa);
    ReducedInput(sb);
    for i := 0 to 16
      invariant forall k :: i <= k < 16 ==> a[k] == sa[k] && b[k] == sb[k]
      invariant forall k :: 0 <= k < i ==> o[k] == sa[k] + sb[k]
    {
      o[i] := ToInt32(a[i] + b[i]);
    }
    ElemLinear(sa, sb, 1, o[..]);
  }

  method Z(o: array<Exact>, a: array<Exact>, b: array<Exact>)
    requires o.Length == 16 && Tight(a) && Tight(b)
    modifies o
    ensures Loose(o) && El(o) == FSub(old(El(a)), old(El(b)))
  {
    ghost var sa, sb := a[..], b[..];
    ReducedInput(sa);
    ReducedInput(sb);
    for i := 0 to 16
      invariant forall k :: i <= k < 16 ==> a[k] == sa[k] && b[k] == sb[k]
      invariant forall k :: 0 <= k < i ==> o[k] == sa[k] - sb[k]
    {
      o[i] := ToInt32(a[i] - b[i]);
    }
    ElemLinear(sa, sb, -1, o[..]);
  }

  /** Swaps p and q when b is 1 and keeps them when b is 0, without branching on b. */
  method Sel25519(p: array<Exact>, q: array<Exact>, b: int)
    requires p.Length == 16 && q.Length == 16 && p != q && (b == 0 || b == 1)
    requires Within(p[..], TWO31 - 1) && Within(q[..], TWO31 - 1)
    modifies p, q
    ensures p[..] == old(if b == 1 then q[..] else p[..])
    ensures q[..] == old(if b == 1 then p[..] else q[..])
  {
    var c := Not(b - 1);
    for i := 0 to 16
      invariant forall k :: i <= k < 16 ==> p[k] == old(p[k]) && q[k] == old(q[k])
      invariant forall k :: 0 <= k < i ==> p[k] == old(if b == 1 then q[k] else p[k])
      invariant forall k :: 0 <= k < i ==> q[k] == old(if b == 1 then p[k] else q[k])
    {
      var t := And(c, Xor(ToInt32(p[i]), ToInt32(q[i])));
      SelectByMask(c, p[i], q[i]);
      p[i] := Xor(ToInt32(p[i]), t);
      q[i] := Xor(ToInt32(q[i]), t);
    }
  }
}
