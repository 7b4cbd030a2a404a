/** Numbers written as sequences of digits, least significant first, in any base.
    Digits may be out of range or negative: a limb array mid-computation still has a value. */
module Positional {
  import opened Modular

  function Pow(b: nat, k: nat): nat {
    if k == 0 then 1 else b * Pow(b, k - 1)
  }

  function Val(b: nat, s: seq<int>): int {
    if s == [] then 0 else s[0] + b * Val(b, s[1..])
  }

  predicate Digits(b: nat, s: seq<int>) {
    forall i :: 0 <= i < |s| ==> 0 <= s[i] < b
  }

  lemma Assoc(x: int, y: int, z: int)
    ensures x * (y * z) == (x * y) * z
  {
  }

  lemma {:induction false} PowAdd(b: nat, i: nat, j: nat)
    ensures Pow(b, i + j) == Pow(b, i) * Pow(b, j)
    decreases i
  {
    if i > 0 {
      PowAdd(b, i - 1, j);
      Assoc(b, Pow(b, i - 1), Pow(b, j));
    }
  }

  lemma {:induction false} PowPositive(b: nat, k: nat)
    requires b > 0
    ensures Pow(b, k) > 0
  {
    if k > 0 { PowPositive(b, k - 1); }
  }

  lemma AppendStep(b: int, u: int, p: int, v: int)
    ensures b * (u + p * v) == b * u + (b * p) * v
  {
    Assoc(b, p, v);
  }

  lemma {:induction false} ValAppend(b: nat, s: seq<int>, t: seq<int>)
    ensures Val(b, s + t) == Val(b, s) + Pow(b, |s|) * Val(b, t)
  {
    if s == [] {
      assert s + t == t;
    } else {
      ValAppend(b, s[1..], t);
      assert (s + t)[1..] == s[1..] + t;
      AppendStep(b, Val(b, s[1..]), Pow(b, |s| - 1), Val(b, t));
    }
  }

  lemma ValSplit(b: nat, s: seq<int>, k: nat)
    requires k <= |s|
    ensures Val(b, s) == Val(b, s[..k]) + Pow(b, k) * Val(b, s[k..])
  {
    ValAppend(b, s[..k], s[k..]);
    assert s[..k] + s[k..] == s;
  }

  lemma ValSnoc(b: nat, s: seq<int>, x: int)
    ensures Val(b, s + [x]) == Val(b, s) + x * Pow(b, |s|)
  {
    ValAppend(b, s, [x]);
    assert Val(b, [x]) == x + b * Val(b, [x][1..]) == x;
  }

  lemma ValPrefix(b: nat, s: seq<int>, k: nat)
    requires k < |s|
    ensures Val(b, s[..k + 1]) == Val(b, s[..k]) + s[k] * Pow(b, k)
  {
    assert s[..k + 1] == s[..k] + [s[k]];
    ValSnoc(b, s[..k], s[k]);
  }

  lemma Difference(p: int, x: int, y: int, r: int)
    ensures p * (y + r) == p * (x + r) + (y - x) * p
  {}

  /** Changing one digit changes the value by the difference times its weight. */
  lemma ValUpdate(b: nat, s: seq<int>, k: nat, x: int)
    requires k < |s|
    ensures Val(b, s[k := x]) == Val(b, s) + (x - s[k]) * Pow(b, k)
  {
    var t := s[k := x];
    ValSplit(b, s, k);
    ValSplit(b, t, k);
    assert t[..k] == s[..k];
    assert t[k..][1..] == s[k..][1..];
    var p := Pow(b, k);
    var r := b * Val(b, s[k..][1..]);
    assert Val(b, s[k..]) == s[k] + r && Val(b, t[k..]) == x + r;
    Difference(p, s[k], x, r);
  }

  lemma BoundStep(b: nat, x: int, v: int, p: nat)
    requires 0 <= x < b && 0 <= v < p
    ensures 0 <= x + b * v < b * p
  {
    MulMono(b, v + 1, p);
    MulMono(b, 0, v);
  }

  lemma {:induction false} ValBound(b: nat, s: seq<int>)
    requires Digits(b, s)
    ensures 0 <= Val(b, s) < Pow(b, |s|)
  {
    if s != [] {
      assert Digits(b, s[1..]);
      ValBound(b, s[1..]);
      assert 0 <= s[0] < b;
      BoundStep(b, s[0], Val(b, s[1..]), Pow(b, |s| - 1));
    }
  }

  lemma {:induction false} ValZero(b: nat, s: seq<int>)
    requires forall i :: 0 <= i < |s| ==> s[i] == 0
    ensures Val(b, s) == 0
  {
    if s != [] { ValZero(b, s[1..]); }
  }

  /** Digits in range are determined by the value. */
  lemma {:induction false} ValInjective(b: nat, s: seq<int>, t: seq<int>)
    requires |s| == |t| && Digits(b, s) && Digits(b, t) && Val(b, s) == Val(b, t)
    ensures s == t
  {
    if s != [] {
      var u, v := Val(b, s[1..]), Val(b, t[1..]);
      DivUnique(b, Val(b, s), u, s[0]);
      DivUnique(b, Val(b, t), v, t[0]);
      assert Digits(b, s[1..]) && Digits(b, t[1..]);
      ValInjective(b, s[1..], t[1..]);
      assert s == [s[0]] + s[1..] && t == [t[0]] + t[1..];
    }
  }

  lemma LinearStep(b: int, k: int, d: int, x: int, y: int)
    ensures b * (x + k * y) + k * d == b * x + k * (d + b * y)
  {
    assert k * (d + b * y) == k * d + k * (b * y);
    assert b * (x + k * y) == b * x + b * (k * y);
    assert b * (k * y) == k * (b * y);
  }

  /** The value is linear: digitwise a + k*b has value a + k*b. */
  lemma {:induction false} ValLinear(b: nat, s: seq<int>, t: seq<int>, k: int, r: seq<int>)
    requires |s| == |t| == |r|
    requires forall i :: 0 <= i < |r| ==> r[i] == s[i] + k * t[i]
    ensures Val(b, r) == Val(b, s) + k * Val(b, t)
  {
    if r != [] {
      ValLinear(b, s[1..], t[1..], k, r[1..]);
      LinearStep(b, k, t[0], Val(b, s[1..]), Val(b, t[1..]));
    }
  }

  /** Moving the carry of one byte to the next keeps the value. */
  lemma CarryByte(done: seq<int>, u: int, x: int, v: int)
    requires Val(256, done) + u * Pow(256, |done|) == v
    ensures Val(256, done + [(u + x) % 256]) + ((u + x) / 256) * Pow(256, |done| + 1) == v + x * Pow(256, |done|)
  {
    var t, w := u + x, Pow(256, |done|);
    ValSnoc(256, done, t % 256);
    CarryAlgebra(t / 256, t % 256, w, u, x);
  }

  lemma CarryAlgebra(q: int, r: int, w: int, u: int, x: int)
    requires u + x == 256 * q + r
    ensures r * w + q * (256 * w) == u * w + x * w
  {
    assert (256 * q + r) * w == q * (256 * w) + r * w;
  }
}
