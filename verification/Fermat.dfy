/** Fermat's theorem: modulo a prime p, the power p - 2 is the inverse. */
module Fermat {
  import opened Modular
  import opened Positional

  ghost predicate Prime(p: nat) {
    p > 1 && forall d :: 1 < d < p ==> p % d != 0
  }

  // ---- Common divisors ----

  lemma {:induction false} Bezout(a: nat, b: nat) returns (u: int, v: int, g: nat)
    requires a > 0
    ensures u * a + v * b == g && g > 0 && a % g == 0 && b % g == 0
    decreases b
  {
    if b == 0 {
      u, v, g := 1, 0, a;
    } else {
      var q, r := a / b, a % b;
      var s, t, h := Bezout(b, r);
      u, v, g := t, s - t * q, h;
      assert a == b * q + r;
      assert t * (b * q + r) + (s - t * q) * b == s * b + t * r by { Exchange(s, t, q, b, r); }
      Multiple(b, q, r, g);
    }
  }

  lemma Exchange(s: int, t: int, q: int, b: int, r: int)
    ensures t * (b * q + r) + (s - t * q) * b == s * b + t * r
  {
    assert t * (b * q) == (t * q) * b;
  }

  lemma Multiple(b: int, q: int, r: int, g: nat)
    requires g > 0 && b % g == 0 && r % g == 0
    ensures (b * q + r) % g == 0
  {
    var c := b / g;
    assert (g * c) * q == (c * q) * g;
    ModShift(g, r, c * q);
  }

  lemma OnlyDivisors(p: nat, g: nat)
    requires Prime(p) && g > 0 && p % g == 0
    ensures g == 1 || g == p
  {
    if g > p {
      DivUnique(g, p, 0, p);
    }
  }

  /** Everything but the multiples of a prime has an inverse. */
  lemma Inverse(p: nat, a: nat) returns (u: nat)
    requires Prime(p) && a % p != 0
    ensures (u * a) % p == 1
  {
    var s, v, g := Bezout(a, p);
    OnlyDivisors(p, g);
    hide Prime;
    u := s % p;
    FromBezout(p, a, s, v);
  }

  lemma FromBezout(p: nat, a: int, s: int, v: int)
    requires p > 1 && s * a + v * p == 1
    ensures ((s % p) * a) % p == 1
  {
    ModShift(p, s * a, v);
    ModMod(p, s);
    ModMulLeft(p, s % p, s, a);
    DivUnique(p, 1, 0, 1);
  }

  lemma Zero(p: nat, a: nat, b: nat)
    requires Prime(p) && (a * b) % p == 0 && a % p != 0
    ensures b % p == 0
  {
    var u := Inverse(p, a);
    ModMulLeft(p, u * a, 1, b);
    ModMulLeft(p, a * b, 0, u);
    assert (a * b) * u == (u * a) * b;
  }

  // ---- Products ----

  function Product(s: seq<nat>): nat {
    if s == [] then 1 else s[0] * Product(s[1..])
  }

  predicate Distinct(s: seq<nat>) {
    forall i, j :: 0 <= i < j < |s| ==> s[i] != s[j]
  }

  lemma {:induction false} ProductWithout(s: seq<nat>, k: nat)
    requires k < |s|
    ensures Product(s) == s[k] * Product(s[..k] + s[k + 1..])
  {
    var rest := s[..k] + s[k + 1..];
    if k == 0 {
      assert rest == s[1..];
    } else {
      ProductWithout(s[1..], k - 1);
      assert s[1..][..k - 1] + s[1..][k..] == rest[1..];
      Assoc(s[0], s[k], Product(rest[1..]));
      Assoc(s[k], s[0], Product(rest[1..]));
      assert s[0] * s[k] == s[k] * s[0];
    }
  }

  /** The same numbers in another order have the same product. */
  lemma {:induction false} ProductOrder(s: seq<nat>, t: seq<nat>)
    requires Distinct(s) && Distinct(t) && forall x :: x in s <==> x in t
    ensures Product(s) == Product(t)
  {
    if s == [] {
      FirstIn(t);
    } else {
      assert s[0] in t;
      var k :| 0 <= k < |t| && t[k] == s[0];
      var rest := t[..k] + t[k + 1..];
      ProductWithout(t, k);
      SameRest(s, t, k);
      ProductOrder(s[1..], rest);
    }
  }

  lemma FirstIn(t: seq<nat>)
    ensures t != [] ==> t[0] in t
  {
  }

  lemma SameRest(s: seq<nat>, t: seq<nat>, k: nat)
    requires Distinct(s) && Distinct(t) && (forall x :: x in s <==> x in t) && s != [] && k < |t| && t[k] == s[0]
    ensures var rest := t[..k] + t[k + 1..]; Distinct(rest) && forall x :: x in s[1..] <==> x in rest
  {
    var rest := t[..k] + t[k + 1..];
    forall x | x in s[1..] ensures x in rest {
      var i :| 0 <= i < |s[1..]| && s[1..][i] == x;
      assert s[i + 1] == x && s[0] != x && x in t;
      var j :| 0 <= j < |t| && t[j] == x;
      assert if j < k then rest[j] == x else rest[j - 1] == x;
    }
    forall x | x in rest ensures x in s[1..] {
      var j :| 0 <= j < |rest| && rest[j] == x;
      assert x == t[if j < k then j else j + 1] && x in t && x in s;
      var i :| 0 <= i < |s| && s[i] == x;
      assert i != 0 && s[1..][i - 1] == x;
    }
  }

  /** Multiplying every factor by a multiplies the product by a power of a. */
  lemma {:induction false} ProductScaled(p: nat, a: nat, s: seq<nat>, t: seq<nat>)
    requires p > 0 && |s| == |t| && forall i :: 0 <= i < |s| ==> s[i] % p == (a * t[i]) % p
    ensures Product(s) % p == (Pow(a, |s|) * Product(t)) % p
  {
    if s != [] {
      ProductScaled(p, a, s[1..], t[1..]);
      var w, q := Pow(a, |s| - 1), Product(t[1..]);
      ModMulBoth(p, s[0], a * t[0], Product(s[1..]), w * q);
      Shuffle(a, t[0], w, q);
    }
  }

  lemma Shuffle(a: int, x: int, w: int, q: int)
    ensures (a * x) * (w * q) == (a * w) * (x * q)
  {
    Assoc(a, x, w * q);
    Assoc(x, w, q);
    Assoc(w, x, q);
    Assoc(a, w, x * q);
    assert x * w == w * x;
  }

  lemma {:induction false} ProductNonzero(p: nat, s: seq<nat>)
    requires Prime(p) && forall i :: 0 <= i < |s| ==> s[i] % p != 0
    ensures Product(s) % p != 0
  {
    if s == [] {
      DivUnique(p, 1, 0, 1);
    } else {
      ProductNonzero(p, s[1..]);
      if Product(s) % p == 0 {
        Zero(p, s[0], Product(s[1..]));
        assert false;
      }
    }
  }

  // ---- The theorem ----

  /** The numbers from 1 to p - 1, and what they become when they are multiplied by a. */
  function Residues(p: nat): (s: seq<nat>)
    requires p > 0
    ensures |s| == p - 1
  {
    seq(p - 1, i requires 0 <= i < p - 1 => i + 1)
  }

  function Scaled(p: nat, a: nat): (s: seq<nat>)
    requires p > 0
    ensures |s| == p - 1
  {
    seq(p - 1, i requires 0 <= i < p - 1 => (a * (i + 1)) % p)
  }

  lemma ResiduesFacts(p: nat)
    requires p > 1
    ensures Distinct(Residues(p)) && forall x :: x in Residues(p) <==> 0 < x < p
    ensures forall i :: 0 <= i < p - 1 ==> Residues(p)[i] % p != 0
  {
    forall x: nat | 0 < x < p ensures x in Residues(p) {
      assert Residues(p)[x - 1] == x;
    }
    forall i: nat | i < p - 1 ensures Residues(p)[i] % p != 0 {
      DivUnique(p, i + 1, 0, i + 1);
    }
  }

  /** Multiplication by a permutes the residues: its inverse takes each of them back. */
  lemma ScaledFacts(p: nat, a: nat)
    requires Prime(p) && a % p != 0
    ensures Distinct(Scaled(p, a)) && forall x :: x in Scaled(p, a) <==> 0 < x < p
  {
    var s := Scaled(p, a);
    var u := Inverse(p, a);
    forall i: nat | i < p - 1 ensures s[i] != 0 && (u * s[i]) % p == i + 1 {
      TakenBack(p, a, u, i + 1);
      DivUnique(p, i + 1, 0, i + 1);
    }
    forall x: nat | 0 < x < p ensures x in s {
      var i := (u * x) % p;
      TakenBack(p, u, a, x);
      DivUnique(p, x, 0, x);
      assert i != 0;
      assert s[i - 1] == x;
    }
    forall i, j | 0 <= i < j < |s| ensures s[i] != s[j] {
      assert (u * s[i]) % p == i + 1 && (u * s[j]) % p == j + 1;
    }
  }

  lemma TakenBack(p: nat, a: nat, u: nat, x: nat)
    requires p > 0 && ((u * a) % p == 1 || (a * u) % p == 1)
    ensures (u * ((a * x) % p)) % p == x % p && ((a * x) % p == 0 ==> x % p == 0)
  {
    var y := a * x;
    Commute(u, a);
    ModMod(p, y);
    ModMulBoth(p, u, u, y % p, y);
    Assoc(u, a, x);
    One(p, u * a);
    ModMulLeft(p, u * a, 1, x);
    if y % p == 0 {
      ModMulBoth(p, u, u, y, 0);
    }
  }

  lemma Commute(x: int, y: int)
    ensures x * y == y * x
  {
  }

  lemma One(p: nat, x: int)
    requires p > 0 && x % p == 1
    ensures 1 % p == 1
  {
  }

  /** a to the power p - 1 is 1 modulo p. */
  lemma LittleTheorem(p: nat, a: nat)
    requires Prime(p) && a % p != 0
    ensures Pow(a, p - 1) % p == 1
  {
    hide Product, Distinct, Residues, Scaled, Pow;
    var s, t := Scaled(p, a), Residues(p);
    ResiduesFacts(p);
    ScaledFacts(p, a);
    ProductOrder(s, t);
    ScaledAt(p, a);
    ProductScaled(p, a, s, t);
    ProductNonzero(p, t);
    var w, q := Pow(a, p - 1), Product(t);
    Cancel(p, w, q);
  }

  lemma ScaledAt(p: nat, a: nat)
    requires p > 0
    ensures forall i :: 0 <= i < p - 1 ==> Scaled(p, a)[i] % p == (a * Residues(p)[i]) % p
  {
  }

  lemma Cancel(p: nat, w: nat, q: nat)
    requires Prime(p) && q % p == (w * q) % p && q % p != 0
    ensures w % p == 1
  {
    var u := Inverse(p, q);
    ModMulLeft(p, q, w * q, u);
    Commute(q, u);
    Assoc(w, q, u);
    One(p, u * q);
    ModMulBoth(p, w, w, u * q, 1);
  }

  /** One factor less gives the inverse. */
  lemma PowerInverse(p: nat, a: nat)
    requires Prime(p) && a % p != 0
    ensures (a * Pow(a, p - 2)) % p == 1
  {
    LittleTheorem(p, a);
    assert Pow(a, p - 1) == a * Pow(a, p - 2);
  }
}
