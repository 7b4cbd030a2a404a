/** cryptoOnetimeauth: the Poly1305 one-time authenticator on seventeen byte limbs. */
module Poly1305 {
  import opened Bits
  import opened Modular
  import opened Positional

  const P1305: nat := 0x3_ffff_ffff_ffff_ffff_ffff_ffff_ffff_fffb
  const TWO128: nat := 0x1_0000_0000_0000_0000_0000_0000_0000_0000

  const TWO136: nat := 64 * P1305 + 320

  ghost function Num(s: seq<int>): int {
    Val(256, s)
  }

  lemma Weights()
    ensures Pow(256, 16) == TWO128
    ensures Pow(256, 17) == TWO136
  {
    assert Pow(256, 4) == 0x1_0000_0000;
    PowAdd(256, 4, 4);
    PowAdd(256, 8, 8);
  }

  // ---- The specification: section 2.5 of RFC 8439 ----

  /** Section 2.5: bytes 3, 7, 11, 15 keep four bits; bytes 4, 8, 12 lose the two lowest. */
  function ClampedByte(k: seq<byte>, j: nat): byte
    requires |k| >= 16 && j < 16
  {
    if j == 3 || j == 7 || j == 11 || j == 15 then k[j] % 16
    else if j == 4 || j == 8 || j == 12 then k[j] - k[j] % 4
    else k[j]
  }

  ghost function ClampedKey(k: seq<byte>): nat
    requires |k| >= 16
  {
    var r := seq(16, (j: nat) requires j < 16 => ClampedByte(k, j) as int);
    ValBound(256, r);
    Num(r)
  }

  /** The next block: up to sixteen bytes with a one appended. */
  ghost function Block(m: seq<byte>): int
  {
    Num((if |m| < 16 then m else m[..16]) + [1])
  }

  ghost function Absorb(acc: nat, m: seq<byte>, r: nat): nat
    decreases |m|
  {
    if m == [] then acc
    else Absorb(((acc + Block(m)) * r) % P1305, if |m| < 16 then [] else m[16..], r)
  }

  ghost function Tag(m: seq<byte>, k: seq<byte>): nat
    requires |k| == 32
  {
    (Absorb(0, m, ClampedKey(k)) + Num(k[16..])) % TWO128
  }

  // ---- The limb arithmetic ----

  ghost predicate AtMost(s: seq<int>, bound: int) {
    forall i :: 0 <= i < |s| ==> 0 <= s[i] <= bound
  }

  method Add1305(h: array<U32>, c: array<U32>)
    requires h.Length == 17 && c.Length == 17 && h != c
    requires AtMost(h[..], 255) && AtMost(c[..], 255)
    modifies h
    ensures AtMost(h[..], 255)
    ensures Num(h[..]) == (old(Num(h[..])) + Num(c[..])) % TWO136
  {
    ghost var sh, sc := h[..], c[..];
    var u := 0;
    assert Num(h[..0]) == Num(sh[..0]) == Num(sc[..0]) == 0;
    hide Num, Pow;
    for j := 0 to 17
      invariant forall k :: j <= k < 17 ==> h[k] == sh[k]
      invariant 0 <= u <= 1 && AtMost(h[..j], 255)
      invariant Num(h[..j]) + u * Pow(256, j) == Num(sh[..j]) + Num(sc[..j])
    {
      ghost var done := h[..j];
      AddStep(done, u, sh, sc, j);
      u := ToInt32(u + ToInt32(h[j] + c[j]));
      h[j] := u % 256;
      u := u / 256;
      assert h[..j + 1] == done + [h[j]];
    }
    assert h[..17] == h[..] && sh[..17] == sh && sc[..17] == sc;
    CarryDropped(Num(sh) + Num(sc), h[..], u);
  }

  lemma CarryDropped(v: int, s: seq<int>, u: int)
    requires |s| == 17 && AtMost(s, 255) && Num(s) + u * Pow(256, 17) == v
    ensures Num(s) == v % TWO136
  {
    ValBound(256, s);
    Weights();
    DivUnique(TWO136, v, u, Num(s));
  }

  lemma AddStep(done: seq<int>, u: int, a: seq<int>, b: seq<int>, j: nat)
    requires |done| == j < |a| && j < |b|
    requires Num(done) + u * Pow(256, j) == Num(a[..j]) + Num(b[..j])
    ensures var t := u + (a[j] + b[j]);
      Num(done + [t % 256]) + (t / 256) * Pow(256, j + 1) == Num(a[..j + 1]) + Num(b[..j + 1])
  {
    CarryByte(done, u, a[j] + b[j], Num(a[..j]) + Num(b[..j]));
    ValPrefix(256, a, j);
    ValPrefix(256, b, j);
    assert (a[j] + b[j]) * Pow(256, j) == a[j] * Pow(256, j) + b[j] * Pow(256, j);
  }

  /** The key multiplied by 2^(8j): limbs that overflow come back with factor 320. */
  ghost function Turned(r: seq<int>, j: nat): seq<int>
    requires |r| == 17 && j <= 17
  {
    seq(17, (i: nat) requires i < 17 => if j <= i then r[i - j] else 320 * r[i + 17 - j])
  }

  lemma {:induction false} ScaledValue(s: seq<int>, t: seq<int>)
    requires |t| == |s| && forall i :: 0 <= i < |s| ==> t[i] == 320 * s[i]
    ensures Num(t) == 320 * Num(s)
  {
    if s != [] { ScaledValue(s[1..], t[1..]); }
  }

  lemma TurnedValue(r: seq<int>, j: nat)
    requires |r| == 17 && j <= 17
    ensures Num(Turned(r, j)) % P1305 == (Pow(256, j) * Num(r)) % P1305
  {
    hide Turned, Val, Pow;
    var lo, hi := r[..17 - j], r[17 - j..];
    var scaled := seq(j, (i: nat) requires i < j => 320 * hi[i]);
    TurnedParts(r, j, scaled);
    ValAppend(256, scaled, lo);
    ScaledValue(hi, scaled);
    ValSplit(256, r, 17 - j);
    PowAdd(256, j, 17 - j);
    Weights();
    TurnedAlgebra(Pow(256, j), Pow(256, 17 - j), Num(lo), Num(hi));
  }

  lemma TurnedParts(r: seq<int>, j: nat, scaled: seq<int>)
    requires |r| == 17 && j <= 17 && |scaled| == j
    requires forall i :: 0 <= i < j ==> scaled[i] == 320 * r[17 - j..][i]
    ensures Turned(r, j) == scaled + r[..17 - j]
  {
  }

  lemma TurnedAlgebra(a: int, b: int, lo: int, hi: int)
    requires a * b == TWO136
    ensures (320 * hi + a * lo) % P1305 == (a * (lo + b * hi)) % P1305
  {
    assert a * (lo + b * hi) == a * lo + (a * b) * hi;
    assert a * (lo + b * hi) == 320 * hi + a * lo + (64 * hi) * P1305;
    ModShift(P1305, 320 * hi + a * lo, 64 * hi);
  }

  /** The first j terms of every product column. */
  ghost function Mix(h: seq<int>, r: seq<int>, j: nat): (s: seq<int>)
    requires |h| == |r| == 17 && j <= 17
    ensures |s| == 17
  {
    if j == 0 then seq(17, (i: nat) => 0)
    else
      var s, t := Mix(h, r, j - 1), Turned(r, j - 1);
      seq(17, (i: nat) requires i < 17 => s[i] + h[j - 1] * t[i])
  }

  lemma {:induction false} MixValue(h: seq<int>, r: seq<int>, j: nat)
    requires |h| == |r| == 17 && j <= 17
    ensures Num(Mix(h, r, j)) % P1305 == (Num(h[..j]) * Num(r)) % P1305
  {
    if j == 0 {
      ValZero(256, Mix(h, r, 0));
    } else {
      MixValue(h, r, j - 1);
      TurnedValue(r, j - 1);
      ValLinear(256, Mix(h, r, j - 1), Turned(r, j - 1), h[j - 1], Mix(h, r, j));
      ValPrefix(256, h, j - 1);
      MixAlgebra(Num(Mix(h, r, j - 1)), Num(Turned(r, j - 1)), h[j - 1], Num(h[..j - 1]), Pow(256, j - 1), Num(r));
    }
  }

  lemma MixAlgebra(s: int, t: int, d: int, v: int, w: int, r: int)
    requires s % P1305 == (v * r) % P1305 && t % P1305 == (w * r) % P1305
    ensures (s + d * t) % P1305 == ((v + d * w) * r) % P1305
  {
    ModMulLeft(P1305, t, w * r, d);
    assert t * d == d * t && (w * r) * d == d * (w * r);
    ModAdd(P1305, s, d * t);
    ModAdd(P1305, v * r, d * (w * r));
    assert (v + d * w) * r == v * r + d * (w * r);
  }

  const TERM_LIMIT := 255 * 320 * 255

  lemma TermBound(x: int, y: int)
    requires 0 <= x <= 255 && 0 <= y <= 320 * 255
    ensures 0 <= x * y <= TERM_LIMIT
  {
    MulMono(x, y, 320 * 255);
  }

  lemma MixStart(h: seq<int>, r: seq<int>, i: nat)
    requires |h| == |r| == 17 && i < 17
    ensures Mix(h, r, 0)[i] == 0
  {}

  lemma MixStep(h: seq<int>, r: seq<int>, j: nat, i: nat)
    requires |h| == |r| == 17 && j < 17 && i < 17
    ensures Mix(h, r, j + 1)[i] == Mix(h, r, j)[i] + h[j] * (if j <= i then r[i - j] else 320 * r[i + 17 - j])
  {
    hide Turned;
    TurnedAt(r, j, i);
  }

  lemma TurnedAt(r: seq<int>, j: nat, i: nat)
    requires |r| == 17 && j <= 17 && i < 17
    ensures Turned(r, j)[i] == if j <= i then r[i - j] else 320 * r[i + 17 - j]
  {}

  /** One product column; no partial sum reaches 2^31. */
  method Column(h: array<U32>, r: array<U32>, i: nat) returns (x: U32)
    requires h.Length == 17 && r.Length == 17 && i < 17
    requires AtMost(h[..], 255) && AtMost(r[..], 255)
    ensures x <= 17 * TERM_LIMIT && x == Mix(h[..], r[..], 17)[i]
  {
    ghost var sh, sr := h[..], r[..];
    x := 0;
    MixStart(sh, sr, i);
    for j := 0 to 17
      invariant x <= j * TERM_LIMIT && x == Mix(sh, sr, j)[i]
    {
      MixStep(sh, sr, j, i);
      hide Mix;
      var c := if j <= i then r[i - j] else ToInt32(320 * (r[i + 17 - j] as int));
      TermBound(h[j], c);
      x := ToInt32(x + (h[j] as int) * c);
    }
  }

  method Multiply(h: array<U32>, r: array<U32>) returns (x: array<U32>)
    requires h.Length == 17 && r.Length == 17
    requires AtMost(h[..], 255) && AtMost(r[..], 255)
    ensures fresh(x) && x.Length == 17 && AtMost(x[..], 17 * TERM_LIMIT)
    ensures Num(x[..]) % P1305 == (Num(h[..]) * Num(r[..])) % P1305
  {
    hide Val, Pow, Mix;
    x := new U32[17](_ => 0);
    ghost var sh, sr := h[..], r[..];
    for i := 0 to 17
      invariant h[..] == sh && r[..] == sr
      invariant forall k :: 0 <= k < i ==> x[k] <= 17 * TERM_LIMIT && x[k] == Mix(sh, sr, 17)[k]
    {
      x[i] := Column(h, r, i);
    }
    assert sh[..17] == sh;
    MixValue(sh, sr, 17);
    assert x[..] == Mix(sh, sr, 17);
  }

  lemma CarryStep(done: seq<int>, u: int, a: seq<int>, j: nat, v: int)
    requires |done| == j < |a| && Num(done) + u * Pow(256, j) == Num(a[..j]) + v
    ensures Num(done + [(u + a[j]) % 256]) + ((u + a[j]) / 256) * Pow(256, j + 1) == Num(a[..j + 1]) + v
  {
    CarryByte(done, u, a[j], Num(a[..j]) + v);
    ValPrefix(256, a, j);
  }

  const COLUMN_LIMIT := 17 * TERM_LIMIT
  const CARRY_LIMIT := 0x2000_0000

  /** One pass of carries over the sixteen low limbs, starting from carry u0. */
  method CarryPass(h: array<U32>, u0: int) returns (u: int)
    requires h.Length == 17 && AtMost(h[..16], COLUMN_LIMIT) && 0 <= u0 <= CARRY_LIMIT
    modifies h
    ensures AtMost(h[..16], 255) && h[16] == old(h[16]) && 0 <= u <= CARRY_LIMIT / 64
    ensures Num(h[..16]) + u * TWO128 == old(Num(h[..16])) + u0
  {
    ghost var s := h[..];
    u := u0;
    assert Num(h[..0]) == Num(s[..0]) == 0;
    assert Pow(256, 0) == 1;
    hide Num, Pow;
    for j := 0 to 16
      invariant forall k :: j <= k < 17 ==> h[k] == s[k]
      invariant AtMost(h[..j], 255) && 0 <= u <= if j == 0 then CARRY_LIMIT else CARRY_LIMIT / 64
      invariant Num(h[..j]) + u * Pow(256, j) == Num(s[..j]) + u0
    {
      ghost var done := h[..j];
      CarryStep(done, u, s, j, u0);
      assert s[j] == s[..16][j];
      u := ToInt32(u + h[j]);
      h[j] := u % 256;
      u := u / 256;
      assert h[..j + 1] == done + [h[j]];
    }
    Weights();
  }

  /** After a block the top limb stays below 5, so the value stays below 2 * P1305. */
  ghost predicate Settled(s: seq<int>) {
    |s| == 17 && AtMost(s[..16], 255) && 0 <= s[16] <= 4
  }

  lemma TopLimb(s: seq<int>)
    requires |s| == 17
    ensures Num(s) == Num(s[..16]) + s[16] * TWO128
    ensures AtMost(s[..16], 255) ==> 0 <= Num(s[..16]) < TWO128
  {
    assert s[..17] == s;
    ValPrefix(256, s, 16);
    Weights();
    if AtMost(s[..16], 255) { ValBound(256, s[..16]); }
  }

  lemma FoldTop(v: int, low: int, u: int, top: int)
    requires v == low + (u + top) * TWO128
    ensures (low + ((u + top) % 4) * TWO128 + 5 * ((u + top) / 4)) % P1305 == v % P1305
  {
    var q := (u + top) / 4;
    assert low + ((u + top) % 4) * TWO128 + 5 * q == v + (-q) * P1305;
    ModShift(P1305, v, -q);
  }

  /** First pass: everything above 2^130 leaves the limbs and comes back as five times itself. */
  method FoldPass(h: array<U32>) returns (u: int)
    requires h.Length == 17 && AtMost(h[..], COLUMN_LIMIT)
    modifies h
    ensures AtMost(h[..16], 255) && h[16] <= 3 && 0 <= u <= CARRY_LIMIT
    ensures (Num(h[..]) + u) % P1305 == old(Num(h[..])) % P1305
  {
    ghost var v := Num(h[..]);
    TopLimb(h[..]);
    assert h[..16] == h[..][..16];
    u := CarryPass(h, 0);
    ghost var low := h[..16];
    FoldTop(v, Num(low), u, h[16]);
    u := ToInt32(u + h[16]);
    h[16] := u % 4;
    u := ToInt32(5 * (u / 4));
    assert h[..][..16] == low;
    TopLimb(h[..]);
  }

  /** Second pass: adds the folded part; at most one carry reaches the top limb. */
  method SettlePass(h: array<U32>, u0: int)
    requires h.Length == 17 && AtMost(h[..16], 255) && h[16] <= 3 && 0 <= u0 <= CARRY_LIMIT
    modifies h
    ensures Settled(h[..]) && Num(h[..]) == old(Num(h[..])) + u0
  {
    ghost var s := h[..];
    assert h[..16] == s[..16];
    TopLimb(s);
    var u := CarryPass(h, u0);
    ghost var low := h[..16];
    ValBound(256, low);
    Weights();
    u := ToInt32(u + h[16]);
    h[16] := u;
    assert h[..][..16] == low;
    TopLimb(h[..]);
  }

  /** The two carry passes after a multiplication. */
  method Squeeze(h: array<U32>)
    requires h.Length == 17 && AtMost(h[..], COLUMN_LIMIT)
    modifies h
    ensures Settled(h[..]) && Num(h[..]) % P1305 == old(Num(h[..])) % P1305
  {
    var u := FoldPass(h);
    SettlePass(h, u);
  }

  /** Subtracts P1305 exactly when that leaves no negative number: the unique residue. */
  method Freeze(h: array<U32>)
    requires h.Length == 17 && Settled(h[..])
    modifies h
    ensures AtMost(h[..], 255) && Num(h[..]) == old(Num(h[..])) % P1305
  {
    ghost var s := h[..];
    var g := new U32[17](_ => 0);
    for j := 0 to 17
      invariant h[..] == s && forall k :: 0 <= k < j ==> g[k] == s[k]
    {
      g[j] := h[j];
    }
    assert g[..] == s;
    var minusp := new U32[17](_ => 0);
    minusp[0], minusp[16] := 5, 252;
    MinusP(minusp[..]);
    SettledByte(s);
    Add1305(h, minusp);
    ghost var t := h[..];
    var mask := ToInt32(-((h[16] as int) / 128));
    FreezeChoice(s, t);
    for j := 0 to 17
      invariant g[..] == s && forall k :: j <= k < 17 ==> h[k] == t[k]
      invariant forall k :: 0 <= k < j ==> h[k] == if mask == 0 then t[k] else s[k]
    {
      SelectByMask(mask, g[j], h[j]);
      h[j] := Xor(h[j], And(mask, Xor(g[j], h[j])));
    }
    assert h[..] == if mask == 0 then t else s;
  }

  lemma MinusP(s: seq<int>)
    requires |s| == 17 && s[0] == 5 && s[16] == 252 && forall i :: 1 <= i < 16 ==> s[i] == 0
    ensures Num(s) == TWO136 - P1305
  {
    var z := seq(17, (i: nat) => 0);
    ValZero(256, z);
    assert s == z[0 := 5][16 := 252];
    ValUpdate(256, z, 0, 5);
    ValUpdate(256, z[0 := 5], 16, 252);
    Weights();
  }

  lemma SettledByte(s: seq<int>)
    requires Settled(s)
    ensures AtMost(s, 255) && 0 <= Num(s) < 5 * TWO128
  {
    assert forall k :: 0 <= k < 16 ==> s[k] == s[..16][k];
    TopLimb(s);
  }

  /** Bit 7 of the top limb is the sign of the difference. */
  lemma FreezeChoice(s: seq<int>, t: seq<int>)
    requires Settled(s) && |t| == 17 && AtMost(t, 255)
    requires Num(t) == (Num(s) + (TWO136 - P1305)) % TWO136
    ensures t[16] / 128 == if Num(s) >= P1305 then 0 else 1
    ensures Num(s) % P1305 == if t[16] / 128 == 0 then Num(t) else Num(s)
  {
    SettledByte(s);
    TopLimb(t);
    var v := Num(s);
    if v >= P1305 {
      DivUnique(TWO136, v + (TWO136 - P1305), 1, v - P1305);
      DivUnique(P1305, v, 1, v - P1305);
    } else {
      DivUnique(TWO136, v + (TWO136 - P1305), 0, v + (TWO136 - P1305));
      DivUnique(P1305, v, 0, v);
    }
  }

  /** Loads one message block with the appended one. */
  method LoadBlock(c: array<U32>, m: array<byte>, mpos: nat, n: nat) returns (j: nat)
    requires c.Length == 17 && 0 < n && mpos + n <= m.Length
    modifies c
    ensures j == if n < 16 then n else 16
    ensures m[..] == old(m[..]) && AtMost(c[..], 255) && Num(c[..]) == Block(m[mpos..mpos + n])
    ensures 0 <= Num(c[..]) < 2 * TWO128
  {
    ghost var sm := m[..];
    for i := 0 to 17
      invariant m[..] == sm && forall k :: 0 <= k < i ==> c[k] == 0
    {
      c[i] := 0;
    }
    j := 0;
    while j < 16 && j < n
      invariant m[..] == sm && j <= 16 && j <= n
      invariant forall k :: 0 <= k < j ==> c[k] == sm[mpos + k]
      invariant forall k :: j <= k < 17 ==> c[k] == 0
    {
      c[j] := m[mpos + j];
      j := j + 1;
    }
    c[j] := 1;
    BlockValue(c[..], sm[mpos..mpos + n], j);
  }

  lemma BlockValue(c: seq<int>, m: seq<byte>, j: nat)
    requires |c| == 17 && j == (if |m| < 16 then |m| else 16) && c[j] == 1
    requires forall k :: 0 <= k < j ==> c[k] == m[k]
    requires forall k :: j < k < 17 ==> c[k] == 0
    ensures Num(c) == Block(m) && AtMost(c, 255) && 0 <= Num(c) < 2 * TWO128
  {
    var head := (if |m| < 16 then m else m[..16]) + [1];
    ValZero(256, c[j + 1..]);
    assert c == head + c[j + 1..];
    ValAppend(256, head, c[j + 1..]);
    TopLimb(c);
  }

  method ClampKey(k: array<byte>) returns (r: array<U32>)
    requires k.Length >= 32
    ensures fresh(r) && r.Length == 17 && AtMost(r[..], 255) && Num(r[..]) == ClampedKey(k[..32])
  {
    hide Num, ClampedKey, AtMost;
    r := new U32[17](_ => 0);
    ghost var ks := k[..32];
    for j := 0 to 16
      invariant k[..32] == ks && r[16] == 0 && forall i :: 0 <= i < j ==> r[i] == ks[i]
    {
      r[j] := k[j];
    }
    r[3] := r[3] % 16;
    r[4] := r[4] - r[4] % 4;
    r[7] := r[7] % 16;
    r[8] := r[8] - r[8] % 4;
    r[11] := r[11] % 16;
    r[12] := r[12] - r[12] % 4;
    r[15] := r[15] % 16;
    ClampedLimbs(ks, r[..]);
  }

  lemma ClampedLimbs(k: seq<byte>, r: seq<int>)
    requires |k| == 32 && |r| == 17 && r[16] == 0
    requires forall j :: 0 <= j < 16 ==> r[j] == ClampedByte(k, j)
    ensures AtMost(r, 255) && Num(r) == ClampedKey(k)
  {
    var s := seq(16, (j: nat) requires j < 16 => ClampedByte(k, j) as int);
    assert r == s + [0];
    ValSnoc(256, s, 0);
  }

  /** h := (h + block) * r, settled again. */
  method AbsorbBlock(h: array<U32>, c: array<U32>, r: array<U32>)
    requires h.Length == 17 && c.Length == 17 && r.Length == 17 && h != c && h != r
    requires Settled(h[..]) && AtMost(c[..], 255) && AtMost(r[..], 255) && Num(c[..]) < 2 * TWO128
    modifies h
    ensures Settled(h[..])
    ensures Num(h[..]) % P1305 == ((old(Num(h[..])) + Num(c[..])) * Num(r[..])) % P1305
  {
    ghost var v := Num(h[..]) + Num(c[..]);
    SettledByte(h[..]);
    ValBound(256, c[..]);
    DivUnique(TWO136, v, 0, v);
    Add1305(h, c);
    assert Num(h[..]) == v;
    var x := Multiply(h, r);
    ghost var s := x[..];
    for i := 0 to 17
      invariant x[..] == s && forall k :: 0 <= k < i ==> h[k] == s[k]
    {
      h[i] := x[i];
    }
    assert h[..] == s;
    Squeeze(h);
  }

  /** The message loop: h follows the accumulator of section 2.5. */
  method AbsorbAll(h: array<U32>, r: array<U32>, m: array<byte>, mpos0: nat, n0: nat)
    requires h.Length == 17 && r.Length == 17 && h != r && mpos0 + n0 <= m.Length
    requires Num(h[..]) == 0 && Settled(h[..]) && AtMost(r[..], 255)
    modifies h
    ensures Settled(h[..]) && m[..] == old(m[..])
    ensures Num(h[..]) % P1305 == Absorb(0, m[mpos0..mpos0 + n0], Num(r[..]) % P1305)
  {
    hide Absorb, Block, Settled, AtMost, Num;
    var mpos, n := mpos0, n0;
    ghost var sm, key := m[..], Num(r[..]);
    ghost var goal := Absorb(0, sm[mpos0..mpos0 + n0], key % P1305);
    var c := new U32[17](_ => 0);
    while n > 0
      invariant m[..] == sm && Num(r[..]) == key && AtMost(r[..], 255) && mpos + n == mpos0 + n0
      invariant Settled(h[..])
      invariant Absorb(Num(h[..]) % P1305, sm[mpos..mpos + n], key % P1305) == goal
    {
      ghost var rest := sm[mpos..mpos + n];
      ghost var v := Num(h[..]);
      var j := LoadBlock(c, m, mpos, n);
      AbsorbBlock(h, c, r);
      AbsorbAlgebra(v, Block(rest), key);
      AbsorbStep(v % P1305, rest, key % P1305);
      mpos := mpos + j;
      n := n - j;
      assert sm[mpos..mpos + n] == if |rest| < 16 then [] else rest[16..];
    }
    AbsorbNothing(Num(h[..]) % P1305, sm[mpos..mpos + n], key % P1305);
  }

  lemma AbsorbStep(acc: nat, m: seq<byte>, r: nat)
    requires m != []
    ensures Absorb(acc, m, r) == Absorb(((acc + Block(m)) * r) % P1305, if |m| < 16 then [] else m[16..], r)
  {
    hide Block;
  }

  lemma AbsorbNothing(acc: nat, m: seq<byte>, r: nat)
    requires m == []
    ensures Absorb(acc, m, r) == acc
  {
  }

  lemma AbsorbAlgebra(v: int, b: int, r: int)
    ensures ((v % P1305 + b) * (r % P1305)) % P1305 == ((v + b) * r) % P1305
  {
    ModAdd(P1305, v, b);
    ModAdd(P1305, v % P1305, b);
    ModMod(P1305, v);
    ModMod(P1305, r);
    ModMulBoth(P1305, v % P1305 + b, v + b, r % P1305, r);
  }

  lemma TagValue(acc: int, k: seq<byte>, h: seq<int>, c: seq<int>, t: seq<int>)
    requires |k| == 32 && |h| == |c| == |t| == 17 && 0 <= acc < P1305 && Num(h) == acc && AtMost(t, 255)
    requires c[16] == 0 && forall i :: 0 <= i < 16 ==> c[i] == k[i + 16]
    requires Num(t) == (Num(h) + Num(c)) % TWO136
    ensures Num(t[..16]) == (acc + Num(k[16..])) % TWO128
  {
    assert c[..16] == k[16..];
    TopLimb(c);
    TopLimb(t);
    ValBound(256, k[16..]);
    Weights();
    DivUnique(TWO136, Num(h) + Num(c), 0, Num(h) + Num(c));
    DivUnique(TWO128, acc + Num(k[16..]), t[16], Num(t[..16]));
  }

  lemma KeyReduced(k: seq<byte>)
    requires |k| == 32
    ensures ClampedKey(k) % P1305 == ClampedKey(k)
  {
    ValBound(256, seq(16, (j: nat) requires j < 16 => ClampedByte(k, j) as int));
    Weights();
    DivUnique(P1305, ClampedKey(k), 0, ClampedKey(k));
  }

  lemma {:induction false} AbsorbReduced(acc: nat, m: seq<byte>, r: nat)
    requires acc < P1305
    ensures Absorb(acc, m, r) < P1305
    decreases |m|
  {
    if m != [] {
      ValBound(256, (if |m| < 16 then m else m[..16]) + [1]);
      AbsorbReduced(((acc + Block(m)) * r) % P1305, if |m| < 16 then [] else m[16..], r);
    }
  }

  method AddKey(h: array<U32>, k: array<byte>) returns (ghost c: seq<int>)
    requires h.Length == 17 && k.Length >= 32 && AtMost(h[..], 255)
    modifies h
    ensures k[..32] == old(k[..32]) && AtMost(h[..], 255)
    ensures |c| == 17 && c[16] == 0 && forall i :: 0 <= i < 16 ==> c[i] == k[..32][i + 16]
    ensures Num(h[..]) == (old(Num(h[..])) + Num(c)) % TWO136
  {
    ghost var sk, s := k[..32], h[..];
    var b := new U32[17](_ => 0);
    for j := 0 to 16
      invariant k[..32] == sk && h[..] == s && b[16] == 0
      invariant forall i :: 0 <= i < j ==> b[i] == sk[i + 16]
    {
      b[j] := k[j + 16];
    }
    c := b[..];
    Add1305(h, b);
  }

  /** cryptoOnetimeauth: writes the sixteen tag bytes, and nothing else. The output, the message
      and the key may share one buffer. */
  method CryptoOnetimeauth(out: array<byte>, outpos: nat, m: array<byte>, mpos: nat, n: nat, k: array<byte>)
    requires outpos + 16 <= out.Length && mpos + n <= m.Length && k.Length >= 32
    modifies out
    ensures Num(out[outpos..outpos + 16]) == old(Tag(m[mpos..mpos + n], k[..32]))
    ensures forall i :: 0 <= i < out.Length && !(outpos <= i < outpos + 16) ==> out[i] == old(out[i])
  {
    ghost var sm, sk := m[mpos..mpos + n], k[..32];
    ghost var acc := Absorb(0, sm, ClampedKey(sk));
    assert Tag(sm, sk) == (acc + Num(sk[16..])) % TWO128;
    KeyReduced(sk);
    AbsorbReduced(0, sm, ClampedKey(sk));
    var r := ClampKey(k);
    var h := new U32[17](_ => 0);
    ValZero(256, h[..]);
    hide Num, Tag, ClampedKey, Absorb;
    AbsorbAll(h, r, m, mpos, n);
    Freeze(h);
    ghost var sh := h[..];
    assert Num(sh) == acc;
    ghost var c := AddKey(h, k);
    ghost var t := h[..];
    TagValue(acc, sk, sh, c, t);
    for j := 0 to 16
      invariant h[..] == t && out[outpos..outpos + j] == t[..j]
      invariant forall i :: 0 <= i < out.Length && !(outpos <= i < outpos + j) ==> out[i] == old(out[i])
    {
      out[outpos + j] := h[j];
    }
  }
}
