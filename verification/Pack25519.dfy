/** Conversion between 32 little-endian bytes and sixteen limbs; packing reduces fully. */
module Pack25519 {
  import opened Bits
  import opened Modular
  import opened Positional
  import opened Field25519

  /** The integer written by little-endian bytes. */
  ghost function LittleEndian(s: seq<byte>): int {
    Val(256, s)
  }

  function Pair(lo: int, hi: int): int {
    lo + 256 * hi
  }

  ghost predicate Pairs(limbs: seq<int>, bytes: seq<byte>) {
    && |bytes| == 2 * |limbs|
    && forall i :: 0 <= i < |limbs| ==> limbs[i] == Pair(bytes[2 * i], bytes[2 * i + 1])
  }

  /** Two bytes to a limb does not change the number. */
  lemma {:induction false} PairsValue(limbs: seq<int>, bytes: seq<byte>)
    requires Pairs(limbs, bytes)
    ensures Limbs(limbs) == LittleEndian(bytes)
  {
    if limbs != [] {
      assert limbs[0] == Pair(bytes[2 * 0], bytes[2 * 0 + 1]);
      forall i | 0 <= i < |limbs| - 1
        ensures limbs[1..][i] == Pair(bytes[2..][2 * i], bytes[2..][2 * i + 1])
      {
        assert limbs[i + 1] == Pair(bytes[2 * (i + 1)], bytes[2 * (i + 1) + 1]);
      }
      PairsValue(limbs[1..], bytes[2..]);
      assert bytes[1..][1..] == bytes[2..];
      assert Val(256, bytes[1..]) == bytes[1] + 256 * Val(256, bytes[2..]);
    }
  }

  const TWO255: nat := P + 19

  lemma TopWeight()
    ensures 0x8000 * Pow(RADIX, 15) == TWO255
  {
    TwoTo256();
    assert RADIX * Pow(RADIX, 15) == 2 * TWO255;
  }

  /** Masking the top limb to 15 bits reduces modulo 2^255. */
  lemma MaskValue(s: seq<int>, t: seq<int>)
    requires |s| == 16 && Digits(RADIX, s) && t == s[15 := s[15] % 0x8000]
    ensures Digits(RADIX, t) && Limbs(t) == Limbs(s) % TWO255
  {
    var top, w := s[15] / 0x8000, Pow(RADIX, 15);
    ValUpdate(RADIX, s, 15, t[15]);
    assert t[15] - s[15] == -top * 0x8000;
    TopWeight();
    assert (-top * 0x8000) * w == -top * (0x8000 * w);
    MaskedTop(t);
    DivUnique(TWO255, Limbs(s), top, Limbs(t));
  }

  method Unpack25519(o: array<Exact>, n: array<byte>)
    requires o.Length == 16 && n.Length == 32
    modifies o
    ensures Digits(RADIX, o[..]) && Limbs(o[..]) == LittleEndian(n[..]) % TWO255
  {
    for i := 0 to 16
      invariant forall k :: 0 <= k < i ==> o[k] == Pair(n[2 * k], n[2 * k + 1])
    {
      o[i] := Pair(n[2 * i], n[2 * i + 1]);
    }
    ghost var s := o[..];
    PairsValue(s, n[..]);
    o[15] := o[15] % 0x8000;
    MaskValue(s, o[..]);
  }

  lemma MaskedTop(t: seq<int>)
    requires |t| == 16 && Digits(RADIX, t) && t[15] < 0x8000
    ensures 0 <= Limbs(t) < TWO255
  {
    ValBound(RADIX, t[..15]);
    ValPrefix(RADIX, t, 15);
    assert t[..16] == t;
    TopWeight();
    MulMono(Pow(RADIX, 15), t[15], 0x7fff);
  }

  /** Limbs of the modulus. */
  function PLimb(i: nat): int {
    if i == 0 then 0xffed else if i < 15 then 0xffff else 0x7fff
  }

  ghost function PLimbs(n: nat): seq<int> {
    seq(n, (i: nat) => PLimb(i))
  }

  lemma PLimbsValue()
    ensures Limbs(PLimbs(16)) == P
  {
    var s := PLimbs(16);
    var ones := seq(16, i => 0xffff);
    PowMinusOne(16);
    assert s == ones[0 := 0xffed][15 := 0x7fff];
    ValUpdate(RADIX, ones, 0, 0xffed);
    ValUpdate(RADIX, ones[0 := 0xffed], 15, 0x7fff);
    TopWeight();
    TwoTo256();
  }

  lemma {:induction false} PowMinusOne(n: nat)
    ensures Limbs(seq(n, i => 0xffff)) == Pow(RADIX, n) - 1
  {
    if n > 0 {
      PowMinusOne(n - 1);
      assert seq(n, i => 0xffff)[1..] == seq(n - 1, i => 0xffff);
    }
  }

  /** The borrow out of a limb difference that has not been masked yet. */
  function Borrow(x: int): int {
    (x / 0x1_0000) % 2
  }

  /** The difference t - p, limb by limb up to i, where limb i - 1 still carries its borrow. */
  ghost predicate Subtracting(m: seq<int>, t: seq<int>, i: nat) {
    && 1 <= i <= |m| && |m| == |t| == 16
    && Digits(RADIX, m[..i - 1])
    && -0x1_0000 <= m[i - 1] < RADIX
    && Limbs(m[..i]) == Limbs(t[..i]) - Limbs(PLimbs(i))
  }

  lemma SubtractStep(m: seq<int>, t: seq<int>, i: nat, n: seq<int>)
    requires i < 16 && Subtracting(m, t, i) && Digits(RADIX, t)
    requires n == m[i := t[i] - PLimb(i) - Borrow(m[i - 1])][i - 1 := m[i - 1] % RADIX]
    ensures Subtracting(n, t, i + 1)
  {
    var b := Borrow(m[i - 1]);
    assert m[i - 1] % RADIX == m[i - 1] + b * RADIX;
    assert n[..i] == m[..i][i - 1 := m[i - 1] + b * RADIX];
    ValUpdate(RADIX, m[..i], i - 1, m[i - 1] + b * RADIX);
    ValPrefix(RADIX, n, i);
    ValPrefix(RADIX, t, i);
    ValPrefix(RADIX, PLimbs(i + 1), i);
    assert PLimbs(i + 1)[..i] == PLimbs(i);
    assert PLimbs(i + 1)[..i + 1] == PLimbs(i + 1);
    assert Pow(RADIX, i) == RADIX * Pow(RADIX, i - 1);
    SubtractAlgebra(b, t[i], PLimb(i), Pow(RADIX, i - 1));
    forall k | 0 <= k < i ensures 0 <= n[..i][k] < RADIX {
      if k < i - 1 { assert n[..i][k] == m[..i - 1][k]; }
    }
  }

  lemma SubtractAlgebra(b: int, x: int, y: int, w: int)
    ensures (b * RADIX) * w + (x - y - b) * (RADIX * w) == x * (RADIX * w) - y * (RADIX * w)
  {
    assert (b * RADIX) * w == b * (RADIX * w);
    assert (x - y - b) * (RADIX * w) == x * (RADIX * w) - y * (RADIX * w) - b * (RADIX * w);
  }

  /** The sign of the top limb tells whether the subtraction went below zero. */
  lemma SubtractEnd(m: seq<int>, t: seq<int>)
    requires Subtracting(m, t, 16) && Digits(RADIX, t)
    ensures Limbs(m) == Limbs(t) - P
    ensures Borrow(m[15]) == if Limbs(t) >= P then 0 else 1
    ensures Limbs(t) >= P ==> Digits(RADIX, m)
  {
    hide Val, Pow, PLimbs;
    assert m[..16] == m && t[..16] == t;
    PLimbsValue();
    ValPrefix(RADIX, m, 15);
    ValBound(RADIX, m[..15]);
    PowPositive(RADIX, 15);
    TopSign(Limbs(m[..15]), m[15], Pow(RADIX, 15));
    BorrowSign(m[15]);
    assert forall k :: 0 <= k < 15 ==> m[k] == m[..15][k];
  }

  lemma BorrowSign(x: int)
    requires -0x1_0000 <= x < RADIX
    ensures Borrow(x) == if x >= 0 then 0 else 1
  {
  }

  lemma TopSign(low: int, top: int, w: nat)
    requires 0 <= low < w
    ensures low + top * w >= 0 <==> top >= 0
  {
    if top < 0 { MulMono(w, top, -1); } else { MulMono(w, 0, top); }
  }

  /** One borrow-then-swap round: subtracts P if that stays non-negative. */
  method SubtractRound(t: array<Exact>, m: array<Exact>)
    requires t.Length == 16 && m.Length == 16 && t != m && Digits(RADIX, t[..])
    modifies t, m
    ensures Digits(RADIX, t[..])
    ensures Limbs(t[..]) == old(Limbs(t[..])) - (if old(Limbs(t[..])) >= P then P else 0)
  {
    ghost var s := t[..];
    m[0] := t[0] - 0xffed;
    ValPrefix(RADIX, m[..], 0);
    ValPrefix(RADIX, s, 0);
    ValPrefix(RADIX, PLimbs(1), 0);
    assert PLimbs(1)[..1] == PLimbs(1) && m[..][..1] == m[..1];
    for i := 1 to 15
      invariant t[..] == s && Subtracting(m[..], s, i)
    {
      ghost var before := m[..];
      m[i] := t[i] - 0xffff - Borrow(ToInt32(m[i - 1]));
      m[i - 1] := ToInt32(m[i - 1]) % 0x1_0000;
      SubtractStep(before, s, i, m[..]);
    }
    ghost var before := m[..];
    m[15] := t[15] - 0x7fff - Borrow(ToInt32(m[14]));
    var b := Borrow(ToInt32(m[15]));
    m[14] := ToInt32(m[14]) % 0x1_0000;
    SubtractStep(before, s, 15, m[..]);
    SubtractEnd(m[..], s);
    assert Within(m[..], TWO31 - 1) by {
      forall k | 0 <= k < 16 ensures 1 - TWO31 <= m[k] <= TWO31 - 1 {
        if k < 15 { assert m[k] == m[..15][k]; }
      }
    }
    Sel25519(t, m, 1 - b);
  }

  method StoreLimbs(o: array<byte>, t: array<Exact>)
    requires o.Length == 32 && t.Length == 16 && Digits(RADIX, t[..])
    modifies o
    ensures t[..] == old(t[..]) && LittleEndian(o[..]) == Limbs(t[..])
  {
    ghost var r := t[..];
    for i := 0 to 16
      invariant t[..] == r && forall k :: 0 <= k < i ==> r[k] == Pair(o[2 * k], o[2 * k + 1])
    {
      o[2 * i] := t[i] % 256;
      o[2 * i + 1] := t[i] / 256;
    }
    PairsValue(r, o[..]);
  }

  /** Packing writes the one integer in [0, P) congruent to the limbs, low byte first. */
  method Pack25519(o: array<byte>, n: array<Exact>)
    requires o.Length == 32 && Loose(n)
    modifies o
    ensures LittleEndian(o[..]) == old(El(n))
  {
    hide Val, Pow, LittleEndian;
    var m, t := new Exact[16](_ => 0), new Exact[16](_ => 0);
    ghost var u := n[..];
    for i := 0 to 16
      invariant n[..] == u && t[..i] == u[..i]
    {
      t[i] := n[i];
    }
    assert t[..] == u;
    Normalize(t);
    for j := 0 to 2
      invariant Digits(RADIX, t[..])
      invariant Limbs(t[..]) % P == Limbs(u) % P && 0 <= Limbs(t[..]) < (if j < 2 then TWO256 - j * P else P)
    {
      ModShift(P, Limbs(t[..]), -1);
      SubtractRound(t, m);
      ValBound(RADIX, t[..]);
    }
    StoreLimbs(o, t);
    DivUnique(P, Limbs(t[..]), 0, Limbs(t[..]));
  }

  /** Three carry passes leave every limb in range. */
  method Normalize(t: array<Exact>)
    requires t.Length == 16 && Input(t[..])
    modifies t
    ensures Digits(RADIX, t[..]) && Limbs(t[..]) % P == old(Limbs(t[..])) % P
    ensures 0 <= Limbs(t[..]) < TWO256
  {
    CarryProduct(t);
    ghost var s := t[..];
    ReducedInput(s);
    Car25519(t);
    CarryValue(t[..], Limbs(s));
    ThirdPass(t[..], Limbs(s));
  }
}
