/** The definitions of Poly1305 against RFC 8439: its constants, its mask and its worked example. */
module Poly1305Standard {
  import opened Bits
  import opened Modular
  import opened Positional
  import opened Poly1305

  lemma Constants()
    ensures P1305 == Pow(2, 130) - 5 && TWO128 == Pow(2, 128)
  {
    hide Pow;
    PowersOfTwo();
    PowAdd(2, 32, 32);
    PowAdd(2, 64, 64);
    PowAdd(2, 128, 2);
    TwoSquared();
  }

  lemma TwoSquared()
    ensures Pow(2, 2) == 4
  {
  }

  // ---- The mask of section 2.5 ----

  lemma AndStep(x: int, y: int)
    ensures And(x, y) == (x % 2) * (y % 2) + 2 * And(x / 2, y / 2)
  {
  }

  lemma {:induction false} AndSplit(n: nat, x: nat, y: nat, h: int, k: int)
    requires x < Pow(2, n) && y < Pow(2, n)
    ensures And(x + Pow(2, n) * h, y + Pow(2, n) * k) == And(x, y) + Pow(2, n) * And(h, k)
  {
    hide And;
    if n == 0 {
      AndNone(0);
    } else {
      var p := Pow(2, n - 1);
      AndSplit(n - 1, x / 2, y / 2, h, k);
      AndStep(x, y);
      Shifted(x, p, h);
      Shifted(y, p, k);
      Shifted(0, p, And(h, k));
      AndStep(x + 2 * p * h, y + 2 * p * k);
    }
  }

  lemma Shifted(x: int, p: int, h: int)
    ensures (x + 2 * p * h) / 2 == x / 2 + p * h && (x + 2 * p * h) % 2 == x % 2 && 2 * p * h == 2 * (p * h)
  {
    var t := p * h;
    assert 2 * p * h == 2 * t;
  }

  lemma {:induction false} AndOnes(n: nat, x: nat)
    ensures Pow(2, n) > 0 && And(x, Pow(2, n) - 1) == x % Pow(2, n)
  {
    hide And;
    PowPositive(2, n);
    if n == 0 {
      AndComm(x, 0);
      AndNone(x);
    } else {
      var p := Pow(2, n - 1);
      PowPositive(2, n - 1);
      AndOnes(n - 1, x / 2);
      AndStep(x, 2 * p - 1);
      assert (2 * p - 1) / 2 == p - 1 && (2 * p - 1) % 2 == 1;
      LongRemainder(x, p);
    }
  }

  lemma LongRemainder(x: nat, p: nat)
    requires p > 0
    ensures x % (2 * p) == 2 * (x / 2 % p) + x % 2
  {
    var h := x / 2;
    var q, m := h / p, h % p;
    assert h == p * q + m;
    Assoc(2, p, q);
    DivUnique(2 * p, x, q, 2 * m + x % 2);
  }

  lemma {:induction false} AndComm(x: int, y: int)
    ensures And(x, y) == And(y, x)
    decreases Abs(x) + Abs(y)
  {
    if !IsSign(x) || !IsSign(y) { AndComm(x / 2, y / 2); }
  }

  /** The three bytes that the mask consists of. */
  lemma AndByte(x: byte)
    ensures And(x, 255) == x && And(x, 15) == x % 16 && And(x, 252) == x - x % 4
  {
    hide And, Pow;
    SmallPowers();
    AndOnes(8, x);
    AndOnes(4, x);
    AndOnes(6, x / 4);
    AndStep(x, 252);
    AndStep(x / 2, 126);
  }

  lemma SmallPowers()
    ensures Pow(2, 4) == 16 && Pow(2, 6) == 64 && Pow(2, 8) == 256
  {
  }

  function MaskByte(j: nat): byte {
    if j % 4 == 3 then 0x0f else if j % 4 == 0 && j > 0 then 0xfc else 0xff
  }

  lemma ClampedIsAnd(k: seq<byte>, j: nat)
    requires |k| >= 16 && j < 16
    ensures ClampedByte(k, j) == And(k[j], MaskByte(j))
  {
    hide And;
    AndByte(k[j]);
  }

  lemma {:induction false} AndBytes(s: seq<byte>, t: seq<byte>, u: seq<int>)
    requires |s| == |t| == |u| && forall i :: 0 <= i < |s| ==> u[i] == And(s[i], t[i])
    ensures Num(u) == And(Num(s), Num(t))
  {
    hide And;
    if s == [] {
      AndNone(0);
    } else {
      AndBytes(s[1..], t[1..], u[1..]);
      SmallPowers();
      AndSplit(8, s[0], t[0], Num(s[1..]), Num(t[1..]));
    }
  }

  /** r is the first half of the key, read as a number and masked. */
  lemma ClampIsMask(k: seq<byte>)
    requires |k| >= 16
    ensures ClampedKey(k) == And(Num(k[..16]), 0x0fff_fffc_0fff_fffc_0fff_fffc_0fff_ffff)
  {
    hide And, ClampedByte;
    var mask := seq(16, (j: nat) requires j < 16 => MaskByte(j));
    var r := seq(16, (j: nat) requires j < 16 => ClampedByte(k, j) as int);
    forall j: nat | j < 16 ensures r[j] == And(k[..16][j], mask[j]) {
      ClampedIsAnd(k, j);
    }
    AndBytes(k[..16], mask, r);
    MaskValue(mask);
  }

  lemma MaskValue(mask: seq<byte>)
    requires |mask| == 16 && forall j :: 0 <= j < 16 ==> mask[j] == MaskByte(j)
    ensures Num(mask) == 0x0fff_fffc_0fff_fffc_0fff_fffc_0fff_ffff
  {
    FourBytes(mask, 0, 0x0fff_ffff);
    FourBytes(mask, 4, 0x0fff_fffc);
    FourBytes(mask, 8, 0x0fff_fffc);
    FourBytes(mask, 12, 0x0fff_fffc);
    assert mask[0..] == mask && mask[16..] == [];
  }

  function Four(a: byte, b: byte, c: byte, d: byte): nat {
    (a as int) + 256 * (b as int) + 0x1_0000 * (c as int) + 0x100_0000 * (d as int)
  }

  lemma FourBytes(s: seq<byte>, i: nat, v: nat)
    requires i + 4 <= |s| && v == Four(s[i], s[i + 1], s[i + 2], s[i + 3])
    ensures Num(s[i..]) == v + 0x1_0000_0000 * Num(s[i + 4..])
  {
    var t, u, w, x := s[i..], s[i + 1..], s[i + 2..], s[i + 3..];
    assert t[1..] == u && u[1..] == w && w[1..] == x && x[1..] == s[i + 4..];
    assert Num(t) == s[i] + 256 * Num(u) && Num(u) == s[i + 1] + 256 * Num(w);
    assert Num(w) == s[i + 2] + 256 * Num(x) && Num(x) == s[i + 3] + 256 * Num(s[i + 4..]);
  }

  // ---- The example of section 2.5.2 ----

  const KEY_R: seq<byte> := [
    0x85, 0xd6, 0xbe, 0x78, 0x57, 0x55, 0x6d, 0x33, 0x7f, 0x44, 0x52, 0xfe, 0x42, 0xd5, 0x06, 0xa8
  ]

  const KEY_S: seq<byte> := [
    0x01, 0x03, 0x80, 0x8a, 0xfb, 0x0d, 0xb2, 0xfd, 0x4a, 0xbf, 0xf6, 0xaf, 0x41, 0x49, 0xf5, 0x1b
  ]

  /** "Cryptographic Fo", "rum Research Gro" and "up" */
  const FIRST: seq<byte> := [67, 114, 121, 112, 116, 111, 103, 114, 97, 112, 104, 105, 99, 32, 70, 111]
  const SECOND: seq<byte> := [114, 117, 109, 32, 82, 101, 115, 101, 97, 114, 99, 104, 32, 71, 114, 111]
  const THIRD: seq<byte> := [117, 112]

  lemma KeyParts()
    ensures ClampedKey(KEY_R + KEY_S) == 0x806_d540_0e52_447c_036d_5554_08be_d685
    ensures Num((KEY_R + KEY_S)[16..]) == 0x1bf5_4941_aff6_bf4a_fdb2_0dfb_8a80_0301
  {
    hide Num, KEY_S;
    var k := KEY_R + KEY_S;
    var r := seq(16, (j: nat) requires j < 16 => ClampedByte(k, j) as int);
    var clamped: seq<byte> := [
      0x85, 0xd6, 0xbe, 0x08, 0x54, 0x55, 0x6d, 0x03, 0x7c, 0x44, 0x52, 0x0e, 0x40, 0xd5, 0x06, 0x08];
    assert r == clamped;
    SixteenBytes(clamped, 0x08be_d685, 0x036d_5554, 0x0e52_447c, 0x0806_d540);
    NoBytes(clamped[16..]);
    SecondHalf();
    assert k[16..] == KEY_S;
  }

  lemma SecondHalf()
    ensures |KEY_S| == 16 && Num(KEY_S) == 0x1bf5_4941_aff6_bf4a_fdb2_0dfb_8a80_0301
  {
    hide Num;
    SixteenBytes(KEY_S, 0x8a80_0301, 0xfdb2_0dfb, 0xaff6_bf4a, 0x1bf5_4941);
    NoBytes(KEY_S[16..]);
  }

  lemma NoBytes(s: seq<byte>)
    requires s == []
    ensures Num(s) == 0
  {
  }

  lemma LastOne(s: seq<byte>)
    requires s == [1]
    ensures Num(s) == 1
  {
    assert s[1..] == [];
    NoBytes(s[1..]);
    assert Num(s) == s[0] + 256 * Num(s[1..]);
  }

  /** The value of the first sixteen bytes, from that of their words. */
  lemma SixteenBytes(s: seq<byte>, a: nat, b: nat, c: nat, d: nat)
    requires |s| >= 16
    requires a == Four(s[0], s[1], s[2], s[3]) && b == Four(s[4], s[5], s[6], s[7])
    requires c == Four(s[8], s[9], s[10], s[11]) && d == Four(s[12], s[13], s[14], s[15])
    ensures Num(s) == a + 0x1_0000_0000 * b + 0x1_0000_0000_0000_0000 * c
      + 0x1_0000_0000_0000_0000_0000_0000 * d + 0x1_0000_0000_0000_0000_0000_0000_0000_0000 * Num(s[16..])
  {
    hide Num, Four;
    FourBytes(s, 0, a);
    FourBytes(s, 4, b);
    FourBytes(s, 8, c);
    FourBytes(s, 12, d);
    assert s[0..] == s;
  }

  lemma FirstBlock(m: seq<byte>)
    ensures Block(FIRST + m) == 0x1_6f46_2063_6968_7061_7267_6f74_7079_7243
  {
    hide Num;
    var a := FIRST + [1];
    assert (FIRST + m)[..16] == FIRST && a[16..] == [1];
    SixteenBytes(a, 0x7079_7243, 0x7267_6f74, 0x6968_7061, 0x6f46_2063);
    LastOne(a[16..]);
  }

  lemma SecondBlock(m: seq<byte>)
    ensures Block(SECOND + m) == 0x1_6f72_4720_6863_7261_6573_6552_206d_7572
  {
    hide Num;
    var a := SECOND + [1];
    assert (SECOND + m)[..16] == SECOND && a[16..] == [1];
    SixteenBytes(a, 0x206d_7572, 0x6573_6552, 0x6863_7261, 0x6f72_4720);
    LastOne(a[16..]);
  }

  lemma ThirdBlock()
    ensures Block(THIRD) == 0x1_7075
  {
    var c: seq<int> := THIRD + [1];
    var d := c[1..];
    assert c == [117, 112, 1] && d == [112, 1] && d[1..] == [1];
    LastOne([1]);
    assert Num(c) == c[0] + 256 * Num(d) && Num(d) == d[0] + 256 * Num(d[1..]);
  }

  lemma Reduce(v: int, r: int, q: int, a: nat)
    requires a < P1305 && v * r == q * P1305 + a
    ensures (v * r) % P1305 == a
  {
    DivUnique(P1305, v * r, q, a);
  }

  /** The tag of the example. */
  lemma Example()
    ensures Tag(FIRST + (SECOND + THIRD), KEY_R + KEY_S) == 0xa927_010c_af8b_2bc2_c636_5130_c11d_06a8
  {
    hide Block, ClampedKey, Num, Absorb, KEY_R, KEY_S;
    var r := 0x806_d540_0e52_447c_036d_5554_08be_d685;
    KeyParts();
    FirstBlock(SECOND + THIRD);
    SecondBlock(THIRD);
    ThirdBlock();
    AbsorbStep(0, FIRST + (SECOND + THIRD), r);
    assert (FIRST + (SECOND + THIRD))[16..] == SECOND + THIRD && (SECOND + THIRD)[16..] == THIRD;
    Reduce(0x1_6f46_2063_6968_7061_7267_6f74_7079_7243, r,
      0x2e0ffa647299a001224557735a7a109, 0x2_c88c_7784_9d64_ae91_47dd_eb88_e69c_83fc);
    AbsorbStep(0x2_c88c_7784_9d64_ae91_47dd_eb88_e69c_83fc, SECOND + THIRD, r);
    Reduce(0x2_c88c_7784_9d64_ae91_47dd_eb88_e69c_83fc + 0x1_6f72_4720_6863_7261_6573_6552_206d_7572, r,
      0x8773264b431966e900dbd96edfe2158, 0x2_d8ad_af23_b033_7fa7_cccf_b4ea_344b_30de);
    AbsorbStep(0x2_d8ad_af23_b033_7fa7_cccf_b4ea_344b_30de, THIRD, r);
    Reduce(0x2_d8ad_af23_b033_7fa7_cccf_b4ea_344b_30de + 0x1_7075, r,
      0x5b6382283cff87793f9285521ab29e8, 0x2_8d31_b7ca_ff94_6c77_c884_4335_369d_03a7);
    AbsorbNothing(0x2_8d31_b7ca_ff94_6c77_c884_4335_369d_03a7, [], r);
  }
}
