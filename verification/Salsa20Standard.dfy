/** The definitions of Salsa20, HSalsa20 and XSalsa20, cell by cell and rotation by rotation. */
module Salsa20Standard {
  import opened Bits
  import opened Modular
  import opened Positional
  import opened Salsa20
  import opened SalsaStream
  import opened Secretbox
  import Poly1305

  /** x with its 32 bits turned to the left by c places. */
  function Rotated(x: int, c: nat): int {
    (x * Pow(2, c)) % 0x1_0000_0000 + (x * Pow(2, c)) / 0x1_0000_0000
  }

  lemma PowersUsed()
    ensures Pow(2, 7) == 0x80 && Pow(2, 9) == 0x200 && Pow(2, 13) == 0x2000 && Pow(2, 18) == 0x4_0000
  {
    assert Pow(2, 4) == 16;
    PowAdd(2, 4, 3);
    PowAdd(2, 4, 5);
    PowAdd(2, 4, 9);
    PowAdd(2, 9, 9);
  }

  /** High bits that a shift by p moves out come in below. */
  lemma Turned(m: nat, x: nat, p: nat, q: nat)
    requires p > 0 && q > 0 && p * q == m && x < m
    ensures (x % q) * p == (x * p) % m && x / q == (x * p) / m
  {
    var h, l := x / q, x % q;
    assert x * p == m * h + l * p by { Shift(m, x, p, q, h, l); }
    MulMono(p, l + 1, q);
    assert p * (l + 1) == l * p + p;
    DivUnique(m, x * p, h, l * p);
  }

  lemma Shift(m: nat, x: nat, p: nat, q: nat, h: nat, l: nat)
    requires x == q * h + l && p * q == m
    ensures x * p == m * h + l * p
  {
    Assoc(p, q, h);
    assert x * p == p * (q * h) + l * p;
  }

  lemma RotLIsRotation(x: Word, c: nat)
    requires c in {7, 9, 13, 18}
    ensures RotL(x, c) == Rotated(x, c)
  {
    PowersUsed();
    if c == 7 {
      Turned(0x1_0000_0000, x, 0x80, 0x200_0000);
    } else if c == 9 {
      Turned(0x1_0000_0000, x, 0x200, 0x80_0000);
    } else if c == 13 {
      Turned(0x1_0000_0000, x, 0x2000, 0x8_0000);
    } else {
      Turned(0x1_0000_0000, x, 0x4_0000, 0x4000);
    }
  }

  /** The quarter round: each word in turn, xored with the rotated sum of the two before it, by 7, 9, 13
      and 18 places. */
  lemma QuarterRoundIs(y0: Word, y1: Word, y2: Word, y3: Word)
    ensures var q := QuarterRound(y0, y1, y2, y3);
      && q.y1 as int == Xor(y1, Rotated(((y0 as int) + y3) % 0x1_0000_0000, 7))
      && q.y2 as int == Xor(y2, Rotated(((q.y1 as int) + y0) % 0x1_0000_0000, 9))
      && q.y3 as int == Xor(y3, Rotated(((q.y2 as int) + q.y1) % 0x1_0000_0000, 13))
      && q.y0 as int == Xor(y0, Rotated(((q.y3 as int) + q.y2) % 0x1_0000_0000, 18))
  {
    hide Rotated, RotL, Xor;
    var q := QuarterRound(y0, y1, y2, y3);
    RotLIsRotation(Add32(y0, y3), 7);
    RotLIsRotation(Add32(q.y1, y0), 9);
    RotLIsRotation(Add32(q.y2, q.y1), 13);
    RotLIsRotation(Add32(q.y3, q.y2), 18);
  }

  /** An example of Bernstein's specification: a single bit. */
  lemma QuarterRoundExample()
    ensures QuarterRound(1, 0, 0, 0) == Quad(0x0800_8145, 0x80, 0x1_0200, 0x2050_0000)
  {
    hide Xor, RotL;
    Turns();
    XorComm(0, 0x80);
    XorComm(0, 0x1_0200);
    XorComm(0, 0x2050_0000);
    XorZero(0x80);
    XorZero(0x1_0200);
    XorZero(0x2050_0000);
    LastBit();
  }

  lemma Turns()
    ensures RotL(1, 7) == 0x80 && RotL(0x81, 9) == 0x1_0200 && RotL(0x1_0280, 13) == 0x2050_0000
    ensures RotL(0x2051_0200, 18) == 0x0800_8144
  {
  }

  lemma LastBit()
    ensures Xor(1, 0x0800_8144) == 0x0800_8145
  {
    hide Xor;
    XorStep(1, 0x0800_8144);
    XorComm(0, 0x0400_40a2);
    XorZero(0x0400_40a2);
  }

  // ---- The cells ----

  function Part(q: Quad, m: nat): Word
    requires m < 4
  {
    if m == 0 then q.y0 else if m == 1 then q.y1 else if m == 2 then q.y2 else q.y3
  }

  /** Row i starts at its cell on the diagonal and goes to the right, around the end. */
  lemma RowRoundCells(y: Block16, i: nat, m: nat)
    requires i < 4 && m < 4
    ensures RowRound(y)[4 * i + (i + m) % 4]
      == Part(QuarterRound(y[4 * i + i], y[4 * i + (i + 1) % 4], y[4 * i + (i + 2) % 4], y[4 * i + (i + 3) % 4]), m)
  {
    hide QuarterRound;
    if i == 0 {} else if i == 1 {} else if i == 2 {} else {}
  }

  /** Column j starts at its cell on the diagonal and goes down, around the end. */
  lemma ColumnRoundCells(x: Block16, j: nat, m: nat)
    requires j < 4 && m < 4
    ensures ColumnRound(x)[4 * ((j + m) % 4) + j]
      == Part(QuarterRound(x[4 * j + j], x[4 * ((j + 1) % 4) + j],
                           x[4 * ((j + 2) % 4) + j], x[4 * ((j + 3) % 4) + j]), m)
  {
    hide QuarterRound;
    if j == 0 {} else if j == 1 {} else if j == 2 {} else {}
  }

  /** Constants on the diagonal, the key around them, the input in the middle. */
  lemma MatrixCells(k: seq<byte>, inp: seq<byte>, c: seq<byte>, m: nat)
    requires |k| >= 32 && |inp| >= 16 && |c| == 16 && m < 4
    ensures var x := Expand(k, inp, c);
      && x[5 * m] == WordAt(c, 4 * m) && x[6 + m] == WordAt(inp, 4 * m)
      && x[1 + m] == WordAt(k, 4 * m) && x[11 + m] == WordAt(k, 16 + 4 * m)
  {
    hide WordAt;
    if m == 0 {} else if m == 1 {} else if m == 2 {} else {}
  }

  lemma ConstantText()
    ensures |SIGMA| == 16 && forall i :: 0 <= i < 16 ==> SIGMA[i] as char == "expand 32-byte k"[i]
  {
  }

  /** Words are little-endian. */
  lemma WordsLittleEndian(s: seq<byte>, i: nat, ws: seq<Word>, j: nat)
    requires i + 4 <= |s| && j < |ws|
    ensures WordAt(s, i)
      == (s[i] as int) + 256 * (s[i + 1] as int) + 0x1_0000 * (s[i + 2] as int) + 0x100_0000 * (s[i + 3] as int)
    ensures WordAt(ToBytes(ws), 4 * j) == ws[j]
  {
    hide ByteOf;
    ByteParts(ws[j]);
    WordBytes(ws, j);
  }

  lemma WordBytes(ws: seq<Word>, j: nat)
    requires j < |ws|
    ensures var s, w := ToBytes(ws), ws[j];
      && s[4 * j] == ByteOf(w, 0) && s[4 * j + 1] == ByteOf(w, 1)
      && s[4 * j + 2] == ByteOf(w, 2) && s[4 * j + 3] == ByteOf(w, 3)
  {
    hide ByteOf;
  }

  lemma ByteParts(w: Word)
    ensures Combine(ByteOf(w, 0), ByteOf(w, 1), ByteOf(w, 2), ByteOf(w, 3)) == w
  {
    var a := w / 256;
    var b := a / 256;
    var c := b / 256;
    assert w as int == 256 * a + w % 256 && a == 256 * b + a % 256 && b == 256 * c + b % 256;
    DivUnique(0x1_0000, w, b, 256 * (a % 256) + w % 256);
    DivUnique(0x100_0000, w, c, 0x1_0000 * (b % 256) + 256 * (a % 256) + w % 256);
  }

  // ---- What is made of the cells ----

  /** A block: ten double rounds over the matrix, with the matrix added to the result. */
  lemma StreamWords(k: seq<byte>, nonce: seq<byte>, b: nat, j: nat)
    requires |k| >= 32 && |nonce| == 8 && j < 16
    ensures var y := Expand(k, nonce + CounterBytes(b, 8), SIGMA);
      WordAt(StreamBlock(k, nonce, b), 4 * j) == ((DoubleRounds(y, 10)[j] as int) + y[j]) % 0x1_0000_0000
  {
    hide Expand, DoubleRounds, WordAt, ToBytes;
    var y := Expand(k, nonce + CounterBytes(b, 8), SIGMA);
    WordsLittleEndian(ToBytes(Fed(y)), 0, Fed(y), j);
  }

  /** HSalsa20: the diagonal and the middle after ten double rounds, without the matrix. */
  lemma HSalsaWords(k: seq<byte>, inp: seq<byte>, c: seq<byte>, m: nat)
    requires |k| >= 32 && |inp| >= 16 && |c| == 16 && m < 4
    ensures var z := DoubleRounds(Expand(k, inp, c), 10);
      WordAt(HSalsa(k, inp, c), 4 * m) == z[5 * m] && WordAt(HSalsa(k, inp, c), 16 + 4 * m) == z[6 + m]
  {
    hide Expand, DoubleRounds, WordAt, ToBytes;
    var z := DoubleRounds(Expand(k, inp, c), 10);
    var ws := [z[0], z[5], z[10], z[15], z[6], z[7], z[8], z[9]];
    WordsLittleEndian(ToBytes(ws), 0, ws, m);
    WordsLittleEndian(ToBytes(ws), 0, ws, 4 + m);
    if m == 0 {} else if m == 1 {} else if m == 2 {} else {}
  }

  /** XSalsa20: the first sixteen bytes of the nonce make the key, the other eight are the nonce. */
  lemma XStreamNonce(k: seq<byte>, a: seq<byte>, b: seq<byte>, i: nat)
    requires |k| == 32 && |a| == 16 && |b| == 8
    ensures XStream(k, a + b, i) == StreamByte(HSalsa(k, a, SIGMA), b, i)
  {
    hide DoubleRounds, StreamByte, ToBytes;
    assert (a + b)[16..24] == b;
    assert Expand(k, a + b, SIGMA) == Expand(k, a, SIGMA);
  }

  /** A box: sixteen bytes of tag, then the message xored with the stream from byte 32 on. The tag is that
      of these bytes under the first 32 of the stream. */
  lemma BoxLayout(k: seq<byte>, n: seq<byte>, m: seq<byte>, i: nat)
    requires Sizes(k, n)
    ensures var box := Sealed(k, n, m);
      && |box| == 16 + |m|
      && (i < |m| ==> box[16 + i] as int == Xor(m[i], XStream(k, n, 32 + i)))
      && forall key: seq<byte> :: |key| == 32 && (forall j :: 0 <= j < 32 ==> key[j] == XStream(k, n, j)) ==>
           Poly1305.Num(box[..16]) == Poly1305.Tag(box[16..], key)
  {
    hide XStream, Xor, Poly1305.Tag, CounterBytes;
    var c := Cipher(k, n, m);
    var box := Sealed(k, n, m);
    assert box[16..] == c && box[..16] == TagBytes(k, n, c);
    forall key: seq<byte> | |key| == 32 && forall j :: 0 <= j < 32 ==> key[j] == XStream(k, n, j)
      ensures Poly1305.Num(box[..16]) == Poly1305.Tag(box[16..], key)
    {
      assert key == MacKey(k, n);
      CounterValue(Poly1305.Tag(c, key), 16);
      Poly1305.Weights();
      TagRange(c, key);
      Modular.DivUnique(Poly1305.TWO128, Poly1305.Tag(c, key), 0, Poly1305.Tag(c, key));
    }
  }

  lemma TagRange(c: seq<byte>, key: seq<byte>)
    requires |key| == 32
    ensures Poly1305.Tag(c, key) < Poly1305.TWO128
  {
  }
}
