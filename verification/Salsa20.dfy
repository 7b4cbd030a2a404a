/** The Salsa20 core, its stream with a 64-bit block counter, and the XSalsa20 key derivation. */
module Salsa20 {
  import opened Bits

  type Word = U32

  function Add32(x: int, y: int): Word {
    (x + y) % TWO32
  }

  function Sub32(x: int, y: int): Word {
    (x - y) % TWO32
  }

  /** (x << c) | (x >>> (32 - c)): the low 32 - c bits move up, the high c bits come in below. */
  function RotL(x: Word, c: nat): Word
    requires c in {7, 9, 13, 18}
  {
    var w: int := x;
    if c == 7 then (w % 0x200_0000) * 0x80 + w / 0x200_0000
    else if c == 9 then (w % 0x80_0000) * 0x200 + w / 0x80_0000
    else if c == 13 then (w % 0x8_0000) * 0x2000 + w / 0x8_0000
    else (w % 0x4000) * 0x4_0000 + w / 0x4000
  }

  // ---- The specification: Bernstein's definition by column and row rounds ----

  datatype Quad = Quad(y0: Word, y1: Word, y2: Word, y3: Word)

  function QuarterRound(y0: Word, y1: Word, y2: Word, y3: Word): Quad {
    var z1 := XorWord(y1, RotL(Add32(y0, y3), 7));
    var z2 := XorWord(y2, RotL(Add32(z1, y0), 9));
    var z3 := XorWord(y3, RotL(Add32(z2, z1), 13));
    Quad(XorWord(y0, RotL(Add32(z3, z2), 18)), z1, z2, z3)
  }

  type Block16 = s: seq<Word> | |s| == 16 witness seq(16, i => 0)

  function RowRound(y: Block16): Block16 {
    var a := QuarterRound(y[0], y[1], y[2], y[3]);
    var b := QuarterRound(y[5], y[6], y[7], y[4]);
    var c := QuarterRound(y[10], y[11], y[8], y[9]);
    var d := QuarterRound(y[15], y[12], y[13], y[14]);
    [a.y0, a.y1, a.y2, a.y3, b.y3, b.y0, b.y1, b.y2, c.y2, c.y3, c.y0, c.y1, d.y1, d.y2, d.y3, d.y0]
  }

  function ColumnRound(x: Block16): Block16 {
    var a := QuarterRound(x[0], x[4], x[8], x[12]);
    var b := QuarterRound(x[5], x[9], x[13], x[1]);
    var c := QuarterRound(x[10], x[14], x[2], x[6]);
    var d := QuarterRound(x[15], x[3], x[7], x[11]);
    [a.y0, b.y3, c.y2, d.y1, a.y1, b.y0, c.y3, d.y2, a.y2, b.y1, c.y0, d.y3, a.y3, b.y2, c.y1, d.y0]
  }

  function DoubleRounds(x: Block16, n: nat): Block16 {
    if n == 0 then x else RowRound(ColumnRound(DoubleRounds(x, n - 1)))
  }

  // ---- The loop of the source: one column-shaped round that also transposes ----

  /** Quarter round on column j, starting at the diagonal cell. */
  function QuadAt(x: Block16, j: nat): Quad
    requires j < 4
  {
    if j == 0 then QuarterRound(x[0], x[4], x[8], x[12])
    else if j == 1 then QuarterRound(x[5], x[9], x[13], x[1])
    else if j == 2 then QuarterRound(x[10], x[14], x[2], x[6])
    else QuarterRound(x[15], x[3], x[7], x[11])
  }

  /** Column j goes to row j, its diagonal cell first. */
  function Round(x: Block16): Block16 {
    var a, b, c, d := QuadAt(x, 0), QuadAt(x, 1), QuadAt(x, 2), QuadAt(x, 3);
    [a.y0, a.y1, a.y2, a.y3, b.y3, b.y0, b.y1, b.y2, c.y2, c.y3, c.y0, c.y1, d.y1, d.y2, d.y3, d.y0]
  }

  function Rounds(x: Block16, n: nat): Block16 {
    if n == 0 then x else Round(Rounds(x, n - 1))
  }

  /** Two transposing rounds are a column round and a row round. */
  lemma TwoRounds(x: Block16)
    ensures Round(Round(x)) == RowRound(ColumnRound(x))
  {
    hide QuarterRound;
  }

  lemma {:induction false} RoundsPair(x: Block16, n: nat)
    ensures Rounds(x, 2 * n) == DoubleRounds(x, n)
  {
    hide Round, RowRound, ColumnRound;
    if n > 0 {
      RoundsPair(x, n - 1);
      TwoRounds(Rounds(x, 2 * n - 2));
      assert Rounds(x, 2 * n - 1) == Round(Rounds(x, 2 * n - 2));
    }
  }

  // ---- The core ----

  function Pick(q: Quad, m: nat): Word
    requires m < 4
  {
    if m == 0 then q.y0 else if m == 1 then q.y1 else if m == 2 then q.y2 else q.y3
  }

  /** The cell from which column j starts its m-th word, and the cell where row j keeps it. */
  function From(j: nat, m: nat): nat { (5 * j + 4 * m) % 16 }
  function To(j: nat, m: nat): nat { 4 * j + (j + m) % 4 }

  lemma QuadCells(x: Block16, j: nat)
    requires j < 4
    ensures QuadAt(x, j) == QuarterRound(x[From(j, 0)], x[From(j, 1)], x[From(j, 2)], x[From(j, 3)])
  {
    hide QuarterRound;
    if j == 0 {} else if j == 1 {} else if j == 2 {} else {}
  }

  lemma RoundCells(x: Block16, j: nat, m: nat)
    requires j < 4 && m < 4
    ensures Round(x)[To(j, m)] == Pick(QuadAt(x, j), m)
  {
    hide QuadAt;
    if j == 0 {} else if j == 1 {} else if j == 2 {} else {}
  }

  /** Row j is made of exactly the cells To(j, 0) to To(j, 3). */
  lemma RowCells(j: nat, k: nat) returns (m: nat)
    requires 4 * j <= k < 4 * j + 4
    ensures m < 4 && To(j, m) == k
  {
    m := if j % 4 <= k - 4 * j then k - 4 * j - j % 4 else k - 4 * j + 4 - j % 4;
  }

  lemma ToInjective(j: nat, m: nat, n: nat)
    requires m < 4 && n < 4 && To(j, m) == To(j, n)
    ensures m == n
  {}

  method Quarter(t: array<Word>)
    requires t.Length == 4
    modifies t
    ensures forall m :: 0 <= m < 4 ==> t[m] == Pick(old(QuarterRound(t[0], t[1], t[2], t[3])), m)
  {
    t[1] := XorWord(t[1], RotL(Add32(t[0], t[3]), 7));
    t[2] := XorWord(t[2], RotL(Add32(t[1], t[0]), 9));
    t[3] := XorWord(t[3], RotL(Add32(t[2], t[1]), 13));
    t[0] := XorWord(t[0], RotL(Add32(t[3], t[2]), 18));
  }

  method Gather(t: array<Word>, x: array<Word>, j: nat)
    requires x.Length == 16 && t.Length == 4 && x != t && j < 4
    modifies t
    ensures forall m :: 0 <= m < 4 ==> t[m] == x[From(j, m)]
  {
    for m := 0 to 4
      invariant forall k :: 0 <= k < m ==> t[k] == x[From(j, k)]
    {
      t[m] := x[(5 * j + 4 * m) % 16];
    }
  }

  method Scatter(w: array<Word>, t: array<Word>, j: nat)
    requires w.Length == 16 && t.Length == 4 && w != t && j < 4
    modifies w
    ensures forall m :: 0 <= m < 4 ==> w[To(j, m)] == t[m]
    ensures forall k :: 0 <= k < 4 * j ==> w[k] == old(w[k])
  {
    for m := 0 to 4
      invariant forall k :: 0 <= k < 4 * j ==> w[k] == old(w[k])
      invariant forall k :: 0 <= k < m ==> w[To(j, k)] == t[k]
    {
      forall k | 0 <= k < m ensures To(j, k) != To(j, m) {
        if To(j, k) == To(j, m) { ToInjective(j, k, m); }
      }
      w[4 * j + (j + m) % 4] := t[m];
    }
  }

  /** One value of j: gather column j, apply the quarter round, scatter it into row j of w. */
  method CoreColumn(w: array<Word>, t: array<Word>, x: array<Word>, j: nat)
    requires w.Length == x.Length == 16 && t.Length == 4 && w != t && x !in {w, t} && j < 4
    modifies w, t
    ensures forall k :: 4 * j <= k < 4 * j + 4 ==> w[k] == Round(x[..])[k]
    ensures forall k :: 0 <= k < 4 * j ==> w[k] == old(w[k])
  {
    ghost var s: Block16 := x[..];
    hide QuarterRound, Round, QuadAt, Pick;
    Gather(t, x, j);
    QuadCells(s, j);
    Quarter(t);
    Scatter(w, t, j);
    forall k | 4 * j <= k < 4 * j + 4 ensures w[k] == Round(s)[k] {
      var m := RowCells(j, k);
      RoundCells(s, j, m);
    }
  }

  /** One of the twenty rounds: x is replaced by Round(x). */
  method CoreRound(x: array<Word>, w: array<Word>, t: array<Word>)
    requires w.Length == x.Length == 16 && t.Length == 4 && w != t && x !in {w, t}
    modifies x, w, t
    ensures x[..] == Round(old(x[..]))
  {
    ghost var s: Block16 := x[..];
    hide Round;
    for j := 0 to 4
      invariant x[..] == s && forall k :: 0 <= k < 4 * j ==> w[k] == Round(s)[k]
    {
      CoreColumn(w, t, x, j);
    }
    for m := 0 to 16
      invariant forall k :: 0 <= k < 16 ==> w[k] == Round(s)[k]
      invariant forall k :: 0 <= k < m ==> x[k] == Round(s)[k]
    {
      x[m] := w[m];
    }
  }

  function ByteOf(w: Word, r: nat): byte
    requires r < 4
  {
    var v: int := w;
    if r == 0 then v % 256
    else if r == 1 then v / 0x100 % 256
    else if r == 2 then v / 0x1_0000 % 256
    else v / 0x100_0000
  }

  function WordAt(s: seq<byte>, i: nat): Word
    requires i + 4 <= |s|
  {
    Combine(s[i], s[i + 1], s[i + 2], s[i + 3])
  }

  function Combine(b0: int, b1: int, b2: int, b3: int): Word
    requires 0 <= b0 < 256 && 0 <= b1 < 256 && 0 <= b2 < 256 && 0 <= b3 < 256
  {
    b0 + 0x100 * b1 + 0x1_0000 * b2 + 0x100_0000 * b3
  }

  function ToBytes(ws: seq<Word>): (s: seq<byte>)
    ensures |s| == 4 * |ws|
  {
    seq(4 * |ws|, (i: nat) requires i < 4 * |ws| => ByteOf(ws[i / 4], i % 4))
  }

  /** The starting matrix: constant on the diagonal, key, input, key. */
  function Expand(k: seq<byte>, inp: seq<byte>, c: seq<byte>): Block16
    requires |k| >= 32 && |inp| >= 16 && |c| == 16
  {
    [WordAt(c, 0), WordAt(k, 0), WordAt(k, 4), WordAt(k, 8),
     WordAt(k, 12), WordAt(c, 4), WordAt(inp, 0), WordAt(inp, 4),
     WordAt(inp, 8), WordAt(inp, 12), WordAt(c, 8), WordAt(k, 16),
     WordAt(k, 20), WordAt(k, 24), WordAt(k, 28), WordAt(c, 12)]
  }

  /** The 64 bytes of Salsa20: twenty rounds plus the starting matrix. */
  function SalsaBlock(k: seq<byte>, inp: seq<byte>, c: seq<byte>): seq<byte>
    requires |k| >= 32 && |inp| >= 16 && |c| == 16
  {
    ToBytes(Fed(Expand(k, inp, c)))
  }

  /** HSalsa20: the diagonal and the input cells after twenty rounds, nothing added. */
  function HSalsa(k: seq<byte>, inp: seq<byte>, c: seq<byte>): (s: seq<byte>)
    requires |k| >= 32 && |inp| >= 16 && |c| == 16
    ensures |s| == 32
  {
    var z := DoubleRounds(Expand(k, inp, c), 10);
    ToBytes([z[0], z[5], z[10], z[15], z[6], z[7], z[8], z[9]])
  }

  method Ld32(x: array<byte>, i: nat) returns (u: Word)
    requires i + 4 <= x.Length
    ensures u == WordAt(x[..], i)
  {
    u := Combine(x[i], x[i + 1], x[i + 2], x[i + 3]);
  }

  /** st32 writes the four bytes of u, low byte first. */
  method St32(x: array<byte>, j: nat, u0: Word)
    requires j + 4 <= x.Length
    modifies x
    ensures forall r :: 0 <= r < 4 ==> x[j + r] == ByteOf(u0, r)
    ensures forall i :: 0 <= i < x.Length && !(j <= i < j + 4) ==> x[i] == old(x[i])
  {
    var u := u0;
    for i := 0 to 4
      invariant forall r :: 0 <= r < i ==> x[j + r] == ByteOf(u0, r)
      invariant forall i :: 0 <= i < x.Length && !(j <= i < j + 4) ==> x[i] == old(x[i])
      invariant u == Shifted(u0, i)
    {
      x[j + i] := u % 256;
      u := u / 256;
    }
  }

  function Shifted(w: Word, r: nat): Word {
    var v: int := w;
    if r == 0 then v
    else if r == 1 then v / 0x100
    else if r == 2 then v / 0x1_0000
    else if r == 3 then v / 0x100_0000
    else 0
  }

  ghost predicate Loaded(x: seq<Word>, k: seq<byte>, inp: seq<byte>, c: seq<byte>, n: nat)
    requires |x| == 16 && |k| >= 32 && |inp| >= 16 && |c| == 16 && n <= 4
  {
    forall m :: 0 <= m < n ==>
      x[5 * m] == WordAt(c, 4 * m) && x[1 + m] == WordAt(k, 4 * m) &&
      x[6 + m] == WordAt(inp, 4 * m) && x[11 + m] == WordAt(k, 16 + 4 * m)
  }

  method LoadMatrix(inp: array<byte>, k: array<byte>, c: array<byte>) returns (x: array<Word>)
    requires inp.Length >= 16 && k.Length >= 32 && c.Length == 16
    ensures fresh(x) && x.Length == 16 && x[..] == Expand(k[..], inp[..], c[..])
  {
    x := new Word[16](_ => 0);
    ghost var si, sk, sc := inp[..], k[..], c[..];
    for i := 0 to 4
      invariant inp[..] == si && k[..] == sk && c[..] == sc
      invariant Loaded(x[..], sk, si, sc, i)
    {
      var xc := Ld32(c, 4 * i);
      var xk := Ld32(k, 4 * i);
      var xi := Ld32(inp, 4 * i);
      var xl := Ld32(k, 16 + 4 * i);
      ghost var s := x[..];
      x[5 * i], x[1 + i], x[6 + i], x[11 + i] := xc, xk, xi, xl;
      LoadStep(s, x[..], sk, si, sc, i);
    }
    MatrixCells(x[..], sk, si, sc);
  }

  lemma LoadStep(s: seq<Word>, x: seq<Word>, k: seq<byte>, inp: seq<byte>, c: seq<byte>, i: nat)
    requires |s| == 16 && |k| >= 32 && |inp| >= 16 && |c| == 16 && i < 4 && Loaded(s, k, inp, c, i)
    requires x == s[5 * i := WordAt(c, 4 * i)][1 + i := WordAt(k, 4 * i)]
                   [6 + i := WordAt(inp, 4 * i)][11 + i := WordAt(k, 16 + 4 * i)]
    ensures Loaded(x, k, inp, c, i + 1)
  {
    hide WordAt;
  }

  lemma MatrixCells(x: seq<Word>, k: seq<byte>, inp: seq<byte>, c: seq<byte>)
    requires |x| == 16 && |k| >= 32 && |inp| >= 16 && |c| == 16
    requires Loaded(x, k, inp, c, 4)
    ensures x == Expand(k, inp, c)
  {
    hide WordAt;
    assert x[5 * 0] == WordAt(c, 4 * 0) && x[5 * 1] == WordAt(c, 4 * 1);
    assert x[5 * 2] == WordAt(c, 4 * 2) && x[5 * 3] == WordAt(c, 4 * 3);
  }

  method StoreWord(out: array<byte>, ghost ws: seq<Word>, i: nat, w: Word)
    requires i < |ws| && out.Length >= 4 * |ws| && w == ws[i]
    modifies out
    ensures forall r :: 4 * i <= r < 4 * i + 4 ==> out[r] == ToBytes(ws)[r]
    ensures forall r :: 0 <= r < out.Length && !(4 * i <= r < 4 * i + 4) ==> out[r] == old(out[r])
  {
    St32(out, 4 * i, w);
    forall r | 4 * i <= r < 4 * i + 4 ensures out[r] == ToBytes(ws)[r] {
      assert out[4 * i + (r - 4 * i)] == ByteOf(w, r - 4 * i);
    }
  }

  method RunRounds(x: array<Word>)
    requires x.Length == 16
    modifies x
    ensures x[..] == DoubleRounds(old(x[..]), 10)
  {
    var w, t := new Word[16](_ => 0), new Word[4](_ => 0);
    ghost var s: Block16 := x[..];
    hide Round;
    for i := 0 to 20
      invariant x[..] == Rounds(s, i)
    {
      CoreRound(x, w, t);
    }
    RoundsPair(s, 10);
  }

  method CopyWords(y: array<Word>, x: array<Word>)
    requires y.Length == x.Length == 16
    modifies y
    ensures y[..] == old(x[..])
  {
    for i := 0 to 16
      invariant forall m :: 0 <= m < i ==> y[m] == old(x[m])
      invariant forall m :: i <= m < 16 ==> x[m] == old(x[m])
    {
      y[i] := x[i];
    }
  }

  method AddWords(x: array<Word>, y: array<Word>)
    requires y.Length == x.Length == 16 && x != y
    modifies x
    ensures forall m :: 0 <= m < 16 ==> x[m] == Add32(old(x[m]), y[m])
  {
    hide Add32;
    for i := 0 to 16
      invariant forall m :: i <= m < 16 ==> x[m] == old(x[m])
      invariant forall m :: 0 <= m < i ==> x[m] == Add32(old(x[m]), y[m])
    {
      x[i] := Add32(x[i], y[i]);
    }
  }

  /** The matrix after twenty rounds with the starting matrix added cell by cell. */
  function Fed(y: Block16): (s: Block16) {
    seq(16, (i: nat) requires i < 16 => Add32(DoubleRounds(y, 10)[i], y[i]))
  }

  method FeedForward(x: array<Word>)
    requires x.Length == 16
    modifies x
    ensures x[..] == Fed(old(x[..]))
  {
    hide DoubleRounds, Add32;
    var y := new Word[16](_ => 0);
    CopyWords(y, x);
    RunRounds(x);
    AddWords(x, y);
  }

  /** Twenty rounds, then the starting matrix is added to every cell. */
  method Sums(inp: array<byte>, k: array<byte>, c: array<byte>) returns (x: array<Word>)
    requires inp.Length >= 16 && k.Length >= 32 && c.Length == 16
    ensures fresh(x) && x.Length == 16 && x[..] == Fed(Expand(k[..], inp[..], c[..]))
  {
    hide Expand, Fed, Add32;
    x := LoadMatrix(inp, k, c);
    FeedForward(x);
  }

  /** cryptoCoreSalsa20: out receives one 64-byte block. */
  method CoreSalsa20(out: array<byte>, inp: array<byte>, k: array<byte>, c: array<byte>)
    requires out.Length == 64 && inp.Length >= 16 && k.Length >= 32 && c.Length == 16
    modifies out
    ensures out[..] == old(SalsaBlock(k[..], inp[..], c[..]))
  {
    hide ToBytes, DoubleRounds, Expand, Fed;
    ghost var y := Expand(k[..], inp[..], c[..]);
    ghost var ws := Fed(y);
    assert ToBytes(ws) == SalsaBlock(k[..], inp[..], c[..]);
    var x := Sums(inp, k, c);
    for i := 0 to 16
      invariant x[..] == ws && forall r :: 0 <= r < 4 * i ==> out[r] == ToBytes(ws)[r]
    {
      StoreWord(out, ws, i, x[i]);
    }
  }

  lemma AddThenSub(x: Word, y: Word)
    ensures Sub32(Add32(x, y), y) == x
  {}

  function Diagonal(m: nat): nat { 5 * m }
  function Input(m: nat): nat { 6 + m }

  ghost predicate TakenBack(x: seq<Word>, z: seq<Word>, y: seq<Word>, n: nat)
    requires |x| == |y| == |z| == 16 && n <= 4
  {
    && (forall m :: 0 <= m < n ==> x[Diagonal(m)] == z[Diagonal(m)] && x[Input(m)] == z[Input(m)])
    && (forall m :: n <= m < 4 ==> x[Diagonal(m)] == Add32(z[Diagonal(m)], y[Diagonal(m)]))
    && (forall m :: n <= m < 4 ==> x[Input(m)] == Add32(z[Input(m)], y[Input(m)]))
  }

  lemma TakeBackStep(x: seq<Word>, x': seq<Word>, z: seq<Word>, y: seq<Word>, i: nat)
    requires |x| == |y| == |z| == 16 && i < 4 && TakenBack(x, z, y, i)
    requires x' == x[5 * i := Sub32(x[5 * i], y[5 * i])][6 + i := Sub32(x[6 + i], y[6 + i])]
    ensures TakenBack(x', z, y, i + 1)
  {
    AddThenSub(z[5 * i], y[5 * i]);
    AddThenSub(z[6 + i], y[6 + i]);
    hide Add32, Sub32;
    assert x[Diagonal(i)] == Add32(z[5 * i], y[5 * i]) && x[Input(i)] == Add32(z[6 + i], y[6 + i]);
  }

  /** The cells that HSalsa20 outputs: their starting words are taken off again. */
  method TakeBack(x: array<Word>, inp: array<byte>, c: array<byte>, ghost z: seq<Word>, ghost y: seq<Word>)
    requires x.Length == 16 && inp.Length >= 16 && c.Length == 16 && |z| == |y| == 16
    requires TakenBack(x[..], z, y, 0)
    requires forall i :: 0 <= i < 4 ==> y[5 * i] == WordAt(c[..], 4 * i) && y[6 + i] == WordAt(inp[..], 4 * i)
    modifies x
    ensures TakenBack(x[..], z, y, 4)
  {
    ghost var si, sc := inp[..], c[..];
    hide WordAt, Add32, Sub32;
    for i := 0 to 4
      invariant inp[..] == si && c[..] == sc && TakenBack(x[..], z, y, i)
    {
      ghost var sx := x[..];
      var u := Ld32(c, 4 * i);
      x[5 * i] := Sub32(x[5 * i], u);
      u := Ld32(inp, 4 * i);
      x[6 + i] := Sub32(x[6 + i], u);
      TakeBackStep(sx, x[..], z, y, i);
    }
  }

  lemma ExpandCells(k: seq<byte>, inp: seq<byte>, c: seq<byte>, i: nat)
    requires |k| >= 32 && |inp| >= 16 && |c| == 16 && i < 4
    ensures Expand(k, inp, c)[5 * i] == WordAt(c, 4 * i)
    ensures Expand(k, inp, c)[6 + i] == WordAt(inp, 4 * i)
  {
    hide WordAt;
    var y := Expand(k, inp, c);
    assert y[0] == WordAt(c, 0) && y[5] == WordAt(c, 4) && y[10] == WordAt(c, 8) && y[15] == WordAt(c, 12);
    assert y[6] == WordAt(inp, 0) && y[7] == WordAt(inp, 4) && y[8] == WordAt(inp, 8) && y[9] == WordAt(inp, 12);
    if i == 0 {} else if i == 1 {} else if i == 2 {} else {}
  }

  /** cryptoCoreHsalsa20: eight words of the twenty rounds, without the feed-forward. */
  method CoreHsalsa20(out: array<byte>, inp: array<byte>, k: array<byte>, c: array<byte>)
    requires out.Length == 32 && inp.Length >= 16 && k.Length >= 32 && c.Length == 16
    modifies out
    ensures out[..] == old(HSalsa(k[..], inp[..], c[..]))
  {
    ghost var y := Expand(k[..], inp[..], c[..]);
    ghost var z := DoubleRounds(y, 10);
    ghost var ws := [z[0], z[5], z[10], z[15], z[6], z[7], z[8], z[9]];
    assert ToBytes(ws) == HSalsa(k[..], inp[..], c[..]);
    var x := Sums(inp, k, c);
    forall i | 0 <= i < 4
      ensures y[5 * i] == WordAt(c[..], 4 * i) && y[6 + i] == WordAt(inp[..], 4 * i)
    {
      ExpandCells(k[..], inp[..], c[..], i);
    }
    hide ToBytes, DoubleRounds, Expand, HSalsa, WordAt;
    TakeBack(x, inp, c, z, y);
    StoreH(out, x, z, y, ws);
  }

  method StoreH(out: array<byte>, x: array<Word>, ghost z: seq<Word>, ghost y: seq<Word>, ghost ws: seq<Word>)
    requires out.Length == 32 && x.Length == 16 && |z| == |y| == 16 && TakenBack(x[..], z, y, 4)
    requires ws == [z[0], z[5], z[10], z[15], z[6], z[7], z[8], z[9]]
    modifies out
    ensures out[..] == ToBytes(ws)
  {
    hide ToBytes;
    ghost var xs := x[..];
    for i := 0 to 4
      invariant x[..] == xs
      invariant forall r :: 0 <= r < 4 * i || 16 <= r < 16 + 4 * i ==> out[r] == ToBytes(ws)[r]
    {
      assert xs[Diagonal(i)] == ws[i] && xs[Input(i)] == ws[4 + i];
      StoreWord(out, ws, i, x[5 * i]);
      StoreWord(out, ws, 4 + i, x[6 + i]);
    }
  }
}
