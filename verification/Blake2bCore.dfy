/** The compression of blake2b.ts, which keeps 64-bit words as two neighbouring 32-bit elements. */
module Blake2bCore {
  import opened Modular
  import opened Positional
  import opened Bits
  import opened Words64
  import opened Blake2bSpec

  /** The 64-bit words in an array of halves, low half first. */
  function Words(s: seq<U32>): (w: seq<U64>)
    ensures |w| == |s| / 2
  {
    seq(|s| / 2, i requires 0 <= i < |s| / 2 => Join(s[2 * i], s[2 * i + 1]))
  }

  lemma WordsUpdate(s: seq<U32>, a: nat, lo: U32, hi: U32)
    requires a % 2 == 0 && a + 1 < |s|
    ensures Words(s[a := lo][a + 1 := hi]) == Words(s)[a / 2 := Join(lo, hi)]
  {
    var s' := s[a := lo][a + 1 := hi];
    forall i | 0 <= i < |s| / 2 ensures Words(s')[i] == Words(s)[a / 2 := Join(lo, hi)][i] {
      if 2 * i != a { assert s'[2 * i] == s[2 * i] && s'[2 * i + 1] == s[2 * i + 1]; }
    }
  }

  /** Adding low halves, with the carry into the high half, adds the words. */
  lemma AddHalves(x0: U32, x1: U32, y0: U32, y1: U32)
    ensures var lo, hi := (x0 as int) + y0, (x1 as int) + y1 + (if (x0 as int) + y0 >= TWO32 then 1 else 0);
      Join(lo % TWO32, hi % TWO32) == Add64(Join(x0, x1), Join(y0, y1))
  {
    var c := if (x0 as int) + y0 >= TWO32 then 1 else 0;
    var lo, hi := (x0 as int) + y0, (x1 as int) + y1 + c;
    var d := if hi >= TWO32 then 1 else 0;
    DivUnique(TWO32, lo, c, lo - TWO32 * c);
    DivUnique(TWO32, hi, d, hi - TWO32 * d);
    DivUnique(TWO64, lo + TWO32 * (hi - c), d, lo - TWO32 * c + TWO32 * (hi - TWO32 * d));
  }

  predicate WordAt(v: array<U32>, a: nat) {
    a % 2 == 0 && a + 1 < v.Length
  }

  /** Storing both halves, each reduced to 32 bits by the typed array. */
  method Put64(v: array<U32>, a: nat, o0: nat, o1: nat)
    requires WordAt(v, a)
    modifies v
    ensures Words(v[..]) == old(Words(v[..]))[a / 2 := Join(o0 % TWO32, o1 % TWO32)]
  {
    hide Words, Join;
    WordsUpdate(v[..], a, o0 % TWO32, o1 % TWO32);
    v[a] := o0 % TWO32;
    v[a + 1] := o1 % TWO32;
  }

  lemma WordsAt(s: seq<U32>, a: nat)
    requires a % 2 == 0 && a + 1 < |s|
    ensures Words(s)[a / 2] == Join(s[a], s[a + 1])
  {
  }

  method Add64AA(v: array<U32>, a: nat, b: nat)
    requires WordAt(v, a) && WordAt(v, b)
    modifies v
    ensures Words(v[..]) == old(Words(v[..]))[a / 2 := Add64(old(Words(v[..]))[a / 2], old(Words(v[..]))[b / 2])]
  {
    hide Words, Join, Add64;
    WordsAt(v[..], a);
    WordsAt(v[..], b);
    AddHalves(v[a], v[a + 1], v[b], v[b + 1]);
    var o0: int := (v[a] as int) + v[b];
    var o1: int := (v[a + 1] as int) + v[b + 1];
    if o0 >= 0x1_0000_0000 {
      o1 := o1 + 1;
    }
    Put64(v, a, o0, o1);
  }

  lemma Unsigned(b: int)
    requires -TWO32 <= b < TWO32
    ensures b % TWO32 == if b < 0 then b + TWO32 else b
  {
  }

  /** Here the low half may be given as a negative number, standing for itself modulo 2^32. */
  method Add64AC(v: array<U32>, a: nat, b0: int, b1: U32)
    requires WordAt(v, a) && -TWO32 <= b0 < TWO32
    modifies v
    ensures Words(v[..]) == old(Words(v[..]))[a / 2 := Add64(old(Words(v[..]))[a / 2], Join(b0 % TWO32, b1))]
  {
    hide Words, Join, Add64;
    WordsAt(v[..], a);
    Unsigned(b0);
    AddHalves(v[a], v[a + 1], b0 % TWO32, b1);
    var o0: int := (v[a] as int) + b0;
    if b0 < 0 {
      o0 := o0 + 0x1_0000_0000;
    }
    var o1: int := (v[a + 1] as int) + b1;
    if o0 >= 0x1_0000_0000 {
      o1 := o1 + 1;
    }
    Put64(v, a, o0, o1);
  }

  lemma TurnHalves(x0: U32, x1: U32, y0: U32, y1: U32)
    ensures var w, e, f := Xor64(Join(x0, x1), Join(y0, y1)), XorWord(x0, y0), XorWord(x1, y1);
      && RotR(w, 32) == Join(f, e)
      && RotR(w, 24) == Join(Funnel(e, f, 24), Funnel(f, e, 24))
      && RotR(w, 16) == Join(Funnel(e, f, 16), Funnel(f, e, 16))
      && RotR(w, 63) == Join(Funnel(f, e, 31), Funnel(e, f, 31))
  {
    hide *;
    XorHalves(x0, x1, y0, y1);
    var e, f := XorWord(x0, y0), XorWord(x1, y1);
    RotR32(e, f);
    RotRFunnel(e, f, 24);
    RotRFunnel(e, f, 16);
    RotR63(e, f);
  }

  /** The two exclusive ors and the rotation that follow each pair of additions. */
  method Turn64(v: array<U32>, d: nat, a: nat, n: nat)
    requires WordAt(v, d) && WordAt(v, a) && n in {16, 24, 32, 63}
    modifies v
    ensures Words(v[..]) == Turn(old(Words(v[..])), d / 2, a / 2, n)
  {
    hide Funnel, RotR, Xor64, XorWord;
    var xor0 := XorWord(v[d], v[a]);
    var xor1 := XorWord(v[d + 1], v[a + 1]);
    TurnHalves(v[d], v[d + 1], v[a], v[a + 1]);
    var lo, hi :=
      if n == 32 then xor1 else if n == 63 then Funnel(xor1, xor0, 31) else Funnel(xor0, xor1, n),
      if n == 32 then xor0 else if n == 63 then Funnel(xor0, xor1, 31) else Funnel(xor1, xor0, n);
    WordsUpdate(v[..], d, lo, hi);
    v[d] := lo;
    v[d + 1] := hi;
  }

  lemma SumTwice(w: seq<U64>, a: nat, b: nat, x: U64)
    requires a < |w| && b < |w| && a != b
    ensures var w' := w[a := Add64(w[a], w[b])]; w'[a := Add64(w'[a], x)] == Sum(w, a, b, x)
  {
    ModTwice(w[a], w[b], x);
  }

  lemma ModTwice(x: int, y: int, z: int)
    ensures ((x + y) % TWO64 + z) % TWO64 == (x + y + z) % TWO64
  {
  }

  lemma SumOnce(w: seq<U64>, a: nat, b: nat)
    requires a < |w| && b < |w|
    ensures w[a := Add64(w[a], w[b])] == Sum(w, a, b, 0)
  {
  }

  /** An addition of two words of v and a word of m. */
  method AddThree(v: array<U32>, a: nat, b: nat, x0: U32, x1: U32)
    requires WordAt(v, a) && WordAt(v, b) && a != b
    modifies v
    ensures Words(v[..]) == Sum(old(Words(v[..])), a / 2, b / 2, Join(x0, x1))
  {
    hide Words, Join, Add64, Sum;
    SumTwice(Words(v[..]), a / 2, b / 2, Join(x0, x1));
    Add64AA(v, a, b);
    Add64AC(v, a, x0, x1);
  }

  method B2bG(v: array<U32>, m: array<U32>, a: nat, b: nat, c: nat, d: nat, ix: nat, iy: nat)
    requires WordAt(v, a) && WordAt(v, b) && WordAt(v, c) && WordAt(v, d) && a != b && v != m
    requires WordAt(m, ix) && WordAt(m, iy)
    modifies v
    ensures Words(v[..]) == G(old(Words(v[..])), a / 2, b / 2, c / 2, d / 2, Words(m[..])[ix / 2], Words(m[..])[iy / 2])
  {
    hide Sum, Turn, Join, Add64;
    var x0, x1 := m[ix], m[ix + 1];
    var y0, y1 := m[iy], m[iy + 1];
    assert Words(m[..])[ix / 2] == Join(x0, x1) && Words(m[..])[iy / 2] == Join(y0, y1);
    AddThree(v, a, b, x0, x1);
    Turn64(v, d, a, 32);
    SumOnce(Words(v[..]), c / 2, d / 2);
    Add64AA(v, c, d);
    Turn64(v, b, c, 24);
    AddThree(v, a, b, y0, y1);
    Turn64(v, d, a, 16);
    SumOnce(Words(v[..]), c / 2, d / 2);
    Add64AA(v, c, d);
    Turn64(v, b, c, 63);
  }

  // ---- The rounds ----

  /** The flat table of the program, sixteen entries to a row. */
  const SIGMA8: seq<seq<nat>> := [
    [0, 1, 2, 3, 4, 5, 6, 7, 8, 9, 10, 11, 12, 13, 14, 15],
    [14, 10, 4, 8, 9, 15, 13, 6, 1, 12, 0, 2, 11, 7, 5, 3],
    [11, 8, 12, 0, 5, 2, 15, 13, 10, 14, 3, 6, 7, 1, 9, 4],
    [7, 9, 3, 1, 13, 12, 11, 14, 2, 6, 5, 10, 4, 0, 15, 8],
    [9, 0, 5, 7, 2, 4, 10, 15, 14, 1, 11, 12, 6, 8, 3, 13],
    [2, 12, 6, 10, 0, 11, 8, 3, 4, 13, 7, 5, 15, 14, 1, 9],
    [12, 5, 1, 15, 14, 13, 4, 10, 0, 7, 6, 3, 9, 2, 8, 11],
    [13, 11, 7, 14, 12, 1, 3, 9, 5, 0, 15, 4, 8, 6, 2, 10],
    [6, 15, 14, 9, 11, 3, 0, 8, 12, 2, 13, 7, 1, 4, 10, 5],
    [10, 2, 8, 4, 7, 6, 1, 5, 15, 11, 9, 14, 3, 12, 13, 0],
    [0, 1, 2, 3, 4, 5, 6, 7, 8, 9, 10, 11, 12, 13, 14, 15],
    [14, 10, 4, 8, 9, 15, 13, 6, 1, 12, 0, 2, 11, 7, 5, 3]
  ]

  /** The entry k of the doubled table: where the halves of a message word start. */
  function Sigma82(k: nat): nat
    requires k < 192
  {
    2 * SIGMA8[k / 16][k % 16]
  }

  /** The twelve rows of the program are the ten of the standard, the first two again. */
  lemma SigmaRow(i: nat)
    requires i < 12
    ensures SIGMA8[i] == SIGMA[i % 10] && Schedule(SIGMA8[i])
  {
  }

  lemma SigmaAt(i: nat, j: nat)
    requires i < 12 && j < 16
    ensures Sigma82(i * 16 + j) / 2 == SIGMA[i % 10][j] < 16 && Sigma82(i * 16 + j) % 2 == 0
  {
    SigmaRow(i);
    assert (i * 16 + j) / 16 == i && (i * 16 + j) % 16 == j;
  }

  /** One call of the mixing function in round i. */
  method Mix(v: array<U32>, m: array<U32>, a: nat, b: nat, c: nat, d: nat, i: nat, j: nat)
    requires v.Length == 32 && m.Length == 32 && v != m && i < 12 && j < 15
    requires WordAt(v, a) && WordAt(v, b) && WordAt(v, c) && WordAt(v, d) && a != b
    modifies v
    ensures SIGMA[i % 10][j] < 16 && SIGMA[i % 10][j + 1] < 16
    ensures Words(v[..])
      == G(old(Words(v[..])), a / 2, b / 2, c / 2, d / 2, Words(m[..])[SIGMA[i % 10][j]],
        Words(m[..])[SIGMA[i % 10][j + 1]])
  {
    hide Words, G, Sigma82, SIGMA;
    SigmaAt(i, j);
    SigmaAt(i, j + 1);
    B2bG(v, m, a, b, c, d, Sigma82(i * 16 + j), Sigma82(i * 16 + (j + 1)));
  }

  method MixColumns(v: array<U32>, m: array<U32>, i: nat)
    requires v.Length == 32 && m.Length == 32 && v != m && i < 12
    modifies v
    ensures Schedule(SIGMA[i % 10]) && Words(v[..]) == Columns(old(Words(v[..])), Words(m[..]), SIGMA[i % 10])
  {
    hide Words, G, SIGMA;
    ScheduleRows(i % 10);
    Mix(v, m, 0, 8, 16, 24, i, 0);
    Mix(v, m, 2, 10, 18, 26, i, 2);
    Mix(v, m, 4, 12, 20, 28, i, 4);
    Mix(v, m, 6, 14, 22, 30, i, 6);
  }

  method MixDiagonals(v: array<U32>, m: array<U32>, i: nat)
    requires v.Length == 32 && m.Length == 32 && v != m && i < 12
    modifies v
    ensures Schedule(SIGMA[i % 10]) && Words(v[..]) == Diagonals(old(Words(v[..])), Words(m[..]), SIGMA[i % 10])
  {
    hide Words, G, SIGMA;
    ScheduleRows(i % 10);
    Mix(v, m, 0, 10, 20, 30, i, 8);
    Mix(v, m, 2, 12, 22, 24, i, 10);
    Mix(v, m, 4, 14, 16, 26, i, 12);
    Mix(v, m, 6, 8, 18, 28, i, 14);
  }

  method AllRounds(v: array<U32>, m: array<U32>)
    requires v.Length == 32 && m.Length == 32 && v != m
    modifies v
    ensures Words(v[..]) == Rounds(old(Words(v[..])), Words(m[..]), 12)
  {
    hide Words, Columns, Diagonals, SIGMA;
    for i := 0 to 12
      invariant Words(v[..]) == Rounds(old(Words(v[..])), Words(m[..]), i) && m[..] == old(m[..])
    {
      MixColumns(v, m, i);
      MixDiagonals(v, m, i);
    }
  }

  // ---- Words of a block ----

  /** B2B_GET32, seen as a 32-bit word. */
  function Get32(arr: seq<byte>, i: nat): U32
    requires i + 4 <= |arr|
  {
    XorWord(XorWord(XorWord(arr[i], ShiftL(arr[i + 1], 8)), ShiftL(arr[i + 2], 16)), ShiftL(arr[i + 3], 24))
  }

  lemma ShiftLByte(x: byte, n: nat)
    requires n <= 24
    ensures ShiftL(x, n) == (x as int) * Pow(2, n)
  {
    hide Pow;
    SmallPowers();
    PowAdd(2, n, 24 - n);
    PowPositive(2, n);
    PowPositive(2, 24 - n);
    ShiftFits(x, Pow(2, n), Pow(2, 24 - n));
  }

  lemma ShiftFits(x: byte, p: nat, q: nat)
    requires p > 0 && q > 0 && p * q == 0x100_0000
    ensures 0 <= (x as int) * p < TWO32
  {
    MulMono(p, 1, q);
    MulMono(p, x, 255);
  }

  lemma SmallPowers()
    ensures Pow(2, 8) == 256 && Pow(2, 16) == 0x1_0000 && Pow(2, 24) == 0x100_0000
  {
    PowersOfTwo();
    PowAdd(2, 8, 8);
    PowAdd(2, 16, 8);
  }

  lemma Get32Sum(b0: byte, b1: byte, b2: byte, b3: byte)
    ensures XorWord(XorWord(XorWord(b0, ShiftL(b1, 8)), ShiftL(b2, 16)), ShiftL(b3, 24))
      == (b0 as int) + 256 * (b1 as int) + 0x1_0000 * (b2 as int) + 0x100_0000 * (b3 as int)
  {
    hide Xor, Pow, ShiftL;
    SmallPowers();
    ShiftLByte(b1, 8);
    ShiftLByte(b2, 16);
    ShiftLByte(b3, 24);
    XorDisjoint(8, b0, b1);
    XorDisjoint(16, (b0 as int) + 256 * (b1 as int), b2);
    XorDisjoint(24, (b0 as int) + 256 * (b1 as int) + 0x1_0000 * (b2 as int), b3);
  }

  lemma {:induction false} Val4(s: seq<byte>)
    requires |s| == 4
    ensures Val(256, s) == (s[0] as int) + 256 * (s[1] as int) + 0x1_0000 * (s[2] as int) + 0x100_0000 * (s[3] as int)
  {
    var t := s[1..];
    var u := t[1..];
    var v := u[1..];
    assert t[0] == s[1] && u[0] == s[2] && v[0] == s[3] && v[1..] == [];
    assert Val(256, v) == s[3] && Val(256, u) == s[2] + 256 * Val(256, v);
  }

  /** Two neighbouring 32-bit reads make up the 64-bit word. */
  lemma Get32Pair(arr: seq<byte>, i: nat)
    requires i + 8 <= |arr|
    ensures Join(Get32(arr, i), Get32(arr, i + 4)) == LittleEndian64(arr, i)
  {
    hide Val, XorWord, ShiftL, Pow;
    var s := arr[i..i + 8];
    assert s[..4] == arr[i..i + 4] && s[4..] == arr[i + 4..i + 8];
    ValSplit(256, s, 4);
    PowersOf256();
    Val4(arr[i..i + 4]);
    Val4(arr[i + 4..i + 8]);
    Get32Sum(arr[i], arr[i + 1], arr[i + 2], arr[i + 3]);
    Get32Sum(arr[i + 4], arr[i + 5], arr[i + 6], arr[i + 7]);
  }

  /** The array of 32-bit reads of a block holds its message words. */
  lemma BlockHalves(s: seq<U32>, arr: seq<byte>)
    requires |arr| % 8 == 0 && |s| == |arr| / 4 && forall i :: 0 <= i < |s| ==> s[i] == Get32(arr, 4 * i)
    ensures Words(s) == BlockWords(arr)
  {
    hide Get32, Join, LittleEndian64;
    forall i | 0 <= i < |arr| / 8 ensures Words(s)[i] == BlockWords(arr)[i] {
      Get32Pair(arr, 8 * i);
      assert s[2 * i] == Get32(arr, 4 * (2 * i)) && s[2 * i + 1] == Get32(arr, 4 * (2 * i + 1));
    }
  }
}
