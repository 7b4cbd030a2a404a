/** The definitions of BLAKE2b, line by line against RFC 7693: its constants, one mixing, one round, and
    the compression around the rounds. */
module Blake2bStandard {
  import opened Bits
  import opened Modular
  import opened Positional
  import opened Words64
  import opened Blake2bSpec

  // ---- The constants of sections 2.6 and 2.7 ----

  /** v is the largest number with this square below p, in units of 2^-64. */
  predicate Root(v: nat, p: nat) {
    v * v < p * 0x1_0000_0000_0000_0000_0000_0000_0000_0000 < (v + 1) * (v + 1)
  }

  /** The initialization vector: the fractional bits of the square roots of the first eight primes. */
  lemma InitialVector()
    ensures |IV| == 8
    ensures Root(0x1_0000_0000_0000_0000 + (IV[0] as int), 2) && Root(0x1_0000_0000_0000_0000 + (IV[1] as int), 3)
    ensures Root(0x2_0000_0000_0000_0000 + (IV[2] as int), 5) && Root(0x2_0000_0000_0000_0000 + (IV[3] as int), 7)
    ensures Root(0x3_0000_0000_0000_0000 + (IV[4] as int), 11) && Root(0x3_0000_0000_0000_0000 + (IV[5] as int), 13)
    ensures Root(0x4_0000_0000_0000_0000 + (IV[6] as int), 17) && Root(0x4_0000_0000_0000_0000 + (IV[7] as int), 19)
  {
    assert Root(0x1_6A09_E667_F3BC_C908, 2) && Root(0x1_BB67_AE85_84CA_A73B, 3);
    assert Root(0x2_3C6E_F372_FE94_F82B, 5) && Root(0x2_A54F_F53A_5F1D_36F1, 7);
    assert Root(0x3_510E_527F_ADE6_82D1, 11) && Root(0x3_9B05_688C_2B3E_6C1F, 13);
    assert Root(0x4_1F83_D9AB_FB41_BD6B, 17) && Root(0x4_5BE0_CD19_137E_2179, 19);
    hide Root;
  }

  /** There is only one such number. */
  lemma RootUnique(v: nat, w: nat, p: nat)
    requires Root(v, p) && Root(w, p)
    ensures v == w
  {
    if v < w {
      Squares(v + 1, w);
    } else if w < v {
      Squares(w + 1, v);
    }
  }

  lemma Squares(a: nat, b: nat)
    requires a <= b
    ensures a * a <= b * b
  {
    MulMono(a, a, b);
    MulMono(b, a, b);
  }

  /** Sixteen digits as one hexadecimal numeral. */
  function Numeral(s: seq<nat>): nat
    requires Schedule(s)
  {
    Octet(s, 0) * 0x1_0000_0000 + Octet(s, 8)
  }

  function Octet(s: seq<nat>, i: nat): nat
    requires i + 8 <= |s|
  {
    s[i] * 0x1000_0000 + s[i + 1] * 0x100_0000 + s[i + 2] * 0x10_0000 + s[i + 3] * 0x1_0000
    + s[i + 4] * 0x1000 + s[i + 5] * 0x100 + s[i + 6] * 0x10 + s[i + 7]
  }

  /** The message schedule: each row, read as a numeral. */
  lemma ScheduleNumerals(i: nat)
    requires i < 10
    ensures |SIGMA| == 10 && Schedule(SIGMA[i])
    ensures var n := Numeral(SIGMA[i]);
      && (i == 0 ==> n == 0x0123_4567_89AB_CDEF)
      && (i == 1 ==> n == 0xEA48_9FD6_1C02_B753)
      && (i == 2 ==> n == 0xB8C0_52FD_AE36_7194)
      && (i == 3 ==> n == 0x7931_DCBE_265A_40F8)
      && (i == 4 ==> n == 0x9057_24AF_E1BC_683D)
      && (i == 5 ==> n == 0x2C6A_0B83_4D75_FE19)
      && (i == 6 ==> n == 0xC51F_ED4A_0763_928B)
      && (i == 7 ==> n == 0xDB7E_C139_50F4_862A)
      && (i == 8 ==> n == 0x6FE9_B308_C2D7_14A5)
      && (i == 9 ==> n == 0xA284_7615_FB9E_3CD0)
  {
    ScheduleRows(i);
  }

  // ---- The mixing of section 3.1 ----

  /** Eight assignments: sums modulo 2^64, and exclusive ors turned right by 32, 24, 16 and 63 bits. */
  lemma MixingIs(v: seq<U64>, a: nat, b: nat, c: nat, d: nat, x: U64, y: U64)
    requires a < |v| && b < |v| && c < |v| && d < |v| && a != b && a != c && a != d && b != c && b != d && c != d
    ensures
      var a1: U64 := ((v[a] as int) + v[b] + x) % 0x1_0000_0000_0000_0000;
      var d1 := RotR(Xor64(v[d], a1), 32);
      var c1: U64 := ((v[c] as int) + d1) % 0x1_0000_0000_0000_0000;
      var b1 := RotR(Xor64(v[b], c1), 24);
      var a2: U64 := ((a1 as int) + b1 + y) % 0x1_0000_0000_0000_0000;
      var d2 := RotR(Xor64(d1, a2), 16);
      var c2: U64 := ((c1 as int) + d2) % 0x1_0000_0000_0000_0000;
      var b2 := RotR(Xor64(b1, c2), 63);
      G(v, a, b, c, d, x, y) == v[a := a2][b := b2][c := c2][d := d2]
  {
    hide RotR, Xor64;
  }

  lemma PowersUsed()
    ensures Pow(2, 16) == 0x1_0000 && Pow(2, 24) == 0x100_0000 && Pow(2, 32) == 0x1_0000_0000
    ensures Pow(2, 40) == 0x100_0000_0000 && Pow(2, 48) == 0x1_0000_0000_0000
    ensures Pow(2, 63) == 0x8000_0000_0000_0000 && Pow(2, 1) == 2
  {
    hide Pow;
    PowersOfTwo();
    PowAdd(2, 8, 8);
    PowAdd(2, 8, 16);
    PowAdd(2, 8, 32);
    PowAdd(2, 16, 32);
    PowAdd(2, 32, 32);
    OddPowers();
  }

  lemma OddPowers()
    ensures Pow(2, 1) == 2 && 2 * Pow(2, 63) == Pow(2, 64)
  {
  }

  /** One bit in the first message word is spread over four words. */
  lemma FirstWordExample(v: seq<U64>, x: U64, y: U64)
    requires v == [0, 0, 0, 0] && x == 1 && y == 0
    ensures G(v, 0, 1, 2, 3, x, y)
      == [0x101, 0x0202_0002_0002_0200, 0x0101_0001_0001_0000, 0x0101_0000_0001_0000]
  {
    hide RotR, Xor64, Pow, G;
    MixingIs(v, 0, 1, 2, 3, x, y);
    PowersUsed();
    ExampleXors();
    TurnedRight(1, 32, 0x1_0000_0000, 0x1_0000_0000, 0, 1);
    TurnedRight(0x1_0000_0000, 24, 0x100_0000, 0x100_0000_0000, 0x100, 0);
    TurnedRight(0x1_0000_0101, 16, 0x1_0000, 0x1_0000_0000_0000, 0x1_0000, 0x101);
    TurnedRight(0x0101_0001_0001_0100, 63, 0x8000_0000_0000_0000, 2, 0, 0x0101_0001_0001_0100);
  }

  /** One in the second comes in later. */
  lemma SecondWordExample(v: seq<U64>, x: U64, y: U64)
    requires v == [0, 0, 0, 0] && x == 0 && y == 1
    ensures G(v, 0, 1, 2, 3, x, y) == [1, 0x2_0000_0000_0000, 0x1_0000_0000_0000, 0x1_0000_0000_0000]
  {
    hide RotR, Xor64, Pow, G;
    MixingIs(v, 0, 1, 2, 3, x, y);
    PowersUsed();
    ExampleXors();
    TurnedRight(0, 32, 0x1_0000_0000, 0x1_0000_0000, 0, 0);
    TurnedRight(0, 24, 0x100_0000, 0x100_0000_0000, 0, 0);
    TurnedRight(1, 16, 0x1_0000, 0x1_0000_0000_0000, 0, 1);
    TurnedRight(0x1_0000_0000_0000, 63, 0x8000_0000_0000_0000, 2, 0, 0x1_0000_0000_0000);
  }

  /** A rotation by n bits, when p = 2^n and q = 2^(64-n), of a number with high part h and low part l. */
  lemma TurnedRight(x: U64, n: nat, p: nat, q: nat, h: nat, l: nat)
    requires n <= 64 && Pow(2, n) == p && Pow(2, 64 - n) == q && x == p * h + l && l < p
    ensures RotR(x, n) as int == h + l * q
  {
    DivUnique(p, x, h, l);
  }

  lemma ExampleXors()
    ensures Xor64(0, 0) == 0 && Xor64(0, 1) == 1 && Xor64(0, 0x1_0000_0000) == 0x1_0000_0000
    ensures Xor64(0, 0x1_0000_0000_0000) == 0x1_0000_0000_0000
    ensures Xor64(0x1_0000_0000, 0x101) == 0x1_0000_0101
    ensures Xor64(0x100, 0x0101_0001_0001_0000) == 0x0101_0001_0001_0100
  {
    hide Xor, Pow;
    PowersUsed();
    ZeroXor(0);
    ZeroXor(1);
    ZeroXor(0x101);
    ZeroXor(0x1_0000_0000);
    ZeroXor(0x1_0000_0000_0000);
    ZeroXor(0x0101_0001_0001);
    ZeroXor(0x100);
    XorSplit(32, 0, 0x101, 1, 0);
    XorSplit(16, 0x100, 0, 0, 0x0101_0001_0001);
  }

  lemma ZeroXor(x: int)
    ensures Xor(0, x) == x && Xor(x, 0) == x
  {
    XorComm(0, x);
    XorZero(x);
  }

  // ---- The compression of section 3.2 ----

  /** The first n of the eight mixings of a round: four columns, then four diagonals, each with the next
      two words of the schedule. */
  function Mixings(v: seq<U64>, m: seq<U64>, s: seq<nat>, n: nat): (r: seq<U64>)
    requires |v| == 16 && |m| == 16 && Schedule(s) && n <= 8
    ensures |r| == 16
  {
    if n == 0 then v
    else
      var v, i := Mixings(v, m, s, n - 1), n - 1;
      if i < 4 then G(v, i, 4 + i, 8 + i, 12 + i, m[s[2 * i]], m[s[2 * i + 1]])
      else
        var j := i - 4;
        G(v, j, 4 + (j + 1) % 4, 8 + (j + 2) % 4, 12 + (j + 3) % 4, m[s[2 * i]], m[s[2 * i + 1]])
  }

  /** Round n of the twelve takes row n modulo 10. */
  lemma RoundIs(v: seq<U64>, m: seq<U64>, n: nat)
    requires |v| == 16 && |m| == 16
    ensures Schedule(SIGMA[n % 10])
    ensures Rounds(v, m, n + 1) == Mixings(Rounds(v, m, n), m, SIGMA[n % 10], 8)
  {
    hide G;
    ScheduleRows(n % 10);
    MixingsAre(Rounds(v, m, n), m, SIGMA[n % 10]);
  }

  lemma MixingsAre(v: seq<U64>, m: seq<U64>, s: seq<nat>)
    requires |v| == 16 && |m| == 16 && Schedule(s)
    ensures Mixings(v, m, s, 8) == Diagonals(Columns(v, m, s), m, s)
  {
    hide G;
    var c := Columns(v, m, s);
    assert Mixings(v, m, s, 4) == c by {
      assert Mixings(v, m, s, 1) == G(v, 0, 4, 8, 12, m[s[0]], m[s[1]]);
      assert Mixings(v, m, s, 2) == G(Mixings(v, m, s, 1), 1, 5, 9, 13, m[s[2]], m[s[3]]);
      assert Mixings(v, m, s, 3) == G(Mixings(v, m, s, 2), 2, 6, 10, 14, m[s[4]], m[s[5]]);
    }
    assert Mixings(v, m, s, 5) == G(c, 0, 5, 10, 15, m[s[8]], m[s[9]]);
    assert Mixings(v, m, s, 6) == G(Mixings(v, m, s, 5), 1, 6, 11, 12, m[s[10]], m[s[11]]);
    assert Mixings(v, m, s, 7) == G(Mixings(v, m, s, 6), 2, 7, 8, 13, m[s[12]], m[s[13]]);
  }

  /** Around the rounds: state and vector, counter halves and flag before, both halves of the result xored
      into the state behind them. */
  lemma CompressionIs(h: seq<U64>, m: seq<U64>, t: nat, last: bool, v: seq<U64>, i: nat)
    requires |h| == 8 && |m| == 16 && |v| == 16 && i < 8
    requires v[..8] == h && v[8..12] == IV[..4]
    requires v[12] == Xor64(IV[4], t % 0x1_0000_0000_0000_0000)
    requires v[13] == Xor64(IV[5], t / 0x1_0000_0000_0000_0000 % 0x1_0000_0000_0000_0000)
    requires v[14] == (if last then Xor64(IV[6], 0xFFFF_FFFF_FFFF_FFFF) else IV[6]) && v[15] == IV[7]
    ensures var w := Rounds(v, m, 12); F(h, m, t, last)[i] == Xor64(Xor64(h[i], w[i]), w[8 + i])
  {
    hide Rounds, Xor64;
    StartIs(h, t, last, v);
  }

  lemma StartIs(h: seq<U64>, t: nat, last: bool, v: seq<U64>)
    requires |h| == 8 && |v| == 16 && v[..8] == h && v[8..12] == IV[..4]
    requires v[12] == Xor64(IV[4], t % 0x1_0000_0000_0000_0000)
    requires v[13] == Xor64(IV[5], t / 0x1_0000_0000_0000_0000 % 0x1_0000_0000_0000_0000)
    requires v[14] == (if last then Xor64(IV[6], 0xFFFF_FFFF_FFFF_FFFF) else IV[6]) && v[15] == IV[7]
    ensures Start(h, t, last) == v
  {
    hide Xor64;
    var s := Start(h, t, last);
    forall k | 0 <= k < 16 ensures s[k] == v[k] {
      if k < 8 {
        assert v[k] == v[..8][k];
      } else if k < 12 {
        assert v[k] == v[8..12][k - 8] && IV[..4][k - 8] == IV[k - 8];
      }
    }
  }
}
