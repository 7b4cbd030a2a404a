/** BLAKE2b as sections 2 and 3 of RFC 7693 define it. */
module Blake2bSpec {
  import opened Positional
  import opened Bits
  import opened Words64

  const BLOCK: nat := 128

  const IV: seq<U64> := [
    0x6A09E667F3BCC908, 0xBB67AE8584CAA73B, 0x3C6EF372FE94F82B, 0xA54FF53A5F1D36F1,
    0x510E527FADE682D1, 0x9B05688C2B3E6C1F, 0x1F83D9ABFB41BD6B, 0x5BE0CD19137E2179
  ]

  /** The message schedule of section 2.7, one row for each of ten rounds. */
  const SIGMA: seq<seq<nat>> := [
    [0, 1, 2, 3, 4, 5, 6, 7, 8, 9, 10, 11, 12, 13, 14, 15],
    [14, 10, 4, 8, 9, 15, 13, 6, 1, 12, 0, 2, 11, 7, 5, 3],
    [11, 8, 12, 0, 5, 2, 15, 13, 10, 14, 3, 6, 7, 1, 9, 4],
    [7, 9, 3, 1, 13, 12, 11, 14, 2, 6, 5, 10, 4, 0, 15, 8],
    [9, 0, 5, 7, 2, 4, 10, 15, 14, 1, 11, 12, 6, 8, 3, 13],
    [2, 12, 6, 10, 0, 11, 8, 3, 4, 13, 7, 5, 15, 14, 1, 9],
    [12, 5, 1, 15, 14, 13, 4, 10, 0, 7, 6, 3, 9, 2, 8, 11],
    [13, 11, 7, 14, 12, 1, 3, 9, 5, 0, 15, 4, 8, 6, 2, 10],
    [6, 15, 14, 9, 11, 3, 0, 8, 12, 2, 13, 7, 1, 4, 10, 5],
    [10, 2, 8, 4, 7, 6, 1, 5, 15, 11, 9, 14, 3, 12, 13, 0]
  ]

  /** The row of round i, if it is a row of sixteen word numbers. */
  predicate Schedule(s: seq<nat>) {
    |s| == 16 && forall j :: 0 <= j < 16 ==> s[j] < 16
  }

  /** The eight bytes from i on as a little-endian word. */
  function LittleEndian64(s: seq<byte>, i: nat): U64
    requires i + 8 <= |s|
  {
    var b := s[i..i + 8];
    Bound64(b);
    Val(256, b)
  }

  lemma Bound64(b: seq<byte>)
    requires |b| == 8
    ensures 0 <= Val(256, b) < TWO64
  {
    ValBound(256, b);
    PowersOf256();
  }

  lemma PowersOf256()
    ensures Pow(256, 4) == TWO32 && Pow(256, 8) == TWO64
  {
    assert Pow(256, 2) == 0x1_0000;
    PowAdd(256, 2, 2);
    PowAdd(256, 4, 4);
  }

  /** The message words of a block. */
  function BlockWords(block: seq<byte>): (m: seq<U64>)
    ensures |m| == |block| / 8
  {
    seq(|block| / 8, i requires 0 <= i < |block| / 8 => LittleEndian64(block, 8 * i))
  }

  // ---- The mixing function of section 3.1 ----

  function Sum(v: seq<U64>, a: nat, b: nat, x: U64): (r: seq<U64>)
    requires a < |v| && b < |v|
    ensures |r| == |v|
  {
    v[a := ((v[a] as int) + v[b] + x) % TWO64]
  }

  function Turn(v: seq<U64>, d: nat, a: nat, n: nat): (r: seq<U64>)
    requires d < |v| && a < |v| && n <= 64
    ensures |r| == |v|
  {
    v[d := RotR(Xor64(v[d], v[a]), n)]
  }

  function G(v: seq<U64>, a: nat, b: nat, c: nat, d: nat, x: U64, y: U64): (r: seq<U64>)
    requires a < |v| && b < |v| && c < |v| && d < |v|
    ensures |r| == |v|
  {
    var v := Turn(Sum(v, a, b, x), d, a, 32);
    var v := Turn(Sum(v, c, d, 0), b, c, 24);
    var v := Turn(Sum(v, a, b, y), d, a, 16);
    Turn(Sum(v, c, d, 0), b, c, 63)
  }

  // ---- The compression function of section 3.2 ----

  function Columns(v: seq<U64>, m: seq<U64>, s: seq<nat>): (r: seq<U64>)
    requires |v| == 16 && |m| == 16 && Schedule(s)
    ensures |r| == 16
  {
    var v := G(v, 0, 4, 8, 12, m[s[0]], m[s[1]]);
    var v := G(v, 1, 5, 9, 13, m[s[2]], m[s[3]]);
    var v := G(v, 2, 6, 10, 14, m[s[4]], m[s[5]]);
    G(v, 3, 7, 11, 15, m[s[6]], m[s[7]])
  }

  function Diagonals(v: seq<U64>, m: seq<U64>, s: seq<nat>): (r: seq<U64>)
    requires |v| == 16 && |m| == 16 && Schedule(s)
    ensures |r| == 16
  {
    var v := G(v, 0, 5, 10, 15, m[s[8]], m[s[9]]);
    var v := G(v, 1, 6, 11, 12, m[s[10]], m[s[11]]);
    var v := G(v, 2, 7, 8, 13, m[s[12]], m[s[13]]);
    G(v, 3, 4, 9, 14, m[s[14]], m[s[15]])
  }

  function Rounds(v: seq<U64>, m: seq<U64>, n: nat): (r: seq<U64>)
    requires |v| == 16 && |m| == 16
    ensures |r| == 16
  {
    if n == 0 then v
    else
      var v, s := Rounds(v, m, n - 1), SIGMA[(n - 1) % 10];
      assert Schedule(s) by { ScheduleRows((n - 1) % 10); }
      Diagonals(Columns(v, m, s), m, s)
  }

  lemma ScheduleRows(i: nat)
    requires i < 10
    ensures Schedule(SIGMA[i])
  {
  }

  /** The working vector before the rounds: state, IV, offset counter t and the flag of the last block. */
  function Start(h: seq<U64>, t: nat, last: bool): (v: seq<U64>)
    requires |h| == 8
    ensures |v| == 16
  {
    var v := h + IV;
    var v := v[12 := Xor64(v[12], t % TWO64)];
    var v := v[13 := Xor64(v[13], t / TWO64 % TWO64)];
    if last then v[14 := Xor64(v[14], TWO64 - 1)] else v
  }

  function Mixed(h: seq<U64>, v: seq<U64>): (r: seq<U64>)
    requires |h| == 8 && |v| == 16
    ensures |r| == 8
  {
    seq(8, i requires 0 <= i < 8 => Xor64(Xor64(h[i], v[i]), v[i + 8]))
  }

  function F(h: seq<U64>, m: seq<U64>, t: nat, last: bool): (r: seq<U64>)
    requires |h| == 8 && |m| == 16
    ensures |r| == 8
  {
    Mixed(h, Rounds(Start(h, t, last), m, 12))
  }
}
