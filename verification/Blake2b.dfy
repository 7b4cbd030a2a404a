/** init, update and final of blake2b.ts: a buffer is compressed only when another byte arrives. */
module Blake2b {
  import opened Modular
  import opened Positional
  import opened Bits
  import opened Words64
  import opened Blake2bSpec
  import opened Blake2bCore
  import opened Results

  const BLAKE2B_IV32: seq<U32> := [
    0xf3bcc908, 0x6a09e667, 0x84caa73b, 0xbb67ae85, 0xfe94f82b, 0x3c6ef372,
    0x5f1d36f1, 0xa54ff53a, 0xade682d1, 0x510e527f, 0x2b3e6c1f, 0x9b05688c,
    0xfb41bd6b, 0x1f83d9ab, 0x137e2179, 0x5be0cd19
  ]

  lemma IvHalves()
    ensures Words(BLAKE2B_IV32) == IV
  {
  }

  /** The largest byte count that a double still counts exactly. */
  const EXACT: nat := 0x20_0000_0000_0000

  // ---- Section 3.3 of the standard ----

  function Padded(s: seq<byte>): (b: seq<byte>)
    requires |s| <= BLOCK
    ensures |b| == BLOCK
  {
    s + Zeros(BLOCK - |s|)
  }

  function Zeros(n: nat): (z: seq<byte>)
    ensures |z| == n && forall i :: 0 <= i < n ==> z[i] == 0
  {
    if n == 0 then [] else [0] + Zeros(n - 1)
  }

  /** The state after the first n blocks of the data, none of them the last. */
  function Chain(h: seq<U64>, data: seq<byte>, n: nat): (r: seq<U64>)
    requires |h| == 8 && n * BLOCK <= |data|
    ensures |r| == 8
  {
    if n == 0 then h
    else F(Chain(h, data, n - 1), BlockWords(data[(n - 1) * BLOCK..n * BLOCK]), n * BLOCK, false)
  }

  /** The number of blocks before the last one; data without bytes still has one block. */
  function Before(size: nat): nat {
    if size == 0 then 0 else (size - 1) / BLOCK
  }

  /** The state after all blocks: the last one is padded with zeros, counts all bytes, and is flagged. */
  function Hash(h: seq<U64>, data: seq<byte>): (r: seq<U64>)
    requires |h| == 8
    ensures |r| == 8
  {
    var n := Before(|data|);
    F(Chain(h, data, n), BlockWords(Padded(data[n * BLOCK..])), |data|, true)
  }

  /** The parameter block of section 2.5 in sequential mode, with salt and personalization in its upper half. */
  function Parameters(outlen: byte, keylen: byte, salt: seq<byte>, personal: seq<byte>): (p: seq<byte>)
    requires |salt| == 16 && |personal| == 16
    ensures |p| == 64
  {
    [outlen, keylen, 1, 1] + Zeros(28) + salt + personal
  }

  function InitialState(p: seq<byte>): (h: seq<U64>)
    requires |p| == 64
    ensures |h| == 8
  {
    seq(8, i requires 0 <= i < 8 => Xor64(IV[i], BlockWords(p)[i]))
  }

  /** Byte k of a little-endian word. */
  function WordByte(w: U64, k: nat): byte
    requires k < 8
  {
    PowPositive(256, k);
    w / Pow(256, k) % 256
  }

  /** The first bytes of the state as little-endian words. */
  function Digest(h: seq<U64>, outlen: nat): (d: seq<byte>)
    requires |h| == 8 && outlen <= 64
    ensures |d| == outlen
  {
    seq(outlen, i requires 0 <= i < outlen => WordByte(h[i / 8], i % 8))
  }

  datatype Error = IllegalOutputLength | IllegalKey | IllegalSalt | IllegalPersonal

  /** The data that are hashed: a key comes first, in a block of its own. */
  function Data(key: Option<seq<byte>>, input: seq<byte>): seq<byte>
    requires key.Some? ==> |key.value| <= 64
  {
    (if key.Some? then Padded(key.value) else []) + input
  }

  /** The parameter checks of blake2bInit. */
  function Checked(key: Option<seq<byte>>, outlen: nat, salt: Option<seq<byte>>,
    personal: Option<seq<byte>>): Option<Error> {
    if outlen == 0 || outlen > 64 then Some(IllegalOutputLength)
    else if key.Some? && |key.value| > 64 then Some(IllegalKey)
    else if salt.Some? && |salt.value| != 16 then Some(IllegalSalt)
    else if personal.Some? && |personal.value| != 16 then Some(IllegalPersonal)
    else None
  }

  function InitialFor(key: Option<seq<byte>>, outlen: nat, salt: Option<seq<byte>>,
    personal: Option<seq<byte>>): (h: seq<U64>)
    requires Checked(key, outlen, salt, personal) == None
    ensures |h| == 8
  {
    InitialState(Parameters(outlen, if key.Some? then |key.value| else 0,
      if salt.Some? then salt.value else Zeros(16), if personal.Some? then personal.value else Zeros(16)))
  }

  /** What the program returns. */
  function Blake2bValue(input: seq<byte>, key: Option<seq<byte>>, outlen: nat, salt: Option<seq<byte>>,
    personal: Option<seq<byte>>): Result<seq<byte>, Error> {
    var error := Checked(key, outlen, salt, personal);
    if error.Some? then Err(error.value)
    else Ok(Digest(Hash(InitialFor(key, outlen, salt, personal), Data(key, input)), outlen))
  }

  // ---- Small facts about the halves ----

  lemma {:induction false} XorOnes(x: nat, n: nat)
    requires x < Pow(2, n)
    ensures Xor(x, Pow(2, n) - 1) == Pow(2, n) - 1 - x
  {
    hide Xor;
    if n == 0 {
      XorZero(0);
    } else {
      XorOnes(x / 2, n - 1);
      XorOnesStep(x, Pow(2, n - 1));
    }
  }

  lemma XorOnesStep(x: nat, p: nat)
    requires x < 2 * p && Xor(x / 2, p - 1) == p - 1 - x / 2
    ensures Xor(x, 2 * p - 1) == 2 * p - 1 - x
  {
    hide Xor;
    var y, z := 2 * p - 1, 2 * p - 1 - x;
    assert y / 2 == p - 1;
    assert z / 2 == p - 1 - x / 2 && z % 2 == 1 - x % 2 == (x + y) % 2;
    XorStep(x, y);
    SameHalves(Xor(x, y), z);
  }

  /** Inverting both halves is an exclusive or with all ones. */
  lemma NotHalves(x0: U32, x1: U32)
    ensures Join(TWO32 - 1 - x0, TWO32 - 1 - x1) == Xor64(Join(x0, x1), TWO64 - 1)
  {
    hide Xor, Pow;
    PowersOfTwo();
    XorOnes(x0, 32);
    XorOnes(x1, 32);
    XorHalves(x0, x1, TWO32 - 1, TWO32 - 1);
  }

  lemma CounterHalves(t: nat)
    requires t < TWO64
    ensures Join(t % TWO32, t / TWO32 % TWO32) == t % TWO64 == t && t / TWO64 % TWO64 == 0
  {
  }

  lemma Xor64Zero(x: U64)
    ensures Xor64(x, 0) == x
  {
    XorZero(x);
  }

  class Context {
    const b: array<byte>
    const h: array<U32>
    var t: nat
    var c: nat
    const outlen: nat
    /** History: the initial state, the bytes given so far, and the blocks compressed. */
    ghost var h0: seq<U64>
    ghost var data: seq<byte>
    ghost var n: nat

    ghost predicate Shape()
      reads this
    {
      b.Length == BLOCK && h.Length == 16 && c <= BLOCK && 0 < outlen <= 64
    }

    /** All complete blocks but the last are compressed; the rest of the data is in the buffer. */
    ghost predicate Valid()
      reads this, b, h
    {
      && Shape() && |h0| == 8
      && t == n * BLOCK && |data| == t + c && |data| < EXACT
      && (c == 0 ==> n == 0)
      && b[..c] == data[t..]
      && Words(h[..]) == Chain(h0, data, n)
    }

    constructor (outlen: nat)
      requires 0 < outlen <= 64
      ensures Shape() && fresh(b) && fresh(h) && t == 0 && c == 0 && this.outlen == outlen
      ensures b[..] == Zeros(BLOCK)
    {
      b := new byte[BLOCK](_ => 0);
      h := new U32[16](_ => 0);
      t, c := 0, 0;
      this.outlen := outlen;
      h0, data, n := [], [], 0;
    }

    /** The first loop of the compression. */
    method CopyState() returns (v: array<U32>)
      requires Shape()
      ensures fresh(v) && v.Length == 32 && v[..] == h[..] + BLAKE2B_IV32
    {
      v := new U32[32](_ => 0);
      for i := 0 to 16
        invariant forall k :: 0 <= k < i ==> v[k] == h[k] && v[k + 16] == BLAKE2B_IV32[k]
      {
        v[i] := h[i];
        v[i + 16] := BLAKE2B_IV32[i];
      }
    }

    /** The working vector of a compression: state, IV, byte count and the flag of the last block. */
    method StartVector(last: bool) returns (v: array<U32>)
      requires Shape() && t < EXACT
      ensures fresh(v) && v.Length == 32 && Words(v[..]) == Start(Words(h[..]), t, last)
    {
      hide Words, Xor64, Join, BLAKE2B_IV32, IV;
      v := CopyState();
      WordsAppend(h[..], BLAKE2B_IV32);
      IvHalves();
      CounterHalves(t);
      Xor64Zero((Words(h[..]) + IV)[13]);
      XorAt(v, 24, t % TWO32, t / TWO32 % TWO32);
      if last {
        NotAt(v, 28);
      }
    }

    /** blake2bCompress. */
    method Compress(last: bool)
      requires Shape() && t < EXACT
      modifies h
      ensures Words(h[..]) == F(old(Words(h[..])), BlockWords(b[..]), t, last)
    {
      hide Words, BlockWords, Start, Rounds, Mixed, Get32;
      var v := StartVector(last);
      var m := new U32[32](_ => 0);
      ghost var start := v[..];
      for i := 0 to 32
        invariant forall k :: 0 <= k < i ==> m[k] == Get32(b[..], 4 * k)
        invariant h[..] == old(h[..]) && v[..] == start
      {
        m[i] := Get32(b[..], 4 * i);
      }
      BlockHalves(m[..], b[..]);
      AllRounds(v, m);
      ghost var mixed := v[..];
      for i := 0 to 16
        invariant v[..] == mixed
        invariant forall k :: 0 <= k < i ==> h[k] == XorWord(XorWord(old(h[k]), v[k]), v[k + 16])
        invariant forall k :: i <= k < 16 ==> h[k] == old(h[k])
      {
        h[i] := XorWord(XorWord(h[i], v[i]), v[i + 16]);
      }
      MixedHalves(old(h[..]), v[..], h[..]);
    }

    /** The body of the loop of blake2bUpdate: a full buffer is compressed when the next byte arrives. */
    method AddByte(x: byte)
      requires Valid() && |data| + 1 < EXACT
      modifies this`t, this`c, this`data, this`n, b, h
      ensures Valid() && data == old(data) + [x] && h0 == old(h0)
      ensures old(c) < BLOCK ==> c == old(c) + 1 && Kept(old(b[..]), b[..], c)
    {
      hide Words, BlockWords, F, Chain;
      if c == BLOCK {
        assert data[n * BLOCK..(n + 1) * BLOCK] == data[t..] == b[..];
        ChainStep(h0, data, n);
        t := t + c;
        Compress(false);
        c := 0;
        n := n + 1;
        assert data[t..] == [];
      }
      ChainPrefix(h0, data, [x], n);
      ghost var before := b[..c];
      assert (data + [x])[t..] == data[t..] + [x];
      b[c] := x;
      c := c + 1;
      data := data + [x];
      assert b[..c] == before + [x];
    }

    method Update(input: seq<byte>)
      requires Valid() && |data| + |input| < EXACT
      modifies this`t, this`c, this`data, this`n, b, h
      ensures Valid() && data == old(data) + input && h0 == old(h0)
      ensures old(c) + |input| <= BLOCK ==> c == old(c) + |input| && Kept(old(b[..]), b[..], c)
    {
      hide Valid, Kept;
      KeptAll(b[..], c);
      for i := 0 to |input|
        invariant Valid() && data == old(data) + input[..i] && h0 == old(h0)
        invariant old(c) + i <= BLOCK ==> c == old(c) + i && Kept(old(b[..]), b[..], c)
      {
        assert input[..i + 1] == input[..i] + [input[i]];
        ghost var before, c0 := b[..], c;
        AddByte(input[i]);
        if old(c) + i < BLOCK {
          KeptTwice(old(b[..]), before, b[..], c0);
        }
      }
      assert input[..|input|] == input;
    }

    /** The last loop of blake2bInit. */
    method InitState(parameterBlock: seq<byte>)
      requires Shape() && |parameterBlock| == 64 && t == 0 && c == 0
      modifies this`h0, this`data, this`n, h
      ensures Valid() && h0 == InitialState(parameterBlock) && data == []
    {
      hide Words, InitialState, Get32;
      for i := 0 to 16
        invariant forall k :: 0 <= k < i ==> h[k] == XorWord(BLAKE2B_IV32[k], Get32(parameterBlock, 4 * k))
      {
        h[i] := XorWord(BLAKE2B_IV32[i], Get32(parameterBlock, i * 4));
      }
      InitialHalves(h[..], parameterBlock);
      h0, data, n := InitialState(parameterBlock), [], 0;
    }

    /** A key is put into the zero buffer, which from then on counts as full. */
    method PutKey(key: seq<byte>)
      requires Valid() && data == [] && b[..] == Zeros(BLOCK) && |key| <= 64
      modifies this`t, this`c, this`data, this`n, b, h
      ensures Valid() && data == Padded(key) && h0 == old(h0)
    {
      Update(key);
      PaddedBuffer(key, b[..]);
      c := 128;
      data := Padded(key);
      n := 0;
      hide Words;
    }

    /** The zero filling of blake2bFinal. */
    method FillZeros()
      requires Shape()
      modifies this`c, b
      ensures c == BLOCK && b[..] == Padded(old(b[..c]))
    {
      ghost var start := b[..c];
      while c < BLOCK
        invariant old(c) <= c <= BLOCK && b[..old(c)] == start
        invariant forall k :: old(c) <= k < c ==> b[k] == 0
      {
        b[c] := 0;
        c := c + 1;
      }
    }

    method Final() returns (out: seq<byte>)
      requires Valid()
      modifies this`t, this`c, b, h
      ensures out == Digest(Hash(old(h0), old(data)), outlen)
    {
      hide Words, BlockWords, F, Chain, Digest;
      LastBlock(data, n);
      t := t + c;
      FillZeros();
      Compress(true);
      out := [];
      for i := 0 to outlen
        invariant |out| == i && forall k :: 0 <= k < i ==> out[k] == OutByte(h[..], k)
      {
        out := out + [OutByte(h[..], i)];
      }
      OutIsDigest(h[..], out);
    }
  }

  /** The buffer from a place on is what it was. */
  predicate Kept(before: seq<byte>, after: seq<byte>, from: nat) {
    |before| == |after| && (from <= |after| ==> before[from..] == after[from..])
  }

  lemma KeptAll(s: seq<byte>, from: nat)
    ensures Kept(s, s, from)
  {
  }

  lemma KeptTwice(a: seq<byte>, b: seq<byte>, c: seq<byte>, from: nat)
    requires Kept(a, b, from) && Kept(b, c, from + 1)
    ensures Kept(a, c, from + 1)
  {
    if from + 1 <= |a| {
      assert a[from + 1..] == a[from..][1..] && b[from + 1..] == b[from..][1..];
    }
  }

  /** `h[i >> 2] >> (8 * (i & 3))` as a byte: the shift takes the word with its sign. */
  function OutByte(h: seq<U32>, i: nat): byte
    requires |h| == 16 && i < 64
  {
    PowPositive(256, i % 4);
    ToInt32(h[i / 4]) / Pow(256, i % 4) % 256
  }

  lemma PowerPair(k: nat)
    requires k < 4
    ensures Pow(256, k) > 0 && Pow(256, k) * (256 * Pow(256, 3 - k)) == TWO32 && Pow(256, k + 4) == TWO32 * Pow(256, k)
  {
    PowPositive(256, k);
    PowAdd(256, k, 4 - k);
    PowAdd(256, 4, k);
    PowersOf256();
  }

  lemma Signed(x: U32)
    ensures ToInt32(x) == x || ToInt32(x) == (x as int) + TWO32 * -1
  {
  }

  /** The bytes of a double word are those of its halves, with or without the sign. */
  lemma OutByteHalf(lo: U32, hi: U32, k: nat)
    requires k < 4
    ensures Pow(256, k) > 0
    ensures WordByte(Join(lo, hi), k) == ToInt32(lo) / Pow(256, k) % 256
    ensures WordByte(Join(lo, hi), k + 4) == ToInt32(hi) / Pow(256, k) % 256
  {
    hide Pow, ToInt32;
    PowerPair(k);
    var p, q := Pow(256, k), Pow(256, 3 - k);
    LowByte(lo, hi, p, q);
    LowByte(lo, -1, p, q);
    LowByte(hi, -1, p, q);
    Signed(lo);
    Signed(hi);
    HighByte(lo, hi, p);
  }

  lemma LowByte(x: U32, y: int, p: nat, q: nat)
    requires p > 0 && p * (256 * q) == TWO32
    ensures ((x as int) + TWO32 * y) / p % 256 == x / p % 256
  {
    var a, r := x / p, x % p;
    var z: int := (x as int) + TWO32 * y;
    assert TWO32 * y == p * (256 * q * y);
    assert z == p * (a + 256 * q * y) + r;
    DivUnique(p, z, a + 256 * q * y, r);
    ModShift(256, a, q * y);
    assert 256 * q * y == q * y * 256;
  }

  lemma HighByte(x: U32, y: U32, p: nat)
    requires p > 0
    ensures ((x as int) + TWO32 * y) / (TWO32 * p) == y / p
  {
    var a, r := y / p, y % p;
    assert TWO32 * (y as int) == TWO32 * (p * a + r) == TWO32 * p * a + TWO32 * r;
    MulMono(TWO32, r, p - 1);
    DivUnique(TWO32 * p, (x as int) + TWO32 * y, a, (x as int) + TWO32 * r);
  }

  lemma OutIsDigest(h: seq<U32>, out: seq<byte>)
    requires |h| == 16 && |out| <= 64 && forall k :: 0 <= k < |out| ==> out[k] == OutByte(h, k)
    ensures out == Digest(Words(h), |out|)
  {
    hide WordByte, Join, ToInt32;
    forall k | 0 <= k < |out| ensures out[k] == Digest(Words(h), |out|)[k] {
      OutByteHalf(h[2 * (k / 8)], h[2 * (k / 8) + 1], k % 4);
    }
  }

  lemma ChainStep(h: seq<U64>, data: seq<byte>, n: nat)
    requires |h| == 8 && (n + 1) * BLOCK <= |data|
    ensures Chain(h, data, n + 1)
      == F(Chain(h, data, n), BlockWords(data[n * BLOCK..(n + 1) * BLOCK]), (n + 1) * BLOCK, false)
  {
  }

  lemma {:induction false} ChainPrefix(h: seq<U64>, data: seq<byte>, more: seq<byte>, n: nat)
    requires |h| == 8 && n * BLOCK <= |data|
    ensures Chain(h, data + more, n) == Chain(h, data, n)
  {
    hide F, BlockWords;
    if n > 0 {
      ChainPrefix(h, data, more, n - 1);
      assert (data + more)[(n - 1) * BLOCK..n * BLOCK] == data[(n - 1) * BLOCK..n * BLOCK];
    }
  }

  /** What the buffer holds at the end is the last block of the data. */
  lemma LastBlock(data: seq<byte>, n: nat)
    requires n * BLOCK <= |data| <= (n + 1) * BLOCK && (|data| == n * BLOCK ==> n == 0)
    ensures Before(|data|) == n
  {
  }

  lemma IvWord(i: nat)
    requires i < 8
    ensures |BLAKE2B_IV32| == 16 && |IV| == 8 && IV[i] == Join(BLAKE2B_IV32[2 * i], BLAKE2B_IV32[2 * i + 1])
  {
    IvHalves();
    WordsAt(BLAKE2B_IV32, 2 * i);
  }

  lemma InitialHalves(h: seq<U32>, p: seq<byte>)
    requires |h| == 16 && |p| == 64
    requires forall k :: 0 <= k < 16 ==> h[k] == XorWord(BLAKE2B_IV32[k], Get32(p, 4 * k))
    ensures Words(h) == InitialState(p)
  {
    hide Join, Xor64, XorWord, Get32, LittleEndian64, BLAKE2B_IV32, IV;
    forall i | 0 <= i < 8 ensures Words(h)[i] == InitialState(p)[i] {
      var a := 2 * i;
      IvWord(i);
      Get32Pair(p, 8 * i);
      XorHalves(BLAKE2B_IV32[a], BLAKE2B_IV32[a + 1], Get32(p, 4 * a), Get32(p, 4 * a + 4));
      assert h[a] == XorWord(BLAKE2B_IV32[a], Get32(p, 4 * a))
        && h[a + 1] == XorWord(BLAKE2B_IV32[a + 1], Get32(p, 4 * (a + 1)));
    }
  }

  lemma PaddedBuffer(key: seq<byte>, b: seq<byte>)
    requires |key| <= 64 && |b| == BLOCK && b[..|key|] == key && b[|key|..] == Zeros(BLOCK)[|key|..]
    ensures b == Padded(key)
  {
    assert Zeros(BLOCK)[|key|..] == Zeros(BLOCK - |key|);
  }

  lemma MixedHalves(h: seq<U32>, v: seq<U32>, h': seq<U32>)
    requires |h| == 16 && |v| == 32 && |h'| == 16
    requires forall k :: 0 <= k < 16 ==> h'[k] == XorWord(XorWord(h[k], v[k]), v[k + 16])
    ensures Words(h') == Mixed(Words(h), Words(v))
  {
    hide Join, Xor64, XorWord;
    forall i | 0 <= i < 8 ensures Words(h')[i] == Mixed(Words(h), Words(v))[i] {
      var a := 2 * i;
      XorHalves(h[a], h[a + 1], v[a], v[a + 1]);
      XorHalves(XorWord(h[a], v[a]), XorWord(h[a + 1], v[a + 1]), v[a + 16], v[a + 17]);
      assert h'[a] == XorWord(XorWord(h[a], v[a]), v[a + 16])
        && h'[a + 1] == XorWord(XorWord(h[a + 1], v[a + 1]), v[a + 17]);
      assert Words(v)[i + 8] == Join(v[a + 16], v[a + 17]);
    }
  }

  lemma WordsAppend(a: seq<U32>, b: seq<U32>)
    requires |a| == 16 && |b| == 16
    ensures Words(a + b) == Words(a) + Words(b)
  {
    hide Join;
    var s := a + b;
    forall i | 0 <= i < 16 ensures Words(s)[i] == (Words(a) + Words(b))[i] {
      if i < 8 {
        assert s[2 * i] == a[2 * i] && s[2 * i + 1] == a[2 * i + 1];
      } else {
        assert s[2 * i] == b[2 * (i - 8)] && s[2 * i + 1] == b[2 * (i - 8) + 1];
      }
    }
  }

  method XorAt(v: array<U32>, a: nat, lo: U32, hi: U32)
    requires WordAt(v, a)
    modifies v
    ensures Words(v[..]) == old(Words(v[..]))[a / 2 := Xor64(old(Words(v[..]))[a / 2], Join(lo, hi))]
  {
    hide Words, Xor64, Join, XorWord;
    WordsAt(v[..], a);
    XorHalves(v[a], v[a + 1], lo, hi);
    WordsUpdate(v[..], a, XorWord(v[a], lo), XorWord(v[a + 1], hi));
    v[a] := XorWord(v[a], lo);
    v[a + 1] := XorWord(v[a + 1], hi);
  }

  /** The bitwise inversion of both halves. */
  method NotAt(v: array<U32>, a: nat)
    requires WordAt(v, a)
    modifies v
    ensures Words(v[..]) == old(Words(v[..]))[a / 2 := Xor64(old(Words(v[..]))[a / 2], TWO64 - 1)]
  {
    hide Words, Xor64, Join;
    WordsAt(v[..], a);
    NotHalves(v[a], v[a + 1]);
    WordsUpdate(v[..], a, TWO32 - 1 - v[a], TWO32 - 1 - v[a + 1]);
    v[a] := Not(v[a]) % TWO32;
    v[a + 1] := Not(v[a + 1]) % TWO32;
  }

  // ---- init and the whole hash ----

  /** The parameter block that blake2bInit fills in. */
  method ParameterBlock(outlen: byte, key: Option<seq<byte>>, salt: Option<seq<byte>>, personal: Option<seq<byte>>)
    returns (p: array<byte>)
    requires key.Some? ==> |key.value| <= 64
    requires (salt.Some? ==> |salt.value| == 16) && (personal.Some? ==> |personal.value| == 16)
    ensures fresh(p) && p[..] == Parameters(outlen, if key.Some? then |key.value| else 0,
      if salt.Some? then salt.value else Zeros(16), if personal.Some? then personal.value else Zeros(16))
  {
    hide *;
    p := ParameterHead(outlen, if key.Some? then |key.value| else 0);
    if salt.Some? {
      SetBytes(p, salt.value, 32);
    }
    if personal.Some? {
      SetBytes(p, personal.value, 48);
    }
    ParameterParts(p[..], outlen, if key.Some? then |key.value| else 0,
      if salt.Some? then salt.value else Zeros(16), if personal.Some? then personal.value else Zeros(16));
  }

  /** The block filled with zeros, the lengths, and the two ones of sequential mode. */
  method ParameterHead(outlen: byte, keylen: byte) returns (p: array<byte>)
    ensures fresh(p) && p.Length == 64 && p[..4] == [outlen, keylen, 1, 1] && p[4..32] == Zeros(28)
    ensures |Zeros(16)| == 16 && p[32..48] == Zeros(16) && p[48..64] == Zeros(16)
  {
    p := new byte[64](_ => 0);
    p[0] := outlen;
    p[1] := keylen;
    p[2] := 1;
    p[3] := 1;
    ZeroSlice(p[..], 4, 32);
    ZeroSlice(p[..], 32, 48);
    ZeroSlice(p[..], 48, 64);
  }

  lemma ParameterParts(p: seq<byte>, outlen: byte, keylen: byte, salt: seq<byte>, personal: seq<byte>)
    requires |p| == 64 && |salt| == 16 && |personal| == 16
    requires p[..4] == [outlen, keylen, 1, 1] && p[4..32] == Zeros(28) && p[32..48] == salt && p[48..64] == personal
    ensures p == Parameters(outlen, keylen, salt, personal)
  {
    assert p == p[..4] + p[4..32] + p[32..48] + p[48..64];
  }

  lemma ZeroSlice(s: seq<byte>, from: nat, to: nat)
    requires from <= to <= |s| && forall k :: from <= k < to ==> s[k] == 0
    ensures s[from..to] == Zeros(to - from)
  {
  }

  /** `p.set(data, at)` for sixteen bytes at a multiple of sixteen. */
  method SetBytes(p: array<byte>, data: seq<byte>, at: nat)
    requires p.Length == 64 && |data| == 16 && (at == 32 || at == 48)
    modifies p
    ensures p[..4] == old(p[..4]) && p[4..32] == old(p[4..32])
    ensures p[32..48] == (if at == 32 then data else old(p[32..48]))
    ensures p[48..64] == (if at == 48 then data else old(p[48..64]))
  {
    forall i | 0 <= i < 16 {
      p[at + i] := data[i];
    }
  }

  /** blake2bInit: the parameter block goes into the state, a key into the buffer. */
  method Init(outlen: nat, key: Option<seq<byte>>, salt: Option<seq<byte>>, personal: Option<seq<byte>>)
    returns (r: Result<Context, Error>)
    ensures r.Err? <==> Checked(key, outlen, salt, personal).Some?
    ensures r.Err? ==> Checked(key, outlen, salt, personal) == Some(r.error)
    ensures r.Ok? ==>
      fresh(r.value) && fresh(r.value.b) && fresh(r.value.h) && r.value.Valid() && r.value.outlen == outlen
    ensures r.Ok? ==> r.value.h0 == InitialFor(key, outlen, salt, personal) && r.value.data == Data(key, [])
  {
    if outlen == 0 || outlen > 64 {
      return Err(IllegalOutputLength);
    }
    if key.Some? && |key.value| > 64 {
      return Err(IllegalKey);
    }
    if salt.Some? && |salt.value| != 16 {
      return Err(IllegalSalt);
    }
    if personal.Some? && |personal.value| != 16 {
      return Err(IllegalPersonal);
    }
    var ctx := InitContext(outlen, key, salt, personal);
    return Ok(ctx);
  }

  method InitContext(outlen: nat, key: Option<seq<byte>>, salt: Option<seq<byte>>, personal: Option<seq<byte>>)
    returns (ctx: Context)
    requires Checked(key, outlen, salt, personal) == None
    ensures fresh(ctx) && fresh(ctx.b) && fresh(ctx.h) && ctx.Valid() && ctx.outlen == outlen
    ensures ctx.h0 == InitialFor(key, outlen, salt, personal) && ctx.data == Data(key, [])
  {
    hide Parameters, InitialState, Padded, Words, Chain;
    ctx := new Context(outlen);
    var parameterBlock := ParameterBlock(outlen, key, salt, personal);
    ctx.InitState(parameterBlock[..]);
    DataBefore(key);
    if key.Some? {
      ctx.PutKey(key.value);
    }
  }

  lemma DataBefore(key: Option<seq<byte>>)
    requires key.Some? ==> |key.value| <= 64
    ensures Data(key, []) == if key.Some? then Padded(key.value) else []
  {
  }

  /** blake2b: an output length that is missing or zero means 64. */
  method Blake2bHash(input: seq<byte>, key: Option<seq<byte>>, outlen: Option<nat>, salt: Option<seq<byte>>,
    personal: Option<seq<byte>>)
    returns (r: Result<seq<byte>, Error>)
    requires |input| + BLOCK < EXACT
    ensures var length := if outlen.Some? && outlen.value != 0 then outlen.value else 64;
      r == Blake2bValue(input, key, length, salt, personal)
  {
    hide InitialFor, Hash, Digest, Words, Chain, Padded, Data;
    var length := if outlen.Some? && outlen.value != 0 then outlen.value else 64;
    var ctx := Init(length, key, salt, personal);
    if ctx.Err? {
      return Err(ctx.error);
    }
    DataAppend(key, input);
    ctx.value.Update(input);
    var out := ctx.value.Final();
    return Ok(out);
  }

  lemma DataAppend(key: Option<seq<byte>>, input: seq<byte>)
    requires key.Some? ==> |key.value| <= 64
    ensures Data(key, []) + input == Data(key, input) && |Data(key, [])| <= BLOCK
  {
  }

  // ---- How this relates to the standard ----

  /** The data of section 3.3: only a key of positive length is put in front. */
  function StandardData(key: seq<byte>, input: seq<byte>): seq<byte>
    requires |key| <= 64
  {
    (if key != [] then Padded(key) else []) + input
  }

  /** The program hashes the standard's data except for a key that is given but empty. */
  lemma DataIsStandard(key: Option<seq<byte>>, input: seq<byte>)
    requires key.Some? ==> |key.value| <= 64
    ensures Data(key, input) == StandardData(if key.Some? then key.value else [], input) <==> key != Some([])
  {
    if key == Some([]) {
      assert |Data(key, input)| == BLOCK + |input|;
    }
  }

  /** Blocks of 128 bytes: all but the last count the bytes so far, the last holds 1 to 128 bytes, or none
      when there are no data, followed by zeros, and counts them all. */
  lemma HashIs(h: seq<U64>, data: seq<byte>, n: nat, last: seq<byte>, zeros: seq<byte>)
    requires |h| == 8 && 128 * n + |last| == |data| && data[128 * n..] == last
    requires (0 < |last| <= 128 || (n == 0 && last == [])) && |zeros| == 128 - |last|
    requires forall i :: 0 <= i < |zeros| ==> zeros[i] == 0
    ensures Hash(h, data) == F(Chain(h, data, n), BlockWords(last + zeros), |data|, true)
  {
    hide F, BlockWords, Chain;
    assert Before(|data|) == n;
    assert Zeros(BLOCK - |last|) == zeros;
  }

  lemma ChainIs(h: seq<U64>, data: seq<byte>, k: nat, block: seq<byte>)
    requires |h| == 8 && 128 * k + 128 <= |data| && |block| == 128 && data[128 * k..128 * k + 128] == block
    ensures Chain(h, data, 0) == h
    ensures Chain(h, data, k + 1) == F(Chain(h, data, k), BlockWords(block), 128 * k + 128, false)
  {
    hide F, BlockWords;
  }

  /** The digest holds the words of the state with the least significant byte first. */
  lemma DigestWords(h: seq<U64>, i: nat)
    requires |h| == 8 && i < 8
    ensures LittleEndian64(Digest(h, 64), 8 * i) == h[i]
  {
    hide WordByte;
    var d := Digest(h, 64)[8 * i..8 * i + 8];
    forall k: nat | k < 8 ensures d[k] == WordByte(h[i], k) {
      DivUnique(8, 8 * i + k, i, k);
    }
    PowersOf256();
    WordDigits(h[i], d, 8);
    assert d[..8] == d;
    DivUnique(TWO64, h[i], 0, h[i]);
  }

  lemma {:induction false} WordDigits(w: U64, d: seq<byte>, n: nat)
    requires n <= |d| == 8 && forall k: nat :: k < 8 ==> d[k] == WordByte(w, k)
    ensures Pow(256, n) > 0 && Val(256, d[..n]) == w % Pow(256, n)
  {
    PowPositive(256, n);
    if n > 0 {
      WordDigits(w, d, n - 1);
      ValPrefix(256, d, n - 1);
      var p := Pow(256, n - 1);
      NextDigit(w, p);
    }
  }

  lemma NextDigit(w: nat, p: nat)
    requires p > 0
    ensures w % (256 * p) == w % p + w / p % 256 * p
  {
    var q, r := w / p, w % p;
    var a, b := q / 256, q % 256;
    assert w == p * q + r && q == 256 * a + b;
    assert p * (256 * a + b) == (256 * p) * a + b * p by { Assoc(p, 256, a); }
    MulMono(p, b, 255);
    DivUnique(256 * p, w, a, r + b * p);
  }

  /** Without salt and personalization only the first word of the state differs from the IV: by 0x0101kknn. */
  lemma PlainParameters(outlen: byte, keylen: byte)
    ensures InitialState(Parameters(outlen, keylen, Zeros(16), Zeros(16)))
      == IV[0 := Xor64(IV[0], 0x0101_0000 + 0x100 * (keylen as int) + outlen)]
  {
    hide Xor64, LittleEndian64, IV, Parameters;
    var p := Parameters(outlen, keylen, Zeros(16), Zeros(16));
    IvWord(0);
    FirstWord(outlen, keylen);
    forall i | 0 < i < 8 ensures Xor64(IV[i], BlockWords(p)[i]) == IV[i] {
      OtherWords(outlen, keylen, i);
      Xor64Zero(IV[i]);
    }
  }

  lemma FirstWord(outlen: byte, keylen: byte)
    ensures LittleEndian64(Parameters(outlen, keylen, Zeros(16), Zeros(16)), 0)
      == 0x0101_0000 + 0x100 * (keylen as int) + outlen
  {
    var p := Parameters(outlen, keylen, Zeros(16), Zeros(16));
    var low: seq<byte>, high := [outlen, keylen, 1, 1], Zeros(4);
    assert p[0..8] == low + high;
    ValAppend(256, low, high);
    ValZero(256, high);
    Val4(low);
  }

  lemma OtherWords(outlen: byte, keylen: byte, i: nat)
    requires 0 < i < 8
    ensures LittleEndian64(Parameters(outlen, keylen, Zeros(16), Zeros(16)), 8 * i) == 0
  {
    var p := Parameters(outlen, keylen, Zeros(16), Zeros(16));
    assert forall k :: 4 <= k < 64 ==> p[k] == 0;
    ValZero(256, p[8 * i..8 * i + 8]);
  }
}
