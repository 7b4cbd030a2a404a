/** cryptoStreamSalsa20Xor and cryptoStreamXor: a key stream in 64-byte blocks with a counter. */
module SalsaStream {
  import opened Bits
  import opened Modular
  import opened Positional
  import opened Salsa20

  const SIGMA: seq<byte> := [101, 120, 112, 97, 110, 100, 32, 51, 50, 45, 98, 121, 116, 101, 32, 107]

  /** The low bytes of n, least significant first. */
  function CounterBytes(n: nat, len: nat): (s: seq<byte>)
    ensures |s| == len
  {
    if len == 0 then [] else [n % 256] + CounterBytes(n / 256, len - 1)
  }

  lemma {:induction false} CounterValue(n: nat, len: nat)
    ensures Pow(256, len) > 0 && Val(256, CounterBytes(n, len)) == n % Pow(256, len)
  {
    PowPositive(256, len);
    if len > 0 {
      CounterValue(n / 256, len - 1);
      PowPositive(256, len - 1);
      var p := Pow(256, len - 1);
      assert CounterBytes(n, len)[1..] == CounterBytes(n / 256, len - 1);
      RemainderDigits(n, p);
    }
  }

  lemma RemainderDigits(n: nat, p: nat)
    requires p > 0
    ensures n % 256 + 256 * ((n / 256) % p) == n % (256 * p)
  {
    var q, r := n / 256 / p, n / 256 % p;
    assert n / 256 == p * q + r;
    assert 256 * (p * q) == (256 * p) * q;
    DivUnique(256 * p, n, q, n % 256 + 256 * r);
  }

  /** Byte i of the stream: byte i mod 64 of the block whose counter is i div 64. */
  function StreamByte(k: seq<byte>, nonce: seq<byte>, i: nat): byte
    requires |k| >= 32 && |nonce| == 8
  {
    StreamBlock(k, nonce, i / 64)[i % 64]
  }

  function StreamBlock(k: seq<byte>, nonce: seq<byte>, b: nat): (s: seq<byte>)
    requires |k| >= 32 && |nonce| == 8
    ensures |s| == 64
  {
    SalsaBlock(k, nonce + CounterBytes(b, 8), SIGMA)
  }

  lemma BumpStep(done: seq<byte>, u: int, s: seq<byte>, j: nat)
    requires |done| == j < |s| && Val(256, done) + u * Pow(256, j) == Val(256, s[..j]) + 1
    ensures var t := u + s[j];
      Val(256, done + [t % 256]) + (t / 256) * Pow(256, j + 1) == Val(256, s[..j + 1]) + 1
  {
    CarryByte(done, u, s[j], Val(256, s[..j]) + 1);
    ValPrefix(256, s, j);
  }

  /** The counter bytes 8 to 15 of z go from b to b + 1, modulo 2^64. */
  method Bump(z: array<byte>, ghost b: nat)
    requires z.Length == 16 && z[8..] == CounterBytes(b, 8)
    modifies z
    ensures z[..8] == old(z[..8]) && z[8..] == CounterBytes(b + 1, 8)
  {
    var u := 1;
    ghost var s := z[8..];
    assert Val(256, z[8..8]) == Val(256, s[..0]) == 0;
    assert Pow(256, 0) == 1;
    hide Val, Pow;
    for i := 8 to 16
      invariant z[..8] == old(z[..8]) && 0 <= u <= 1
      invariant forall k :: i <= k < 16 ==> z[k] == s[k - 8]
      invariant Val(256, z[8..i]) + u * Pow(256, i - 8) == Val(256, s[..i - 8]) + 1
    {
      ghost var done := z[8..i];
      BumpStep(done, u, s, i - 8);
      u := ToInt32(u + z[i]);
      z[i] := u % 256;
      u := u / 256;
      assert z[8..i + 1] == done + [z[i]];
    }
    assert z[8..16] == z[8..];
    BumpValue(s, z[8..], b, u);
  }

  lemma BumpValue(s: seq<byte>, t: seq<byte>, b: nat, u: int)
    requires |s| == |t| == 8 && s == CounterBytes(b, 8)
    requires Val(256, t) + u * Pow(256, 8) == Val(256, s[..8]) + 1
    ensures t == CounterBytes(b + 1, 8)
  {
    assert s[..8] == s;
    CounterValue(b, 8);
    CounterValue(b + 1, 8);
    assert Digits(256, t) && Digits(256, CounterBytes(b + 1, 8));
    ValBound(256, t);
    NextRemainder(Pow(256, 8), b, Val(256, t), u);
    hide CounterBytes;
    ValInjective(256, t, CounterBytes(b + 1, 8));
  }

  lemma NextRemainder(p: nat, b: nat, v: int, u: int)
    requires 0 <= v < p && v + u * p == b % p + 1
    ensures v == (b + 1) % p
  {
    assert b == p * (b / p) + b % p;
    assert p * (b / p - u + u) == p * (b / p - u) + u * p;
    DivUnique(p, b + 1, b / p + u, v);
  }

  /** The message byte at i, or 0 when the stream alone is asked for. */
  function MessageByte(m: array?<byte>, i: nat): byte
    requires m != null ==> i < m.Length
    reads m
  {
    if m == null then 0 else m[i]
  }

  /** XORs len bytes of the block x into c at cpos. */
  method XorInto(c: array<byte>, cpos: nat, m: array?<byte>, mpos: nat, x: array<byte>, len: nat)
    requires cpos + len <= c.Length && (m != null ==> m != c && mpos + len <= m.Length) && x != c && len <= x.Length
    modifies c
    ensures forall p :: cpos <= p < cpos + len ==> c[p] == XorByte(MessageByte(m, mpos + (p - cpos)), x[p - cpos])
    ensures forall i :: 0 <= i < c.Length && !(cpos <= i < cpos + len) ==> c[i] == old(c[i])
  {
    hide XorByte;
    for i := 0 to len
      invariant forall p :: cpos <= p < cpos + i ==> c[p] == XorByte(MessageByte(m, mpos + (p - cpos)), x[p - cpos])
      invariant forall k :: 0 <= k < c.Length && !(cpos <= k < cpos + i) ==> c[k] == old(c[k])
    {
      c[cpos + i] := XorByte(if m != null then m[mpos + i] else 0, x[i]);
    }
  }

  /** c holds the stream XOR message at positions from to until, and is otherwise as before. */
  ghost predicate Ciphered(c: seq<byte>, before: seq<byte>, cpos: nat, m: array?<byte>, mpos: nat, k: seq<byte>,
    nonce: seq<byte>, until: nat)
    requires |c| == |before| && cpos + until <= |c| && |k| >= 32 && |nonce| == 8
    requires m != null ==> mpos + until <= m.Length
    reads m
  {
    && (forall p :: cpos <= p < cpos + until ==>
          c[p] == XorByte(MessageByte(m, mpos + (p - cpos)), StreamByte(k, nonce, p - cpos)))
    && (forall i :: 0 <= i < |c| && !(cpos <= i < cpos + until) ==> c[i] == before[i])
  }

  lemma CipheredMore(c: seq<byte>, mid: seq<byte>, before: seq<byte>, cpos: nat, m: array?<byte>, mpos: nat,
    k: seq<byte>, nonce: seq<byte>, b: nat, len: nat)
    requires |c| == |mid| == |before| && cpos + 64 * b + len <= |c| && |k| >= 32 && |nonce| == 8 && len <= 64
    requires m != null ==> mpos + 64 * b + len <= m.Length
    requires Ciphered(mid, before, cpos, m, mpos, k, nonce, 64 * b)
    requires forall p :: cpos + 64 * b <= p < cpos + 64 * b + len ==>
      c[p] == XorByte(MessageByte(m, mpos + (p - cpos)), StreamBlock(k, nonce, b)[p - cpos - 64 * b])
    requires forall i :: 0 <= i < |c| && !(cpos + 64 * b <= i < cpos + 64 * b + len) ==> c[i] == mid[i]
    ensures Ciphered(c, before, cpos, m, mpos, k, nonce, 64 * b + len)
  {
    hide XorByte, StreamBlock;
    forall p | cpos <= p < cpos + 64 * b + len
      ensures c[p] == XorByte(MessageByte(m, mpos + (p - cpos)), StreamByte(k, nonce, p - cpos))
    {
      if p >= cpos + 64 * b {
        DivUnique(64, p - cpos, b, p - cpos - 64 * b);
      }
    }
  }

  method Block(x: array<byte>, z: array<byte>, k: array<byte>, sigma: array<byte>, ghost nonce: seq<byte>, ghost b: nat)
    requires x.Length == 64 && z.Length == 16 && k.Length >= 32 && sigma[..] == SIGMA && |nonce| == 8
    requires z[..8] == nonce && z[8..] == CounterBytes(b, 8)
    modifies x
    ensures x[..] == old(StreamBlock(k[..], nonce, b))
  {
    assert z[..] == nonce + CounterBytes(b, 8);
    CoreSalsa20(x, z, k, sigma);
  }

  method Sigma() returns (sigma: array<byte>)
    ensures fresh(sigma) && sigma[..] == SIGMA
  {
    sigma := new byte[16](i requires 0 <= i < 16 => SIGMA[i]);
  }

  method StartNonce(n: array<byte>, noff: nat) returns (z: array<byte>)
    requires noff + 8 <= n.Length
    ensures fresh(z) && z.Length == 16 && z[..8] == n[noff..noff + 8] && z[8..] == CounterBytes(0, 8)
  {
    z := new byte[16](_ => 0);
    for i := 0 to 8
      invariant z[..i] == n[noff..noff + i] && forall k :: 8 <= k < 16 ==> z[k] == 0
    {
      z[i] := n[noff + i];
    }
    ZeroCounter(8);
    assert z[8..] == CounterBytes(0, 8);
  }

  lemma {:induction false} ZeroCounter(len: nat)
    ensures forall i :: 0 <= i < len ==> CounterBytes(0, len)[i] == 0
  {
    if len > 0 { ZeroCounter(len - 1); }
  }

  /** Enciphers the next len bytes, which lie in one block. */
  method CipherBlock(c: array<byte>, cpos: nat, m: array?<byte>, mpos: nat, x: array<byte>, z: array<byte>,
    k: array<byte>, sigma: array<byte>, len: nat,
    ghost before: seq<byte>, ghost cpos0: nat, ghost mpos0: nat, ghost nonce: seq<byte>, ghost b: nat)
    requires x.Length == 64 && z.Length == 16 && k.Length >= 32 && sigma[..] == SIGMA && |nonce| == 8
    requires z[..8] == nonce && z[8..] == CounterBytes(b, 8)
    requires x !in {c, z, k, sigma} && (m != null ==> m !in {c, x}) && c !in {z, k, sigma}
    requires len <= 64 && cpos == cpos0 + 64 * b && cpos + len <= c.Length && c.Length == |before|
    requires m != null ==> mpos == mpos0 + 64 * b && mpos + len <= m.Length
    requires Ciphered(c[..], before, cpos0, m, mpos0, k[..], nonce, 64 * b)
    modifies c, x
    ensures Ciphered(c[..], before, cpos0, m, mpos0, k[..], nonce, 64 * b + len)
  {
    hide CounterBytes, StreamBlock, Ciphered, XorByte;
    ghost var ks, mid := k[..], c[..];
    Block(x, z, k, sigma, nonce, b);
    assert x[..] == StreamBlock(ks, nonce, b);
    XorInto(c, cpos, m, mpos, x, len);
    CipheredMore(c[..], mid, before, cpos0, m, mpos0, ks, nonce, b, len);
  }

  /** cryptoStreamSalsa20Xor: c gets the message XOR the stream, for every length b0. */
  method CryptoStreamSalsa20Xor(c: array<byte>, cpos0: nat, m: array?<byte>, mpos0: nat, b0: nat,
    n: array<byte>, noff: nat, k: array<byte>)
    requires cpos0 + b0 <= c.Length && c !in {n, k} && (m != null ==> m != c && mpos0 + b0 <= m.Length)
    requires noff + 8 <= n.Length && k.Length >= 32
    modifies c
    ensures Ciphered(c[..], old(c[..]), cpos0, m, mpos0, k[..], n[noff..noff + 8], b0)
  {
    hide CounterBytes, Ciphered;
    ghost var before, nonce := c[..], n[noff..noff + 8];
    CipheredNone(c[..], cpos0, m, mpos0, k[..], nonce);
    if b0 == 0 {
      return;
    }
    var cpos, mpos, b := cpos0, mpos0, b0;
    var z := StartNonce(n, noff);
    var x := new byte[64](_ => 0);
    var sigma := Sigma();
    ghost var blocks := 0;
    while b >= 64
      invariant cpos == cpos0 + 64 * blocks && b == b0 - 64 * blocks && (m != null ==> mpos == mpos0 + 64 * blocks)
      invariant sigma[..] == SIGMA && z[..8] == nonce && z[8..] == CounterBytes(blocks, 8)
      invariant Ciphered(c[..], before, cpos0, m, mpos0, k[..], nonce, 64 * blocks)
    {
      CipherBlock(c, cpos, m, mpos, x, z, k, sigma, 64, before, cpos0, mpos0, nonce, blocks);
      Bump(z, blocks);
      b := b - 64;
      cpos := cpos + 64;
      if m != null {
        mpos := mpos + 64;
      }
      blocks := blocks + 1;
    }
    if b > 0 {
      CipherBlock(c, cpos, m, mpos, x, z, k, sigma, b, before, cpos0, mpos0, nonce, blocks);
    }
  }

  lemma CipheredNone(c: seq<byte>, cpos: nat, m: array?<byte>, mpos: nat, k: seq<byte>, nonce: seq<byte>)
    requires cpos <= |c| && |k| >= 32 && |nonce| == 8 && (m != null ==> mpos <= m.Length)
    ensures Ciphered(c, c, cpos, m, mpos, k, nonce, 0)
  {}
}
