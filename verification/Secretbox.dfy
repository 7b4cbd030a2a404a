/** secretbox and secretboxOpen: XSalsa20 and Poly1305 over one shared buffer. */
module Secretbox {
  import opened Bits
  import opened Positional
  import Poly1305
  import opened Salsa20
  import opened SalsaStream
  import opened Results

  const KEY_LENGTH := 32
  const NONCE_LENGTH := 24
  const ZERO_LENGTH := 32
  const BOX_ZERO_LENGTH := 16

  // ---- The specification ----

  predicate Sizes(k: seq<byte>, n: seq<byte>) {
    |k| == KEY_LENGTH && |n| == NONCE_LENGTH
  }

  /** Byte i of the XSalsa20 stream. */
  function XStream(k: seq<byte>, n: seq<byte>, i: nat): byte
    requires Sizes(k, n)
  {
    StreamByte(HSalsa(k, n, SIGMA), n[16..24], i)
  }

  /** The one-time key is the first 32 bytes of the stream. */
  function MacKey(k: seq<byte>, n: seq<byte>): (s: seq<byte>)
    requires Sizes(k, n)
    ensures |s| == 32
  {
    seq(32, (i: nat) => XStream(k, n, i))
  }

  /** The message XOR the stream from byte 32 on. */
  function Cipher(k: seq<byte>, n: seq<byte>, m: seq<byte>): (s: seq<byte>)
    requires Sizes(k, n)
    ensures |s| == |m|
  {
    hide XorByte, XStream;
    seq(|m|, (i: nat) requires i < |m| => XorByte(m[i], XStream(k, n, 32 + i)))
  }

  ghost function TagBytes(k: seq<byte>, n: seq<byte>, c: seq<byte>): (s: seq<byte>)
    requires Sizes(k, n)
    ensures |s| == 16
  {
    CounterBytes(Poly1305.Tag(c, MacKey(k, n)), 16)
  }

  ghost function Sealed(k: seq<byte>, n: seq<byte>, m: seq<byte>): seq<byte>
    requires Sizes(k, n)
  {
    TagBytes(k, n, Cipher(k, n, m)) + Cipher(k, n, m)
  }

  datatype LengthError = BadKeySize | BadNonceSize

  ghost function Opened(k: seq<byte>, n: seq<byte>, box: seq<byte>): Option<seq<byte>>
    requires Sizes(k, n)
  {
    if |box| < 16 || box[..16] != TagBytes(k, n, box[16..]) then None
    else Some(Cipher(k, n, box[16..]))
  }

  lemma XorByteCancel(x: byte, y: byte)
    ensures XorByte(XorByte(x, y), y) == x
    ensures XorByte(0, x) == x
  {
    XorComm(x, y);
    XorCancel(y, x);
    XorComm(XorByte(x, y), y);
    XorZero(x);
    XorComm(0, x);
  }

  lemma CipherTwice(k: seq<byte>, n: seq<byte>, m: seq<byte>)
    requires Sizes(k, n)
    ensures Cipher(k, n, Cipher(k, n, m)) == m
  {
    hide XorByte, XStream;
    forall i | 0 <= i < |m| ensures Cipher(k, n, Cipher(k, n, m))[i] == m[i] {
      XorByteCancel(m[i], XStream(k, n, 32 + i));
    }
  }

  /** Opening a sealed message gives it back. */
  lemma SealedOpens(k: seq<byte>, n: seq<byte>, m: seq<byte>)
    requires Sizes(k, n)
    ensures Opened(k, n, Sealed(k, n, m)) == Some(m)
  {
    OpensToSealed(k, n, Sealed(k, n, m), m);
  }

  /** A box opens to m exactly when it is the box that sealing m makes. */
  lemma OpensToSealed(k: seq<byte>, n: seq<byte>, box: seq<byte>, m: seq<byte>)
    requires Sizes(k, n)
    ensures Opened(k, n, box) == Some(m) <==> box == Sealed(k, n, m)
  {
    CipherTwice(k, n, m);
    hide Cipher, TagBytes;
    var c := Cipher(k, n, m);
    if box == Sealed(k, n, m) {
      assert box[..16] == TagBytes(k, n, c) && box[16..] == c;
    }
    if Opened(k, n, box) == Some(m) {
      CipherTwice(k, n, box[16..]);
      assert box == box[..16] + box[16..];
    }
  }

  // ---- The source ----

  method Vn(x: array<byte>, xi: nat, y: array<byte>, yi: nat, n: nat) returns (r: int)
    requires xi + n <= x.Length && yi + n <= y.Length
    ensures r == if x[xi..xi + n] == y[yi..yi + n] then 0 else -1
  {
    var d := 0;
    PowersOfTwo();
    for i := 0 to n
      invariant 0 <= d < 256
      invariant d == 0 <==> x[xi..xi + i] == y[yi..yi + i]
    {
      OrFacts(d, XorByte(x[xi + i], y[yi + i]), 8);
      XorIsZero(x[xi + i], y[yi + i]);
      assert x[xi..xi + i + 1] == x[xi..xi + i] + [x[xi + i]];
      assert y[yi..yi + i + 1] == y[yi..yi + i] + [y[yi + i]];
      d := Or(d, XorByte(x[xi + i], y[yi + i]));
    }
    r := ((d - 1) % TWO32) / 256 % 2 - 1;
  }

  method CryptoStreamXor(c: array<byte>, m: array?<byte>, d: nat, n: array<byte>, k: array<byte>)
    requires d <= c.Length && c !in {n, k} && (m != null ==> m != c && d <= m.Length)
    requires Sizes(k[..], n[..])
    modifies c
    ensures forall i :: 0 <= i < d ==> c[i] == XorByte(MessageByte(m, i), XStream(k[..], n[..], i))
    ensures forall i :: d <= i < c.Length ==> c[i] == old(c[i])
  {
    hide XorByte, HSalsa, StreamByte, XStream, Ciphered, MessageByte;
    var s := new byte[32](_ => 0);
    var sigma := Sigma();
    ghost var ns, ks, before := n[..], k[..], c[..];
    CoreHsalsa20(s, n, k, sigma);
    assert s[..] == HSalsa(ks, ns, SIGMA) && n[16..24] == ns[16..24];
    CryptoStreamSalsa20Xor(c, 0, m, 0, d, n, 16, s);
    StreamedBytes(c[..], before, m, s[..], n[16..24], ks, ns, d);
  }

  /** What the inner cipher has written under the derived key is the extended stream. */
  lemma StreamedBytes(c: seq<byte>, before: seq<byte>, m: array?<byte>, key: seq<byte>, nonce: seq<byte>,
    k: seq<byte>, n: seq<byte>, d: nat)
    requires Sizes(k, n) && key == HSalsa(k, n, SIGMA) && nonce == n[16..24] && |key| == 32
    requires d <= |c| == |before| && (m != null ==> d <= m.Length)
    requires Ciphered(c, before, 0, m, 0, key, nonce, d)
    ensures forall i :: 0 <= i < d ==> c[i] == XorByte(MessageByte(m, i), XStream(k, n, i))
    ensures forall i :: d <= i < |c| ==> c[i] == before[i]
  {
    hide XorByte, HSalsa, StreamByte, MessageByte;
    forall i | 0 <= i < d ensures c[i] == XorByte(MessageByte(m, i), XStream(k, n, i)) {
      assert c[i] == XorByte(MessageByte(m, 0 + (i - 0)), StreamByte(key, nonce, i - 0));
    }
  }

  /** Sixteen bytes with the value of a tag are that tag's bytes. */
  lemma TagUnique(t: seq<byte>, v: nat)
    requires |t| == 16 && Poly1305.Num(t) == v
    ensures t == CounterBytes(v, 16)
  {
    CounterValue(v, 16);
    assert Digits(256, t) && Digits(256, CounterBytes(v, 16));
    ValBound(256, t);
    Modular.DivUnique(Pow(256, 16), v, 0, v);
    ValInjective(256, t, CounterBytes(v, 16));
  }

  method Zero(c: array<byte>, n: nat)
    requires n <= c.Length
    modifies c
    ensures c[..n] == seq(n, i => 0) && c[n..] == old(c[n..])
  {
    for i := 0 to n
      invariant forall j :: 0 <= j < i ==> c[j] == 0
      invariant forall j :: i <= j < c.Length ==> c[j] == old(c[j])
    {
      c[i] := 0;
    }
  }

  /** cryptoSecretbox: one buffer holds the MAC key, then the tag, and the ciphertext behind them. */
  method CryptoSecretbox(c: array<byte>, m: array<byte>, d: nat, n: array<byte>, k: array<byte>) returns (r: int)
    requires c.Length == m.Length == d && c !in {m, n, k} && Sizes(k[..], n[..])
    requires forall i :: 0 <= i < 32 && i < d ==> m[i] == 0
    modifies c
    ensures r == if d < 32 then -1 else 0
    ensures d < 32 ==> c[..] == old(c[..])
    ensures d >= 32 ==> c[16..] == Sealed(k[..], n[..], m[32..]) && c[..16] == seq(16, i => 0)
  {
    if d < 32 {
      return -1;
    }
    hide *;
    Encipher(c, m, n, k);
    Authenticate(c, n, k, m[32..]);
    return 0;
  }

  method Encipher(c: array<byte>, m: array<byte>, n: array<byte>, k: array<byte>)
    requires c.Length == m.Length >= 32 && c !in {m, n, k} && Sizes(k[..], n[..])
    requires forall i :: 0 <= i < 32 ==> m[i] == 0
    modifies c
    ensures c[..32] == MacKey(k[..], n[..]) && c[32..] == Cipher(k[..], n[..], m[32..])
  {
    hide XorByte, XStream, MacKey, Cipher;
    CryptoStreamXor(c, m, c.Length, n, k);
    KeyInPlace(k[..], n[..], m[..], c[..]);
    assert c[..][..32] == c[..32] && c[..][32..] == c[32..] && m[..][32..] == m[32..];
  }

  /** The tag overwrites the second half of the key it was made with; the first half is wiped. */
  method Authenticate(c: array<byte>, n: array<byte>, k: array<byte>, ghost msg: seq<byte>)
    requires c.Length >= 32 && c !in {n, k} && Sizes(k[..], n[..])
    requires c[..32] == MacKey(k[..], n[..]) && c[32..] == Cipher(k[..], n[..], msg)
    modifies c
    ensures c[16..] == Sealed(k[..], n[..], msg) && c[..16] == seq(16, i => 0)
  {
    ghost var ks, ns, before := k[..], n[..], c[..];
    hide *;
    Poly1305.CryptoOnetimeauth(c, 16, c, 32, c.Length - 32, c);
    SealedParts(ks, ns, msg, before, c[..]);
    assert c[16..] == c[..][16..];
    Zero(c, 16);
  }

  lemma SealedParts(k: seq<byte>, n: seq<byte>, msg: seq<byte>, c: seq<byte>, c': seq<byte>)
    requires Sizes(k, n) && |c| == |c'| >= 32
    requires c[..32] == MacKey(k, n) && c[32..] == Cipher(k, n, msg)
    requires Poly1305.Num(c'[16..32]) == Poly1305.Tag(c[32..|c|], c[..32])
    requires forall i :: 0 <= i < |c| && !(16 <= i < 32) ==> c'[i] == c[i]
    ensures c'[16..] == Sealed(k, n, msg)
  {
    hide MacKey, Cipher, Poly1305.Tag, CounterBytes;
    assert c[32..|c|] == c[32..];
    TagUnique(c'[16..32], Poly1305.Tag(c[32..], c[..32]));
    assert c'[32..] == c[32..];
    assert c'[16..] == c'[16..32] + c'[32..];
  }

  /** XORing the zero padding leaves the MAC key itself in front of the ciphertext. */
  lemma KeyInPlace(k: seq<byte>, n: seq<byte>, m: seq<byte>, c: seq<byte>)
    requires Sizes(k, n) && |m| == |c| >= 32
    requires forall i :: 0 <= i < 32 ==> m[i] == 0
    requires forall i :: 0 <= i < |c| ==> c[i] == XorByte(m[i], XStream(k, n, i))
    ensures c[..32] == MacKey(k, n)
    ensures c[32..] == Cipher(k, n, m[32..])
  {
    hide XorByte, XStream;
    forall i | 0 <= i < 32 ensures c[i] == XStream(k, n, i) {
      XorByteCancel(XStream(k, n, i), 0);
    }
  }

  method CryptoOnetimeauthVerify(h: array<byte>, hpos: nat, m: array<byte>, mpos: nat, n: nat, k: array<byte>)
    returns (r: int)
    requires hpos + 16 <= h.Length && mpos + n <= m.Length && k.Length >= 32
    ensures r == if h[hpos..hpos + 16] == CounterBytes(Poly1305.Tag(m[mpos..mpos + n], k[..32]), 16) then 0 else -1
  {
    var x := new byte[16](_ => 0);
    ghost var t := Poly1305.Tag(m[mpos..mpos + n], k[..32]);
    hide Poly1305.Tag;
    Poly1305.CryptoOnetimeauth(x, 0, m, mpos, n, k);
    TagUnique(x[0..16], t);
    r := Vn(h, hpos, x, 0, 16);
  }

  method CryptoSecretboxOpen(m: array<byte>, c: array<byte>, d: nat, n: array<byte>, k: array<byte>) returns (r: int)
    requires c.Length == m.Length == d && m !in {c, n, k} && Sizes(k[..], n[..])
    modifies m
    ensures r == 0 || r == -1
    ensures r == 0 <==> d >= 32 && Opened(k[..], n[..], c[16..]).Some?
    ensures r == 0 ==> Opened(k[..], n[..], c[16..]) == Some(m[32..]) && m[..32] == seq(32, i => 0)
    ensures r == -1 ==> m[..] == old(m[..])
  {
    if d < 32 {
      return -1;
    }
    hide TagBytes, Cipher;
    assert c[16..][..16] == c[16..32] && c[16..][16..] == c[32..];
    var x := new byte[32](_ => 0);
    var v := Check(x, c, n, k);
    if v != 0 {
      return -1;
    }
    Decipher(m, c, n, k);
    return 0;
  }

  /** Recomputes the tag with a fresh key stream and compares it with the stored one. */
  method Check(x: array<byte>, c: array<byte>, n: array<byte>, k: array<byte>) returns (v: int)
    requires x.Length == 32 && c.Length >= 32 && x !in {c, n, k} && Sizes(k[..], n[..])
    modifies x
    ensures v == if c[16..32] == TagBytes(k[..], n[..], c[32..]) then 0 else -1
  {
    hide XorByte, XStream, MacKey, Poly1305.Tag;
    CryptoStreamXor(x, null, 32, n, k);
    KeyAlone(k[..], n[..], x[..]);
    assert x[..32] == x[..] && c[32..32 + (c.Length - 32)] == c[32..] && c[16..16 + 16] == c[16..32];
    v := CryptoOnetimeauthVerify(c, 16, c, 32, c.Length - 32, x);
  }

  method Decipher(m: array<byte>, c: array<byte>, n: array<byte>, k: array<byte>)
    requires c.Length == m.Length >= 32 && m !in {c, n, k} && Sizes(k[..], n[..])
    modifies m
    ensures m[32..] == Cipher(k[..], n[..], c[32..]) && m[..32] == seq(32, i => 0)
  {
    hide XorByte, XStream, Cipher;
    CryptoStreamXor(m, c, c.Length, n, k);
    OpenInPlace(k[..], n[..], c[..], m[..]);
    assert m[32..] == m[..][32..] && c[..][32..] == c[32..];
    Zero(m, 32);
  }

  lemma KeyAlone(k: seq<byte>, n: seq<byte>, x: seq<byte>)
    requires Sizes(k, n) && |x| == 32
    requires forall i :: 0 <= i < 32 ==> x[i] == XorByte(0, XStream(k, n, i))
    ensures x == MacKey(k, n)
  {
    hide XorByte, XStream;
    forall i | 0 <= i < 32 ensures x[i] == XStream(k, n, i) {
      XorByteCancel(XStream(k, n, i), 0);
    }
  }

  lemma OpenInPlace(k: seq<byte>, n: seq<byte>, c: seq<byte>, m: seq<byte>)
    requires Sizes(k, n) && |m| == |c| >= 32
    requires forall i :: 0 <= i < |c| ==> m[i] == XorByte(c[i], XStream(k, n, i))
    ensures m[32..] == Cipher(k, n, c[32..])
  {
    hide XorByte, XStream;
  }

  method CheckLengths(k: array<byte>, n: array<byte>) returns (r: Result<(), LengthError>)
    ensures r == if k.Length != KEY_LENGTH then Err(BadKeySize)
                 else if n.Length != NONCE_LENGTH then Err(BadNonceSize) else Ok(())
  {
    if k.Length != KEY_LENGTH {
      return Err(BadKeySize);
    }
    if n.Length != NONCE_LENGTH {
      return Err(BadNonceSize);
    }
    return Ok(());
  }

  /** A fresh buffer with pad zero bytes in front of the given bytes. */
  method Padded(msg: array<byte>, pad: nat) returns (m: array<byte>)
    ensures fresh(m) && m.Length == pad + msg.Length && m[pad..] == msg[..]
    ensures forall i :: 0 <= i < pad ==> m[i] == 0
  {
    m := new byte[pad + msg.Length](_ => 0);
    for i := 0 to msg.Length
      invariant forall j :: 0 <= j < pad ==> m[j] == 0
      invariant forall j :: 0 <= j < i ==> m[pad + j] == msg[j]
    {
      m[i + pad] := msg[i];
    }
  }

  /** secretbox: the sealed message, or the length that was wrong. */
  method SecretboxSeal(msg: array<byte>, nonce: array<byte>, key: array<byte>)
    returns (r: Result<seq<byte>, LengthError>)
    ensures r.Ok? <==> key.Length == KEY_LENGTH && nonce.Length == NONCE_LENGTH
    ensures r.Ok? ==> r.value == Sealed(key[..], nonce[..], msg[..])
  {
    var check := CheckLengths(key, nonce);
    if check.Err? {
      return Err(check.error);
    }
    var m := Padded(msg, ZERO_LENGTH);
    var c := new byte[m.Length](_ => 0);
    var _ := CryptoSecretbox(c, m, m.Length, nonce, key);
    return Ok(c[BOX_ZERO_LENGTH..]);
  }

  /** secretboxOpen: null exactly for a box that is too short or whose stored tag is not the recomputed one. */
  method SecretboxOpen(box: array<byte>, nonce: array<byte>, key: array<byte>)
    returns (r: Result<Option<seq<byte>>, LengthError>)
    ensures r.Ok? <==> key.Length == KEY_LENGTH && nonce.Length == NONCE_LENGTH
    ensures r.Ok? ==> r.value == Opened(key[..], nonce[..], box[..])
  {
    var check := CheckLengths(key, nonce);
    if check.Err? {
      return Err(check.error);
    }
    var c := Padded(box, BOX_ZERO_LENGTH);
    var m := new byte[c.Length](_ => 0);
    if c.Length < 32 {
      return Ok(None);
    }
    hide Cipher, TagBytes;
    var v := CryptoSecretboxOpen(m, c, c.Length, nonce, key);
    if v != 0 {
      return Ok(None);
    }
    return Ok(Some(m[ZERO_LENGTH..]));
  }
}
