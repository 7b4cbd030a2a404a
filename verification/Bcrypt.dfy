/** The Blowfish block function of bcrypt.ts, on signed 32-bit numbers as JavaScript computes it. */
module Bcrypt {
  import opened Modular
  import opened Positional
  import opened Bits
  import opened Words64

  const ROUNDS: nat := 16

  type I32 = x: int | -0x8000_0000 <= x < 0x8000_0000

  type Tables = s: seq<U32> | |s| == 1024 witness seq(1024, i => 0)

  type Keys = p: seq<U32> | |p| == 18 witness seq(18, i => 0)

  lemma {:induction false} XorSignedBound(x: int, y: int, n: nat)
    requires 0 <= x + Pow(2, n) < 2 * Pow(2, n) && 0 <= y + Pow(2, n) < 2 * Pow(2, n)
    ensures 0 <= Xor(x, y) + Pow(2, n) < 2 * Pow(2, n)
    decreases n
  {
    if n > 0 { XorSignedBound(x / 2, y / 2, n - 1); }
  }

  /** The operator `^`: both sides become signed 32-bit numbers, and so is the result. */
  function Xor32(x: int, y: int): I32 {
    PowersOfTwo();
    XorSignedBound(ToInt32(x), ToInt32(y), 31);
    Xor(ToInt32(x), ToInt32(y))
  }

  lemma Xor32Cancel(x: I32, y: int)
    ensures Xor32(Xor32(x, y), y) == x
  {
    XorComm(x, ToInt32(y));
    XorComm(Xor32(x, y), ToInt32(y));
    XorCancel(ToInt32(y), x);
  }

  lemma Xor32Swap(x: I32, y: int, z: int)
    ensures Xor32(Xor32(x, y), z) == Xor32(Xor32(x, z), y)
  {
    XorAssoc(x, ToInt32(y), ToInt32(z));
    XorAssoc(x, ToInt32(z), ToInt32(y));
    XorComm(ToInt32(y), ToInt32(z));
  }

  lemma {:induction false} XorAssoc(x: int, y: int, z: int)
    ensures Xor(Xor(x, y), z) == Xor(x, Xor(y, z))
    decreases Abs(x) + Abs(y) + Abs(z)
  {
    if IsSign(x) && IsSign(y) && IsSign(z) {
      SignsAssoc(x, y, z);
    } else {
      hide Xor;
      XorAssoc(x / 2, y / 2, z / 2);
      AssocStep(x, y, z);
    }
  }

  lemma AssocStep(x: int, y: int, z: int)
    requires Xor(Xor(x / 2, y / 2), z / 2) == Xor(x / 2, Xor(y / 2, z / 2))
    ensures Xor(Xor(x, y), z) == Xor(x, Xor(y, z))
  {
    hide *;
    var a, b := Xor(x, y), Xor(y, z);
    XorStep(x, y);
    XorStep(y, z);
    XorStep(a, z);
    XorStep(x, b);
    Parities(x, y, z, a, b);
    SameHalves(Xor(a, z), Xor(x, b));
  }

  lemma Parities(x: int, y: int, z: int, a: int, b: int)
    requires a % 2 == (x + y) % 2 && b % 2 == (y + z) % 2
    ensures (a + z) % 2 == (x + b) % 2
  {
  }

  lemma SignsAssoc(x: int, y: int, z: int)
    requires IsSign(x) && IsSign(y) && IsSign(z)
    ensures Xor(Xor(x, y), z) == Xor(x, Xor(y, z))
  {
  }

  /** The function F of Blowfish on 32-bit words, every sum reduced. */
  function BlowfishF(S: Tables, u: U32): U32 {
    var n := ((S[u / 0x100_0000] as int) + S[256 + u / 0x1_0000 % 256]) % TWO32;
    (XorWord(n, S[512 + u / 256 % 256]) as int + S[768 + u % 256]) % TWO32
  }

  /** What is added to the residue of a word to make it signed, in units of 2^32. */
  function SignPart(x: int): int {
    if ToInt32(x) < 0 then -1 else 0
  }

  lemma SignedWord(x: int)
    ensures ToInt32(x) == x % TWO32 + TWO32 * SignPart(x)
  {
  }

  lemma Xor32Word(x: int, y: int)
    ensures Xor32(x, y) % TWO32 == XorWord(x % TWO32, y % TWO32)
  {
    hide Xor, Pow, ToInt32, SignPart;
    PowersOfTwo();
    var h, k := SignPart(x), SignPart(y);
    SignedWord(x);
    SignedWord(y);
    XorSplit(32, x % TWO32, y % TWO32, h, k);
    var z := XorWord(x % TWO32, y % TWO32);
    assert Xor32(x, y) as int == z as int + TWO32 * Xor(h, k);
    DivUnique(TWO32, Xor32(x, y), Xor(h, k), z);
  }

  lemma TableWords(a: U32, b: U32, c: U32, d: U32)
    ensures (Xor32((a as int) + b, c) + d) % TWO32 == (XorWord(((a as int) + b) % TWO32, c) as int + d) % TWO32
  {
    hide Xor32, XorWord;
    Xor32Word((a as int) + b, c);
  }

  lemma SameInt32(x: int, y: int)
    requires x % TWO32 == y % TWO32
    ensures ToInt32(x) == ToInt32(y)
  {
  }

  lemma Xor32Same(r: I32, x: int, y: int)
    requires ToInt32(x) == ToInt32(y)
    ensures Xor32(r, x) == Xor32(r, y)
  {
  }

  /** Only the residue of the right operand matters. */
  lemma SameRound(x: int, y: int)
    requires x % TWO32 == y % TWO32
    ensures forall r: I32 :: Xor32(r, x) == Xor32(r, y)
  {
    hide Xor32;
    SameInt32(x, y);
    forall r: I32 ensures Xor32(r, x) == Xor32(r, y) {
      Xor32Same(r, x, y);
    }
  }

  /** The two halves after n rounds. */
  function Rounds(P: Keys, S: Tables, left: I32, right: I32, n: nat): (I32, I32)
    requires n <= ROUNDS
  {
    if n == 0 then (left, right)
    else
      var (l, r) := Rounds(P, S, left, right, n - 1);
      var l := Xor32(l, P[n - 1]);
      (Xor32(r, BlowfishF(S, l % TWO32)), l)
  }

  function CryptBlock(P: Keys, S: Tables, left: I32, right: I32): (I32, I32) {
    var (l, r) := Rounds(P, S, left, right, ROUNDS);
    (Xor32(r, P[17]), Xor32(l, P[16]))
  }

  /** Blowfish as it is defined, on words without a sign. */
  function WordRounds(P: Keys, S: Tables, left: U32, right: U32, n: nat): (U32, U32)
    requires n <= ROUNDS
  {
    if n == 0 then (left, right)
    else
      var (l, r) := WordRounds(P, S, left, right, n - 1);
      var l := XorWord(l, P[n - 1]);
      (XorWord(r, BlowfishF(S, l)), l)
  }

  function Blowfish(P: Keys, S: Tables, left: U32, right: U32): (U32, U32) {
    var (l, r) := WordRounds(P, S, left, right, ROUNDS);
    (XorWord(r, P[17]), XorWord(l, P[16]))
  }

  function Unsigned(pair: (I32, I32)): (U32, U32) {
    (pair.0 % TWO32, pair.1 % TWO32)
  }

  lemma {:induction false} RoundsUnsigned(P: Keys, S: Tables, left: I32, right: I32, n: nat)
    requires n <= ROUNDS
    ensures Unsigned(Rounds(P, S, left, right, n)) == WordRounds(P, S, left % TWO32, right % TWO32, n)
  {
    hide Xor32, XorWord, BlowfishF;
    if n > 0 {
      RoundsUnsigned(P, S, left, right, n - 1);
      var (l, r) := Rounds(P, S, left, right, n - 1);
      Xor32Word(l, P[n - 1]);
      Xor32Word(r, BlowfishF(S, Xor32(l, P[n - 1]) % TWO32));
    }
  }

  /** Numbers with a sign do not change the cipher. */
  lemma CryptIsBlowfish(P: Keys, S: Tables, left: I32, right: I32)
    ensures Unsigned(CryptBlock(P, S, left, right)) == Blowfish(P, S, left % TWO32, right % TWO32)
  {
    hide Xor32, XorWord, BlowfishF, Rounds, WordRounds;
    RoundsUnsigned(P, S, left, right, ROUNDS);
    var (l, r) := Rounds(P, S, left, right, ROUNDS);
    Xor32Word(r, P[17]);
    Xor32Word(l, P[16]);
  }

  function Reversed(P: Keys): Keys {
    seq(18, i requires 0 <= i < 18 => P[17 - i])
  }

  /** One round, with its key and the table function's value on the new half. */
  lemma RoundsStep(P: Keys, S: Tables, left: I32, right: I32, n: nat)
    requires n < ROUNDS
    ensures var (l, r) := Rounds(P, S, left, right, n);
      var x := Xor32(l, P[n]);
      Rounds(P, S, left, right, n + 1) == (Xor32(r, BlowfishF(S, x % TWO32)), x)
  {
  }

  /** A key and a table value put on in between come off again. */
  lemma Uncover(r: I32, f: int, p: int)
    ensures Xor32(Xor32(Xor32(r, f), p), f) == Xor32(r, p)
  {
    hide *;
    Xor32Swap(r, f, p);
    Xor32Cancel(Xor32(r, p), f);
  }

  /** The same rounds with the keys in reverse order go back through the states of the first pass. */
  lemma {:induction false} RoundsBack(P: Keys, S: Tables, left: I32, right: I32, k: nat)
    requires k <= ROUNDS
    ensures var (x, y) := CryptBlock(P, S, left, right);
      var (l, r) := Rounds(P, S, left, right, ROUNDS - k);
      Rounds(Reversed(P), S, x, y, k) == (Xor32(r, P[17 - k]), Xor32(l, P[16 - k]))
  {
    hide Xor32, BlowfishF;
    if k > 0 {
      RoundsBack(P, S, left, right, k - 1);
      hide Rounds;
      var n := ROUNDS - k;
      var (x, y) := CryptBlock(P, S, left, right);
      var (l, r) := Rounds(P, S, left, right, n);
      var lx := Xor32(l, P[n]);
      RoundsStep(P, S, left, right, n);
      RoundsStep(Reversed(P), S, x, y, k - 1);
      assert Reversed(P)[k - 1] == P[18 - k];
      Xor32Cancel(lx, P[18 - k]);
      Uncover(r, BlowfishF(S, lx % TWO32), P[n + 1]);
    }
  }

  /** With the keys reversed the block function undoes itself, whatever the keys and the tables are. */
  lemma CryptInverse(P: Keys, S: Tables, left: I32, right: I32)
    ensures var (x, y) := CryptBlock(P, S, left, right);
      CryptBlock(Reversed(P), S, x, y) == (left, right)
  {
    var (x, y) := CryptBlock(P, S, left, right);
    RoundsBack(P, S, left, right, ROUNDS);
    Xor32Cancel(left, P[0]);
    Xor32Cancel(right, P[1]);
  }

  /** Different blocks have different results, and every block is a result. */
  lemma CryptBijective(P: Keys, S: Tables, left: I32, right: I32, left': I32, right': I32)
    ensures CryptBlock(P, S, left, right) == CryptBlock(P, S, left', right') ==> left == left' && right == right'
    ensures var (x, y) := CryptBlock(Reversed(P), S, left, right); CryptBlock(P, S, x, y) == (left, right)
  {
    CryptInverse(P, S, left, right);
    CryptInverse(P, S, left', right');
    CryptInverse(Reversed(P), S, left, right);
    assert Reversed(Reversed(P)) == P;
  }

  // ---- What the tables and the keys are used for ----

  /** Table j of four is zero. */
  predicate Blank(S: Tables, j: nat)
    requires j < 4
  {
    forall i :: 256 * j <= i < 256 * j + 256 ==> S[i] == 0
  }

  /** F looks up the most significant byte in the first table, and so on down to the last. */
  lemma FPicks(S: Tables, a: byte, b: byte, c: byte, d: byte)
    ensures var u := 0x100_0000 * (a as int) + 0x1_0000 * (b as int) + 256 * (c as int) + d as int;
      && (Blank(S, 1) && Blank(S, 2) && Blank(S, 3) ==> BlowfishF(S, u) == S[a])
      && (Blank(S, 0) && Blank(S, 2) && Blank(S, 3) ==> BlowfishF(S, u) == S[256 + b])
      && (Blank(S, 0) && Blank(S, 1) && Blank(S, 3) ==> BlowfishF(S, u) == S[512 + c])
      && (Blank(S, 0) && Blank(S, 1) && Blank(S, 2) ==> BlowfishF(S, u) == S[768 + d])
  {
    hide XorWord, BlowfishF;
    var u := 0x100_0000 * (a as int) + 0x1_0000 * (b as int) + 256 * (c as int) + d as int;
    FBytes(S, a, b, c, d, u);
    WordXorZero(S[a]);
    WordXorZero(S[256 + b]);
    WordXorZero(S[512 + c]);
    WordXorZero(0);
  }

  /** The four values: a sum, an exclusive or, and another sum. */
  lemma FBytes(S: Tables, a: byte, b: byte, c: byte, d: byte, u: U32)
    requires u as int == 0x100_0000 * (a as int) + 0x1_0000 * (b as int) + 256 * (c as int) + d as int
    ensures BlowfishF(S, u)
      == (XorWord(((S[a] as int) + S[256 + b]) % TWO32, S[512 + c]) as int + S[768 + d]) % TWO32
  {
    hide XorWord;
    DivUnique(0x100_0000, u, a, 0x1_0000 * (b as int) + 256 * (c as int) + d as int);
    DivUnique(0x1_0000, u, 256 * (a as int) + b as int, 256 * (c as int) + d as int);
    DivUnique(256, u, 0x1_0000 * (a as int) + 256 * (b as int) + c as int, d);
    DivUnique(256, 256 * (a as int) + b as int, a, b);
    DivUnique(256, 0x1_0000 * (a as int) + 256 * (b as int) + c as int, 256 * (a as int) + b as int, c);
  }

  lemma WordXorZero(x: U32)
    ensures XorWord(x, 0) == x && XorWord(0, x) == x
  {
    XorZero(x);
    XorComm(0, x);
  }

  /** Every second key from the given one on, n of them, xored into x. */
  function Keyed(P: Keys, from: nat, n: nat, x: U32): U32
    requires from + 2 * n <= 19
  {
    if n == 0 then x else XorWord(Keyed(P, from, n - 1, x), P[from + 2 * (n - 1)])
  }

  /** With blank tables only the keys are left: the even ones go to the left half, the odd ones to the
      right half, in their order, and the halves are exchanged in the end. */
  lemma KeysInOrder(P: Keys, S: Tables, left: U32, right: U32)
    requires Blank(S, 0) && Blank(S, 1) && Blank(S, 2) && Blank(S, 3)
    ensures Blowfish(P, S, left, right) == (Keyed(P, 1, 9, right), Keyed(P, 0, 9, left))
  {
    hide WordRounds, XorWord;
    BlankRounds(P, S, left, right, 8);
  }

  lemma {:induction false} BlankRounds(P: Keys, S: Tables, left: U32, right: U32, n: nat)
    requires Blank(S, 0) && Blank(S, 1) && Blank(S, 2) && Blank(S, 3) && n <= 8
    ensures WordRounds(P, S, left, right, 2 * n) == (Keyed(P, 0, n, left), Keyed(P, 1, n, right))
  {
    hide XorWord, BlowfishF;
    if n > 0 {
      BlankRounds(P, S, left, right, n - 1);
      var (l, r) := WordRounds(P, S, left, right, 2 * n - 2);
      var l1 := XorWord(l, P[2 * n - 2]);
      BlankF(S, l1);
      WordXorZero(r);
      var r1 := XorWord(r, P[2 * n - 1]);
      assert WordRounds(P, S, left, right, 2 * n - 1) == (r, l1);
      BlankF(S, r1);
      WordXorZero(l1);
    }
  }

  lemma BlankF(S: Tables, u: U32)
    requires Blank(S, 0) && Blank(S, 1) && Blank(S, 2) && Blank(S, 3)
    ensures BlowfishF(S, u) == 0
  {
    hide XorWord;
    WordXorZero(0);
  }

  class BCrypt {
    const P: array<U32>
    const S: array<U32>

    constructor (p: Keys, s: Tables)
      ensures fresh(P) && fresh(S) && P.Length == 18 && S.Length == 1024 && P[..] == p && S[..] == s
    {
      P := new U32[18](i requires 0 <= i < 18 => p[i]);
      S := new U32[1024](i requires 0 <= i < 1024 => s[i]);
    }

    /** feistel: sums left unreduced and numbers with a sign do not change what a round computes. */
    method TableValue(x: I32) returns (n: int)
      requires S.Length == 1024
      ensures n % TWO32 == BlowfishF(S[..], x % TWO32)
      ensures forall r: I32 :: Xor32(r, n) == Xor32(r, BlowfishF(S[..], x % TWO32))
    {
      hide Xor32, XorWord;
      var u := x % TWO32;
      var a, b, c, d := u / 0x100_0000, u / 0x1_0000 % 256, u / 256 % 256, u % 256;
      n := S[a];
      n := n + S[256 + b];
      n := Xor32(n, S[512 + c]);
      n := n + S[768 + d];
      TableWords(S[a], S[256 + b], S[512 + c], S[768 + d]);
      SameRound(n, BlowfishF(S[..], u));
    }

    /** cryptBlock: the exchange of the last round is taken back before the last two keys. */
    method EncryptBlock(left0: I32, right0: I32) returns (left: I32, right: I32)
      requires P.Length == 18 && S.Length == 1024
      ensures (left, right) == CryptBlock(P[..], S[..], left0, right0)
      ensures Unsigned((left, right)) == Blowfish(P[..], S[..], left0 % TWO32, right0 % TWO32)
    {
      hide BlowfishF, Xor32, WordRounds;
      left, right := left0, right0;
      for i := 0 to ROUNDS
        invariant (left, right) == Rounds(P[..], S[..], left0, right0, i)
      {
        left := Xor32(left, P[i]);
        var n := TableValue(left);
        right := Xor32(right, n);
        left, right := right, left;
      }
      left, right := right, left;
      right := Xor32(right, P[16]);
      left := Xor32(left, P[17]);
      CryptIsBlowfish(P[..], S[..], left0, right0);
    }
  }
}
