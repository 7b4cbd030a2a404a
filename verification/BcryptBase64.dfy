/** The base64 of bcrypt.ts: three bytes to four characters, without padding at the end. */
module BcryptBase64 {
  import opened Bits
  import opened Modular
  import opened Positional

  const UPPER: string := "ABCDEFGHIJKLM" + "NOPQRSTUVWXYZ"
  const LOWER: string := "abcdefghijklm" + "nopqrstuvwxyz"
  const DIGITS: string := "0123456789"

  /** The alphabet in the order of the values. */
  const CHARS: string := "./" + UPPER + LOWER + DIGITS

  type Sextet = x: int | 0 <= x < 64

  /** The code of character x of the alphabet. */
  function Code(x: Sextet): int {
    if x == 0 then 46 else if x == 1 then 47
    else if x < 28 then 65 + x - 2
    else if x < 54 then 97 + x - 28
    else 48 + x - 54
  }

  lemma Upper(i: nat)
    requires i < 26
    ensures |UPPER| == 26 && UPPER[i] as int == 65 + i
  {
  }

  lemma Lower(i: nat)
    requires i < 26
    ensures |LOWER| == 26 && LOWER[i] as int == 97 + i
  {
  }

  lemma Digit(i: nat)
    requires i < 10
    ensures |DIGITS| == 10 && DIGITS[i] as int == 48 + i
  {
  }

  lemma Alphabet(x: Sextet)
    ensures |CHARS| == 64 && CHARS[x] as int == Code(x)
    ensures x == 0 ==> CHARS[x] == '.'
    ensures x == 1 ==> CHARS[x] == '/'
    ensures 2 <= x < 28 ==> CHARS[x] as int == 'A' as int + x - 2
    ensures 28 <= x < 54 ==> CHARS[x] as int == 'a' as int + x - 28
    ensures 54 <= x < 64 ==> CHARS[x] as int == '0' as int + x - 54
  {
    hide UPPER, LOWER, DIGITS;
    Upper(if 2 <= x < 28 then x - 2 else 0);
    Lower(if 28 <= x < 54 then x - 28 else 0);
    Digit(if 54 <= x then x - 54 else 0);
    if x < 2 {
      assert CHARS[x] == "./"[x];
    }
  }

  /** chars.charAt */
  function CharAt(x: Sextet): char {
    Alphabet(x);
    CHARS[x]
  }

  /** The place of a character in the alphabet, -1 for any other. */
  type Place = x: int | -1 <= x < 64

  /** chars.indexOf */
  function IndexOf(c: char): Place {
    FindFrom(c, 0)
  }

  function FindFrom(c: char, x: nat): Place
    decreases 64 - x
  {
    if x >= 64 then -1 else if CharAt(x) == c then x else FindFrom(c, x + 1)
  }

  lemma {:induction false} FindChar(x: Sextet, from: nat)
    requires from <= x
    ensures FindFrom(CharAt(x), from) == x
    decreases x - from
  {
    hide CHARS;
    Alphabet(x);
    Alphabet(from);
    if from < x {
      FindChar(x, from + 1);
    }
  }

  lemma IndexOfCharAt(x: Sextet)
    ensures IndexOf(CharAt(x)) == x
  {
    FindChar(x, 0);
  }

  // ---- Encoding ----

  /** The bits of up to three bytes, of a missing byte as zeros. */
  function Bitmap(s: seq<byte>): (m: int)
    requires 0 < |s| <= 3
    ensures 0 <= m < 0x100_0000
  {
    0x1_0000 * (s[0] as int) + (if |s| > 1 then 256 * (s[1] as int) else 0) + (if |s| > 2 then s[2] as int else 0)
  }

  /** The first characters of four, two for one byte and one more for each byte more. */
  function Characters(a: Sextet, b: Sextet, c: Sextet, d: Sextet, bytes: nat): string {
    [CharAt(a), CharAt(b)] + (if bytes > 1 then [CharAt(c)] else []) + (if bytes > 2 then [CharAt(d)] else [])
  }

  /** One group: as many characters as the bits of its bytes need. */
  function Group(s: seq<byte>): string
    requires 0 < |s| <= 3
  {
    var m := Bitmap(s);
    Characters(m / 0x4_0000, m / 0x1000 % 64, m / 64 % 64, m % 64, |s|)
  }

  function Encode(data: seq<byte>): string {
    if |data| == 0 then "" else if |data| <= 3 then Group(data) else Group(data[..3]) + Encode(data[3..])
  }

  function Min(a: nat, b: nat): nat {
    if a < b then a else b
  }

  /** The characters that one round of encodeBase64 adds. */
  method EncodeAt(data: seq<byte>, i: nat) returns (part: string)
    requires i < |data|
    ensures part == Group(data[i..Min(i + 3, |data|)])
  {
    hide CharAt, Bitmap;
    var a := data[i];
    var b: byte := if i + 1 < |data| then data[i + 1] else 0;
    var c: byte := if i + 2 < |data| then data[i + 2] else 0;
    var bitmap := 0x1_0000 * (a as int) + 256 * (b as int) + c as int;
    BitmapAt(data, i, a, b, c);
    FirstSextet(data[i..Min(i + 3, |data|)]);
    part := [CharAt(bitmap / 0x4_0000 % 64)];
    part := part + [CharAt(bitmap / 0x1000 % 64)];
    if i + 1 < |data| {
      part := part + [CharAt(bitmap / 64 % 64)];
    }
    if i + 2 < |data| {
      part := part + [CharAt(bitmap % 64)];
    }
  }

  lemma BitmapAt(data: seq<byte>, i: nat, a: byte, b: byte, c: byte)
    requires i < |data| && a == data[i]
    requires b == if i + 1 < |data| then data[i + 1] else 0
    requires c == if i + 2 < |data| then data[i + 2] else 0
    ensures Bitmap(data[i..Min(i + 3, |data|)]) == 0x1_0000 * (a as int) + 256 * (b as int) + c as int
  {
  }

  lemma FirstSextet(s: seq<byte>)
    requires 0 < |s| <= 3
    ensures Bitmap(s) / 0x4_0000 % 64 == Bitmap(s) / 0x4_0000
  {
  }

  lemma EncodeStep(data: seq<byte>)
    requires data != []
    ensures Encode(data) == Group(data[..Min(3, |data|)]) + Encode(data[Min(3, |data|)..])
  {
    hide Group;
    if |data| <= 3 {
      assert data[..|data|] == data;
    }
  }

  /** encodeBase64 */
  method EncodeBase64(data: seq<byte>) returns (result: string)
    ensures result == Encode(data)
  {
    hide Group, Encode;
    result := "";
    var i := 0;
    assert data[0..] == data;
    while i < |data|
      invariant 0 <= i && result + Encode(data[Min(i, |data|)..]) == Encode(data)
    {
      var n := Min(i + 3, |data|);
      EncodeStep(data[i..]);
      assert data[i..][..Min(3, |data[i..]|)] == data[i..n] && data[i..][Min(3, |data[i..]|)..] == data[n..];
      var part := EncodeAt(data, i);
      assert (result + part) + Encode(data[n..]) == result + (part + Encode(data[n..]));
      result := result + part;
      i := i + 3;
    }
    EncodeNothing(data[|data|..]);
  }

  lemma EncodeNothing(data: seq<byte>)
    requires data == []
    ensures Encode(data) == ""
  {
  }

  // ---- Decoding ----

  predicate InAlphabet(s: string) {
    forall i :: 0 <= i < |s| ==> IndexOf(s[i]) != -1
  }

  /** The value of a character, of a missing one that of the first character. */
  function ValueAt(s: string, i: nat): Place {
    if i < |s| then IndexOf(s[i]) else 0
  }

  /** The first bytes of three, one for two characters and one more for each character more. */
  function Bytes(m: int, characters: nat): seq<byte> {
    [m / 0x1_0000 % 256]
      + (if characters > 2 then [m / 256 % 256] else [])
      + (if characters > 3 then [m % 256] else [])
  }

  /** Six more bits; the place -1 has all of its bits set, for ever upwards. */
  function Join(high: int, x: Place): int {
    if x == -1 then -1 else 64 * high + x
  }

  function Joined(a: Place, b: Place, c: Place, d: Place): int {
    Join(Join(Join(a, b), c), d)
  }

  function Ungroup(s: string): seq<byte>
    requires 0 < |s| <= 4
  {
    Bytes(Joined(ValueAt(s, 0), ValueAt(s, 1), ValueAt(s, 2), ValueAt(s, 3)), |s|)
  }

  function Decode(s: string): seq<byte> {
    if |s| == 0 then [] else if |s| <= 4 then Ungroup(s) else Ungroup(s[..4]) + Decode(s[4..])
  }

  lemma DecodeStep(s: string)
    requires s != ""
    ensures Decode(s) == Ungroup(s[..Min(4, |s|)]) + Decode(s[Min(4, |s|)..])
  {
    hide Ungroup;
    if |s| <= 4 {
      assert s[..|s|] == s;
    }
  }

  /** The place of a character of a string, of a missing one as of the first of the alphabet. */
  method IndexAt(s: string, i: nat) returns (x: Place)
    ensures x == ValueAt(s, i)
  {
    hide CharAt;
    var c := if i < |s| then s[i] else '.';
    if i >= |s| {
      FirstCharacter();
    }
    x := IndexOf(c);
  }

  lemma FirstCharacter()
    ensures IndexOf('.') == 0
  {
    Alphabet(0);
    IndexOfCharAt(0);
    assert CharAt(0) == '.';
  }

  lemma OrStep(x: int, y: int)
    ensures Or(x, y) == (if x % 2 == 1 || y % 2 == 1 then 1 else 0) + 2 * Or(x / 2, y / 2)
  {
  }

  /** Shifting both operands shifts the result. */
  lemma {:induction false} OrShift(x: int, y: int, n: nat)
    ensures Or(Pow(2, n) * x, Pow(2, n) * y) == Pow(2, n) * Or(x, y)
  {
    hide Or;
    if n > 0 {
      var p := Pow(2, n - 1);
      OrShift(x, y, n - 1);
      Doubled(p, x);
      Doubled(p, y);
      Doubled(p, Or(x, y));
      OrStep(Pow(2, n) * x, Pow(2, n) * y);
    }
  }

  lemma Doubled(p: int, x: int)
    ensures (2 * p) * x == 2 * (p * x) && (2 * p) * x / 2 == p * x && (2 * p) * x % 2 == 0
  {
  }

  /** Bits put into free places are added. */
  lemma {:induction false} OrLow(x: int, y: int, n: nat)
    requires 0 <= y < Pow(2, n)
    ensures Or(Pow(2, n) * x, y) == Pow(2, n) * x + y
  {
    hide Or;
    if n == 0 {
      OrNone(x);
    } else {
      OrLow(x, y / 2, n - 1);
      Doubled(Pow(2, n - 1), x);
      OrStep(Pow(2, n) * x, y);
    }
  }

  lemma {:induction false} OrNone(x: int)
    ensures Or(x, 0) == x
    decreases Abs(x)
  {
    if !IsSign(x) { OrNone(x / 2); }
  }

  lemma JoinIsOr(high: int, x: Place)
    ensures Or(64 * high, x) == Join(high, x)
  {
    hide Or;
    assert Pow(2, 6) == 64;
    if x == -1 {
      OrAll(64 * high);
    } else {
      OrLow(high, x, 6);
    }
  }

  /** The three inclusive ors of the shifted places, for characters outside the alphabet as well. */
  lemma JoinedIsOr(a: Place, b: Place, c: Place, d: Place)
    ensures Or(Or(Or(0x4_0000 * (a as int), 0x1000 * (b as int)), 64 * (c as int)), d) == Joined(a, b, c, d)
  {
    hide Or, Join;
    assert Pow(2, 6) == 64;
    assert Pow(2, 12) == 64 * Pow(2, 6);
    OrShift(64 * a, b, 12);
    JoinIsOr(a, b);
    OrShift(64 * Join(a, b), c, 6);
    JoinIsOr(Join(a, b), c);
    JoinIsOr(Join(Join(a, b), c), d);
  }

  /** The values of a group are those at its place in the string. */
  lemma GroupAt(s: string, i: nat, k: nat)
    requires i < |s| && k < 4
    ensures ValueAt(s[i..Min(i + 4, |s|)], k) == ValueAt(s, i + k)
  {
    hide IndexOf;
  }

  /** The bytes that one round of decodeBase64 adds. */
  method DecodeAt(s: string, i: nat) returns (part: seq<byte>)
    requires i < |s|
    ensures part == Ungroup(s[i..Min(i + 4, |s|)])
  {
    hide ValueAt, Joined, Or;
    var a := IndexAt(s, i);
    var b := IndexAt(s, i + 1);
    var c := IndexAt(s, i + 2);
    var d := IndexAt(s, i + 3);
    GroupAt(s, i, 0);
    GroupAt(s, i, 1);
    GroupAt(s, i, 2);
    GroupAt(s, i, 3);
    var bitmap := Or(Or(Or(0x4_0000 * (a as int), 0x1000 * (b as int)), 64 * (c as int)), d);
    JoinedIsOr(a, b, c, d);
    part := [bitmap / 0x1_0000 % 256];
    if i + 2 < |s| {
      part := part + [bitmap / 256 % 256];
    }
    if i + 3 < |s| {
      part := part + [bitmap % 256];
    }
  }

  /** decodeBase64 */
  method DecodeBase64(s: string) returns (result: seq<byte>)
    ensures result == Decode(s)
  {
    hide Ungroup, Decode;
    result := [];
    var i := 0;
    assert s[0..] == s;
    while i < |s|
      invariant 0 <= i && result + Decode(s[Min(i, |s|)..]) == Decode(s)
    {
      var n := Min(i + 4, |s|);
      DecodeStep(s[i..]);
      assert s[i..][..Min(4, |s[i..]|)] == s[i..n] && s[i..][Min(4, |s[i..]|)..] == s[n..];
      var part := DecodeAt(s, i);
      assert (result + part) + Decode(s[n..]) == result + (part + Decode(s[n..]));
      result := result + part;
      i := i + 4;
    }
    DecodeNothing(s[|s|..]);
  }

  lemma DecodeNothing(s: string)
    requires s == ""
    ensures InAlphabet(s) && Decode(s) == []
  {
  }

  /** A character outside the alphabet sets its own bits and all bits before it in the group, so that it
      hides the characters there. */
  lemma BadCharacter(s: string)
    requires 0 < |s| <= 4
    ensures IndexOf(s[0]) == -1 ==> Ungroup(s)[0] >= 252
    ensures |s| > 1 && IndexOf(s[1]) == -1 ==> Ungroup(s)[0] == 255 && (|s| > 2 ==> Ungroup(s)[1] >= 240)
    ensures |s| > 2 && IndexOf(s[2]) == -1 ==> Ungroup(s)[..2] == [255, 255] && (|s| > 3 ==> Ungroup(s)[2] >= 192)
    ensures |s| > 3 && IndexOf(s[3]) == -1 ==> Ungroup(s) == [255, 255, 255]
  {
    hide IndexOf;
  }

  // ---- Round trip ----

  /** A bitmap is made up again from its sextets. */
  lemma JoinedSextets(m: int)
    requires 0 <= m < 0x100_0000
    ensures Joined(m / 0x4_0000, m / 0x1000 % 64, m / 64 % 64, m % 64) == m
  {
    var a := m / 64;
    var b := a / 64;
    var c := b / 64;
    assert m == 64 * a + m % 64 && a == 64 * b + a % 64 && b == 64 * c + b % 64;
    DivUnique(0x1000, m, b, 64 * (a % 64) + m % 64);
    DivUnique(0x4_0000, m, c, 0x1000 * (b % 64) + 64 * (a % 64) + m % 64);
  }

  /** The sextets that a short group leaves out are zero. */
  lemma LastSextets(s: seq<byte>)
    requires 0 < |s| <= 3
    ensures |s| < 3 ==> Bitmap(s) % 64 == 0
    ensures |s| < 2 ==> Bitmap(s) / 64 % 64 == 0
  {
    var a, b := s[0] as int, if |s| > 1 then s[1] as int else 0;
    if |s| < 3 {
      DivUnique(64, Bitmap(s), 1024 * a + 4 * b, 0);
    }
    if |s| < 2 {
      DivUnique(64, 1024 * a, 16 * a, 0);
    }
  }

  lemma BytesBitmap(s: seq<byte>)
    requires 0 < |s| <= 3
    ensures Bytes(Bitmap(s), |s| + 1) == s
  {
    var a, b, c := s[0] as int, if |s| > 1 then s[1] as int else 0, if |s| > 2 then s[2] as int else 0;
    DivUnique(0x1_0000, Bitmap(s), a, 256 * b + c);
    DivUnique(256, Bitmap(s), 256 * a + b, c);
    DivUnique(256, 256 * a + b, a, b);
    assert a % 256 == a;
  }

  lemma CharacterValues(a: Sextet, b: Sextet, c: Sextet, d: Sextet, bytes: nat)
    requires 0 < bytes <= 3 && (bytes < 2 ==> c == 0) && (bytes < 3 ==> d == 0)
    ensures var g := Characters(a, b, c, d, bytes);
      |g| == bytes + 1 && InAlphabet(g) && ValueAt(g, 0) == a && ValueAt(g, 1) == b && ValueAt(g, 2) == c
        && ValueAt(g, 3) == d
  {
    hide CharAt, IndexOf;
    IndexOfCharAt(a);
    IndexOfCharAt(b);
    IndexOfCharAt(c);
    IndexOfCharAt(d);
  }

  lemma UngroupGroup(s: seq<byte>)
    requires 0 < |s| <= 3
    ensures |Group(s)| == |s| + 1 && InAlphabet(Group(s)) && Ungroup(Group(s)) == s
  {
    hide Characters, ValueAt, InAlphabet, Bytes, Joined, Bitmap;
    var m := Bitmap(s);
    LastSextets(s);
    CharacterValues(m / 0x4_0000, m / 0x1000 % 64, m / 64 % 64, m % 64, |s|);
    JoinedSextets(m);
    BytesBitmap(s);
  }

  lemma AlphabetAppend(a: string, b: string)
    requires InAlphabet(a) && InAlphabet(b)
    ensures InAlphabet(a + b)
  {
    hide IndexOf;
  }

  /** Decoding gives back every byte string, of whatever length. */
  lemma {:induction false} DecodeEncode(data: seq<byte>)
    ensures InAlphabet(Encode(data)) && Decode(Encode(data)) == data
  {
    hide Group, Ungroup, InAlphabet;
    if data == [] {
      DecodeNothing("");
    } else if |data| <= 3 {
      UngroupGroup(data);
    } else {
      var head, rest := Group(data[..3]), Encode(data[3..]);
      DecodeEncode(data[3..]);
      UngroupGroup(data[..3]);
      AlphabetAppend(head, rest);
      DecodeStep(head + rest);
      assert (head + rest)[..4] == head && (head + rest)[4..] == rest;
      assert data[..3] + data[3..] == data;
    }
  }

  // ---- Which strings come back ----

  /** The last group is not a single character, and the bits that no byte takes up are zero in it. */
  predicate CanonicalEnd(s: string) {
    && |s| % 4 != 1
    && (|s| % 4 == 2 ==> IndexOf(s[|s| - 1]) % 16 == 0)
    && (|s| % 4 == 3 ==> IndexOf(s[|s| - 1]) % 4 == 0)
  }

  lemma {:induction false} FindIsAt(c: char, from: nat)
    requires from <= 64
    ensures FindFrom(c, from) != -1 ==> CharAt(FindFrom(c, from)) == c
    decreases 64 - from
  {
    hide CharAt;
    if from < 64 && CharAt(from) != c {
      FindIsAt(c, from + 1);
    }
  }

  /** A character of the alphabet is the one at its place. */
  lemma CharAtIndexOf(c: char)
    ensures IndexOf(c) != -1 ==> CharAt(IndexOf(c)) == c
  {
    FindIsAt(c, 0);
  }

  /** The bytes of a group whose characters are all known. */
  lemma JoinedBytes(a: Sextet, b: Sextet, c: Sextet, d: Sextet)
    ensures var m := Joined(a, b, c, d);
      && 0 <= m < 0x100_0000
      && m / 0x4_0000 == a && m / 0x1000 % 64 == b && m / 64 % 64 == c && m % 64 == d
      && m / 0x1_0000 % 256 == m / 0x1_0000
  {
    var u := 64 * a + b;
    var v := 64 * u + c;
    var m := 64 * v + d;
    DivUnique(0x1000, m, u, 64 * c + d);
    DivUnique(0x4_0000, m, a, 0x1000 * b + 64 * c + d);
  }

  /** What is encoded again, of a group of the given length. */
  lemma BitmapBytes(m: int, characters: nat)
    requires 0 <= m < 0x100_0000 && 2 <= characters <= 4
    ensures |Bytes(m, characters)| == characters - 1
    ensures var low := if characters == 2 then 0x1_0000 else if characters == 3 then 256 else 1;
      Bitmap(Bytes(m, characters)) == m - m % low
  {
    var x, y, z := m / 0x1_0000, m / 256 % 256, m % 256;
    DivUnique(0x1_0000, m, m / 256 / 256, 256 * y + z);
    assert m == 0x1_0000 * x + 256 * y + z && 0 <= x < 256;
    DivUnique(256, m, 256 * x + y, z);
  }

  lemma GroupUngroup(s: string)
    requires 0 < |s| <= 4
    ensures Group(Ungroup(s)) == s <==> InAlphabet(s) && CanonicalEnd(s)
  {
    hide IndexOf, CharAt, Bytes, Joined, Bitmap;
    UngroupLength(s);
    UngroupGroup(Ungroup(s));
    if InAlphabet(s) && |s| > 1 {
      var a, b, c, d := ValueAt(s, 0), ValueAt(s, 1), ValueAt(s, 2), ValueAt(s, 3);
      var m := Joined(a, b, c, d);
      JoinedBytes(a, b, c, d);
      BitmapBytes(m, |s|);
      KeptSextets(a, b, c, d, |s|);
      JoinedBytes(a, if |s| == 2 then b / 16 * 16 else b, if |s| == 2 then 0 else if |s| == 3 then c / 4 * 4 else c,
        if |s| == 4 then d else 0);
      GroupCharacters(s, a, b, c, d, Bitmap(Bytes(m, |s|)));
    }
  }

  lemma UngroupLength(s: string)
    requires 0 < |s| <= 4
    ensures |Ungroup(s)| == if |s| == 1 then 1 else |s| - 1
  {
    hide Joined;
  }

  /** Dropping the bits that no byte takes up changes the last character, or nothing. */
  lemma KeptSextets(a: Sextet, b: Sextet, c: Sextet, d: Sextet, characters: nat)
    requires 2 <= characters <= 4
    ensures var low := if characters == 2 then 0x1_0000 else if characters == 3 then 256 else 1;
      Joined(a, b, c, d) - Joined(a, b, c, d) % low
        == Joined(a, if characters == 2 then b / 16 * 16 else b,
                  if characters == 2 then 0 else if characters == 3 then c / 4 * 4 else c,
                  if characters == 4 then d else 0)
  {
    var m := Joined(a, b, c, d);
    DivUnique(0x1_0000, m, 4 * a + b / 16, 0x1000 * (b % 16) + 64 * c + d);
    DivUnique(256, m, 1024 * a + 16 * b + c / 4, 64 * (c % 4) + d);
  }

  /** The printed characters are those of the string exactly if no bit has been lost. */
  lemma GroupCharacters(s: string, a: Sextet, b: Sextet, c: Sextet, d: Sextet, n: int)
    requires 2 <= |s| <= 4 && InAlphabet(s) && 0 <= n < 0x100_0000
    requires ValueAt(s, 0) == a && ValueAt(s, 1) == b && ValueAt(s, 2) == c && ValueAt(s, 3) == d
    requires n / 0x4_0000 == a && n / 0x1000 % 64 == if |s| == 2 then b / 16 * 16 else b
    requires |s| == 3 ==> n / 64 % 64 == c / 4 * 4
    requires |s| == 4 ==> n / 64 % 64 == c && n % 64 == d
    ensures Characters(n / 0x4_0000, n / 0x1000 % 64, n / 64 % 64, n % 64, |s| - 1) == s <==> CanonicalEnd(s)
  {
    hide IndexOf, CharAt;
    forall k | 0 <= k < |s| ensures CharAt(ValueAt(s, k)) == s[k] {
      CharAtIndexOf(s[k]);
    }
    IndexOfCharAt(n / 0x1000 % 64);
    IndexOfCharAt(n / 64 % 64);
  }

  /** Encoding gives back a decoded string exactly if all its characters are in the alphabet and it
      ends as an encoded one does. */
  lemma {:induction false} EncodeDecode(s: string)
    ensures Encode(Decode(s)) == s <==> InAlphabet(s) && CanonicalEnd(s)
  {
    hide Group, Ungroup, IndexOf;
    if s == "" {
      EncodeNothing([]);
    } else if |s| <= 4 {
      GroupUngroup(s);
      UngroupLength(s);
    } else {
      var head, rest := s[..4], s[4..];
      EncodeDecode(rest);
      GroupUngroup(head);
      UngroupLength(head);
      DecodeLength(rest);
      UngroupGroup(Ungroup(head));
      var data := Ungroup(head) + Decode(rest);
      assert data[..3] == Ungroup(head) && data[3..] == Decode(rest);
      assert s == head + rest;
      SameParts(Group(Ungroup(head)), Encode(Decode(rest)), head, rest);
      TailEnd(s);
    }
  }

  lemma DecodeLength(s: string)
    requires s != ""
    ensures Decode(s) != []
  {
    hide Ungroup;
    UngroupLength(if |s| <= 4 then s else s[..4]);
  }

  lemma SameParts(a: string, b: string, c: string, d: string)
    requires |a| == |c|
    ensures a + b == c + d <==> a == c && b == d
  {
    if a + b == c + d {
      assert a == (a + b)[..|a|] && c == (c + d)[..|a|];
      assert b == (a + b)[|a|..] && d == (c + d)[|a|..];
    }
  }

  lemma TailEnd(s: string)
    requires |s| > 4
    ensures CanonicalEnd(s) == CanonicalEnd(s[4..]) && CanonicalEnd(s[..4])
    ensures InAlphabet(s) == (InAlphabet(s[..4]) && InAlphabet(s[4..]))
  {
    hide IndexOf;
    assert s == s[..4] + s[4..];
    if InAlphabet(s[..4]) && InAlphabet(s[4..]) {
      AlphabetAppend(s[..4], s[4..]);
    }
  }

  /** Two strings of the alphabet that are decoded alike. */
  lemma LostBits()
    ensures Decode(".A") == Decode("..") && InAlphabet(".A")
  {
    Alphabet(0);
    Alphabet(2);
    assert UPPER[0] == 'A';
    IndexOfCharAt(0);
    IndexOfCharAt(2);
  }

  // ---- What the characters stand for ----

  /** Numbers written with the most significant digit first. */
  function Bits8(data: seq<byte>): nat {
    if data == [] then 0 else 256 * Bits8(data[..|data| - 1]) + data[|data| - 1]
  }

  function Bits6(s: string): int {
    if s == "" then 0 else 64 * Bits6(s[..|s| - 1]) + IndexOf(s[|s| - 1])
  }

  /** The bits that fill up the last character. */
  function Fill(n: nat): nat {
    if n % 3 == 1 then 16 else if n % 3 == 2 then 4 else 1
  }

  lemma ShortBits(data: seq<byte>)
    requires 0 < |data| <= 3
    ensures Bits6(Group(data)) == Bits8(data) * Fill(|data|)
  {
    hide IndexOf, CharAt, Characters, Bitmap;
    var m := Bitmap(data);
    LastSextets(data);
    GroupBits(m / 0x4_0000, m / 0x1000 % 64, m / 64 % 64, m % 64, |data|);
    JoinedSextets(m);
    BytesNumber(data);
  }

  lemma GroupBits(a: Sextet, b: Sextet, c: Sextet, d: Sextet, bytes: nat)
    requires 0 < bytes <= 3
    ensures var n := Bits6(Characters(a, b, c, d, bytes));
      n == if bytes == 1 then 64 * a + b
           else if bytes == 2 then 64 * (64 * a + b) + c
           else 64 * (64 * (64 * a + b) + c) + d
  {
    hide IndexOf, CharAt;
    IndexOfCharAt(a);
    IndexOfCharAt(b);
    IndexOfCharAt(c);
    IndexOfCharAt(d);
    var s1, s2, s3 := [CharAt(a)], [CharAt(a), CharAt(b)], [CharAt(a), CharAt(b), CharAt(c)];
    var s4 := s3 + [CharAt(d)];
    assert s1[..0] == "" && s2[..1] == s1 && s3[..2] == s2 && s4[..3] == s3;
    assert Bits6(s1) == a && Bits6(s2) == 64 * a + b && Bits6(s3) == 64 * (64 * a + b) + c;
    assert Bits6(s4) == 64 * Bits6(s3) + d;
    assert Characters(a, b, c, d, bytes) == if bytes == 1 then s2 else if bytes == 2 then s3 else s4;
  }

  lemma {:induction false} BytesNumber(data: seq<byte>)
    requires 0 < |data| <= 3
    ensures Bitmap(data) == Bits8(data) * (if |data| == 1 then 0x1_0000 else if |data| == 2 then 256 else 1)
  {
    assert Bits8(data[..1]) == data[0] as nat;
    if |data| == 1 {
      assert data[..1] == data;
    } else if |data| == 2 {
      assert data[..2] == data;
    } else {
      assert data[..2][..1] == data[..1] && Bits8(data[..2]) == 256 * Bits8(data[..1]) + data[1] as nat;
    }
  }

  lemma {:induction false} Bits8Append(a: seq<byte>, b: seq<byte>)
    ensures Bits8(a + b) == Pow(256, |b|) * Bits8(a) + Bits8(b)
  {
    if b == [] {
      assert a + b == a;
    } else {
      var c := b[..|b| - 1];
      Bits8Append(a, c);
      assert (a + b)[..|a + b| - 1] == a + c;
      Assoc(256, Pow(256, |c|), Bits8(a));
    }
  }

  lemma {:induction false} Bits6Append(a: string, b: string)
    ensures Bits6(a + b) == Pow(64, |b|) * Bits6(a) + Bits6(b)
  {
    hide IndexOf;
    if b == "" {
      assert a + b == a;
    } else {
      var c := b[..|b| - 1];
      Bits6Append(a, c);
      assert (a + b)[..|a + b| - 1] == a + c;
      Assoc(64, Pow(64, |c|), Bits6(a));
    }
  }

  /** Encoding writes the same number in base 64, with zero bits at the end to fill the last character. */
  lemma {:induction false} EncodeKeepsBits(data: seq<byte>)
    ensures Bits6(Encode(data)) == Bits8(data) * Fill(|data|)
    ensures |Encode(data)| == (4 * |data| + 2) / 3
  {
    hide Bits6, Bits8, Group, Pow, Fill, Bitmap, IndexOf;
    if data == [] {
      NoBits(data);
    } else if |data| <= 3 {
      ShortBits(data);
      UngroupGroup(data);
    } else {
      var head, rest := data[..3], data[3..];
      EncodeKeepsBits(rest);
      ShortBits(head);
      UngroupGroup(head);
      Bits8Append(head, rest);
      Bits6Append(Group(head), Encode(rest));
      assert head + rest == data;
      SameWeights(|rest|);
      Spread(Bits8(head), Pow(256, |rest|), Bits8(rest), Fill(|rest|));
      FillOf(|data|);
    }
  }

  lemma FillOf(n: nat)
    ensures Fill(3) == 1 && (n >= 3 ==> Fill(n) == Fill(n - 3))
  {
  }

  lemma NoBits(data: seq<byte>)
    requires data == []
    ensures Bits6(Encode(data)) == 0 && Bits8(data) == 0
  {
  }

  /** As many bits in the characters as in the bytes and the filling. */
  lemma {:induction false} SameWeights(n: nat)
    ensures Pow(64, (4 * n + 2) / 3) == Pow(256, n) * Fill(n)
  {
    hide Pow;
    SmallPowers();
    if n >= 3 {
      SameWeights(n - 3);
      assert (4 * n + 2) / 3 == 4 + (4 * (n - 3) + 2) / 3 && Fill(n) == Fill(n - 3);
      PowAdd(64, 4, (4 * n + 2) / 3 - 4);
      PowAdd(256, 3, n - 3);
      Assoc(0x100_0000, Pow(256, n - 3), Fill(n));
    }
  }

  lemma SmallPowers()
    ensures Pow(64, 0) == 1 && Pow(64, 2) == 4096 && Pow(64, 3) == 0x4_0000 && Pow(64, 4) == 0x100_0000
    ensures Pow(256, 0) == 1 && Pow(256, 1) == 256 && Pow(256, 2) == 0x1_0000 && Pow(256, 3) == 0x100_0000
  {
    assert Pow(64, 1) == 64;
    assert Pow(64, 2) == 64 * Pow(64, 1);
    assert Pow(64, 3) == 64 * Pow(64, 2);
    assert Pow(64, 4) == 64 * Pow(64, 3);
    assert Pow(256, 2) == 256 * Pow(256, 1);
    assert Pow(256, 3) == 256 * Pow(256, 2);
  }

  lemma Spread(x: int, p: int, y: int, f: int)
    ensures (p * x + y) * f == (p * f) * x + y * f
  {
    Assoc(p, x, f);
    Assoc(p, f, x);
    assert x * f == f * x;
  }
}
