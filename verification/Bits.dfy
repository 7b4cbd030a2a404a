/** Bitwise operators of JavaScript on two's complement integers, and the 32-bit conversions. */
module Bits {
  import opened Positional

  type byte = x: int | 0 <= x < 256

  type U32 = x: int | 0 <= x < 0x1_0000_0000

  const TWO31 := 0x8000_0000
  const TWO32 := 0x1_0000_0000

  function Abs(x: int): nat {
    if x < 0 then -x else x
  }

  /** The conversion made by `x | 0`. */
  function ToInt32(x: int): (r: int)
    ensures -TWO31 <= x < TWO31 ==> r == x
  {
    (x + TWO31) % TWO32 - TWO31
  }

  predicate IsSign(x: int) {
    x == 0 || x == -1
  }

  /** Exclusive or, bit by bit; 0 and -1 repeat their sign bit for ever. */
  function Xor(x: int, y: int): int
    decreases Abs(x) + Abs(y)
  {
    if IsSign(x) && IsSign(y) then (if x == y then 0 else -1)
    else (x + y) % 2 + 2 * Xor(x / 2, y / 2)
  }

  function And(x: int, y: int): int
    decreases Abs(x) + Abs(y)
  {
    if IsSign(x) && IsSign(y) then (if x == y then x else 0)
    else (x % 2) * (y % 2) + 2 * And(x / 2, y / 2)
  }

  function Not(x: int): int {
    -x - 1
  }

  /** Xor acts on the lowest bit and on the rest separately, sign values included. */
  lemma XorStep(x: int, y: int)
    ensures Xor(x, y) % 2 == (x + y) % 2
    ensures Xor(x, y) / 2 == Xor(x / 2, y / 2)
  {}

  lemma {:induction false} XorZero(x: int)
    ensures Xor(x, 0) == x
    decreases Abs(x)
  {
    if !IsSign(x) { XorZero(x / 2); }
  }

  lemma {:induction false} XorComm(x: int, y: int)
    ensures Xor(x, y) == Xor(y, x)
    decreases Abs(x) + Abs(y)
  {
    if !IsSign(x) || !IsSign(y) { XorComm(x / 2, y / 2); }
  }

  lemma ParityCancel(x: int, y: int, z: int)
    requires z % 2 == (x + y) % 2
    ensures (x + z) % 2 == y % 2
  {}

  lemma SameHalves(x: int, y: int)
    requires x % 2 == y % 2 && x / 2 == y / 2
    ensures x == y
  {}

  lemma {:induction false} XorCancel(x: int, y: int)
    ensures Xor(x, Xor(x, y)) == y
    decreases Abs(x) + Abs(y)
  {
    if !IsSign(x) || !IsSign(y) {
      XorCancel(x / 2, y / 2);
      hide Xor;
      var z := Xor(x, y);
      XorStep(x, y);
      XorStep(x, z);
      ParityCancel(x, y, z);
      SameHalves(Xor(x, z), y);
    }
  }

  lemma {:induction false} AndAll(x: int)
    ensures And(-1, x) == x
    decreases Abs(x)
  {
    if !IsSign(x) { AndAll(x / 2); }
  }

  lemma {:induction false} AndNone(x: int)
    ensures And(0, x) == 0
    decreases Abs(x)
  {
    if !IsSign(x) { AndNone(x / 2); }
  }

  /** The constant-time choice `x ^ (mask & (x ^ y))` is x for mask 0 and y for mask -1. */
  lemma SelectByMask(mask: int, x: int, y: int)
    requires IsSign(mask)
    ensures Xor(x, And(mask, Xor(x, y))) == if mask == 0 then x else y
    ensures Xor(y, And(mask, Xor(x, y))) == if mask == 0 then y else x
  {
    var d := Xor(x, y);
    AndAll(d);
    AndNone(d);
    XorZero(x);
    XorZero(y);
    XorCancel(x, y);
    XorComm(x, y);
    XorCancel(y, x);
  }

  lemma {:induction false} XorBound(x: int, y: int, n: nat)
    requires 0 <= x < Pow(2, n) && 0 <= y < Pow(2, n)
    ensures 0 <= Xor(x, y) < Pow(2, n)
  {
    if n > 0 { XorBound(x / 2, y / 2, n - 1); }
  }

  lemma PowersOfTwo()
    ensures Pow(2, 8) == 256 && Pow(2, 32) == TWO32
  {
    assert Pow(2, 4) == 16;
    PowAdd(2, 4, 4);
    PowAdd(2, 8, 8);
    PowAdd(2, 16, 16);
  }

  function XorByte(x: byte, y: byte): byte {
    PowersOfTwo();
    XorBound(x, y, 8);
    Xor(x, y)
  }

  function XorWord(x: U32, y: U32): U32 {
    PowersOfTwo();
    XorBound(x, y, 32);
    Xor(x, y)
  }

  function Or(x: int, y: int): int
    decreases Abs(x) + Abs(y)
  {
    if IsSign(x) && IsSign(y) then (if x == 0 && y == 0 then 0 else -1)
    else (if x % 2 == 1 || y % 2 == 1 then 1 else 0) + 2 * Or(x / 2, y / 2)
  }

  lemma {:induction false} OrFacts(x: nat, y: nat, n: nat)
    requires x < Pow(2, n) && y < Pow(2, n)
    ensures 0 <= Or(x, y) < Pow(2, n)
    ensures Or(x, y) == 0 <==> x == 0 && y == 0
  {
    if n > 0 { OrFacts(x / 2, y / 2, n - 1); }
  }

  lemma {:induction false} OrAll(x: int)
    ensures Or(x, -1) == -1
    decreases Abs(x)
  {
    if !IsSign(x) { OrAll(x / 2); }
  }

  lemma XorIsZero(x: int, y: int)
    ensures Xor(x, y) == 0 <==> x == y
  {
    XorCancel(x, y);
    XorZero(x);
    XorCancel(x, 0);
  }
}
