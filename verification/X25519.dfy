/** The X25519 function as section 5 of RFC 7748 gives it: integers, one ladder step per scalar
    bit, and a conditional swap that is put off until the next step. */
module X25519 {
  import opened Bits
  import Modular
  import opened Positional
  import opened Field25519
  import opened Pack25519

  /** Section 5: clear the three low bits and the top bit, set bit 254. */
  function ClampScalar(k: seq<byte>): seq<byte>
    requires |k| == 32
  {
    k[0 := k[0] - k[0] % 8][31 := k[31] % 64 + 64]
  }

  ghost function DecodeScalar(k: seq<byte>): int
    requires |k| == 32
  {
    LittleEndian(ClampScalar(k))
  }

  /** Section 5: the top bit of the last byte is ignored. */
  ghost function DecodeCoordinate(u: seq<byte>): int {
    LittleEndian(u) % TWO255
  }

  ghost function ScalarBit(k: int, t: nat): int {
    PowPositive(2, t);
    (k / Pow(2, t)) % 2
  }

  ghost function FPow(x: int, e: nat): nat {
    if e == 0 then 1 else FMul(x, FPow(x, e - 1))
  }

  datatype Points = Points(x2: nat, z2: nat, x3: nat, z3: nat)

  const A24 := 121665

  /** One ladder step of section 5, between the two conditional swaps. */
  ghost function Step(x1: nat, p: Points): Points {
    var a := FAdd(p.x2, p.z2);
    var aa := FMul(a, a);
    var b := FSub(p.x2, p.z2);
    var bb := FMul(b, b);
    var e := FSub(aa, bb);
    var c := FAdd(p.x3, p.z3);
    var d := FSub(p.x3, p.z3);
    var da := FMul(d, a);
    var cb := FMul(c, b);
    Points(
      FMul(aa, bb),
      FMul(e, FAdd(aa, FMul(A24, e))),
      FMul(FAdd(da, cb), FAdd(da, cb)),
      FMul(x1, FMul(FSub(da, cb), FSub(da, cb))))
  }

  ghost function CSwap(swap: int, p: Points): Points {
    if swap == 1 then Points(p.x3, p.z3, p.x2, p.z2) else p
  }

  ghost function Flip(swap: int, bit: int): int {
    (swap + bit) % 2
  }

  /** The loop of section 5 after the bits 254 down to t: the points and the swap still owed. */
  ghost function Ladder(x1: nat, k: int, t: nat): (Points, int)
    requires t <= 255
    decreases 255 - t
  {
    if t == 255 then (Points(1, 0, x1, 1), 0)
    else
      var (p, swap) := Ladder(x1, k, t + 1);
      var bit := ScalarBit(k, t);
      (Step(x1, CSwap(Flip(swap, bit), p)), bit)
  }

  ghost function Finish(p: Points): nat {
    FMul(p.x2, FPow(p.z2, P - 2))
  }

  /** X25519 on decoded numbers. */
  ghost function LadderResult(x1: nat, k: int): nat {
    var (p, swap) := Ladder(x1, k, 0);
    Finish(CSwap(swap, p))
  }

  /** X25519(k, u) of section 5, as the integer its 32 output bytes encode. */
  ghost function Value(k: seq<byte>, u: seq<byte>): nat
    requires |k| == 32
  {
    LadderResult(DecodeCoordinate(u) % P, DecodeScalar(k))
  }

  // The eager form: swap before the step and swap back after it.

  ghost function EagerLadder(x1: nat, k: int, t: nat): Points
    requires t <= 255
    decreases 255 - t
  {
    if t == 255 then Points(1, 0, x1, 1)
    else
      var bit := ScalarBit(k, t);
      CSwap(bit, Step(x1, CSwap(bit, EagerLadder(x1, k, t + 1))))
  }

  /** Paying the owed swap at once gives the eager ladder. */
  lemma {:induction false} EagerIsLazy(x1: nat, k: int, t: nat)
    requires t <= 255
    ensures var (p, swap) := Ladder(x1, k, t);
      (swap == 0 || swap == 1) && CSwap(swap, p) == EagerLadder(x1, k, t)
    decreases 255 - t
  {
    hide Step;
    if t < 255 {
      EagerIsLazy(x1, k, t + 1);
      var (p, swap) := Ladder(x1, k, t + 1);
      PaySwap(p, swap, ScalarBit(k, t));
    }
  }

  /** The two swaps between one step and the next are one swap, or none. */
  lemma PaySwap(p: Points, swap: int, bit: int)
    requires (swap == 0 || swap == 1) && (bit == 0 || bit == 1)
    ensures CSwap(Flip(swap, bit), p) == CSwap(bit, CSwap(swap, p))
  {
  }

  /** Bit t of a little-endian number is bit t mod 8 of byte t div 8. */
  lemma {:induction false} BitOfBytes(s: seq<byte>, t: nat)
    requires t < 8 * |s|
    ensures ScalarBit(LittleEndian(s), t) == ScalarBit(s[t / 8], t % 8)
  {
    var rest := LittleEndian(s[1..]);
    if t < 8 {
      LowBits(s[0], rest, t);
    } else {
      BitOfBytes(s[1..], t - 8);
      assert s[1..][(t - 8) / 8] == s[t / 8];
      DropByte(s[0], rest, t);
    }
  }

  lemma LowBits(x: int, rest: int, t: nat)
    requires t < 8
    ensures ScalarBit(x + 256 * rest, t) == ScalarBit(x, t)
  {
    var p, h := Pow(2, t), Pow(2, 7 - t);
    PowPositive(2, t);
    PowAdd(2, t, 7 - t);
    assert Pow(2, 7) == 128;
    assert 256 * rest == (2 * (p * h)) * rest == p * (2 * (h * rest));
    Modular.DivUnique(p, x + 256 * rest, x / p + 2 * (h * rest), x % p);
  }

  lemma DropByte(x: int, rest: int, t: nat)
    requires t >= 8 && 0 <= x < 256
    ensures ScalarBit(x + 256 * rest, t) == ScalarBit(rest, t - 8)
  {
    var p := Pow(2, t - 8);
    PowPositive(2, t - 8);
    assert Pow(2, 8) == 256;
    PowAdd(2, 8, t - 8);
    NestedDiv(x, rest, p);
  }

  lemma NestedDiv(x: int, rest: int, p: nat)
    requires p > 0 && 0 <= x < 256
    ensures (x + 256 * rest) / (256 * p) == rest / p
  {
    var q, r := rest / p, rest % p;
    assert rest == p * q + r;
    assert 256 * (p * q) == (256 * p) * q;
    Modular.DivUnique(256 * p, x + 256 * rest, q, x + 256 * r);
  }
}
