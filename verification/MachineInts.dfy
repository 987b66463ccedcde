/**
 The C integer types the driver uses, and the bit operations of its checksum
 code in terms of division and remainder.
 */
module MachineInts {
  type byte = v: int | 0 <= v < 0x100
  type u16 = v: int | 0 <= v < 0x1_0000
  type u32 = v: int | 0 <= v < 0x1_0000_0000
  type i32 = v: int | -0x8000_0000 <= v < 0x8000_0000

  const INT_MAX: int := 0x7fff_ffff

  /** The byte order of a host. */
  datatype Endian = Big | Little

  function Min(a: nat, b: nat): (m: nat)
    ensures m <= a && m <= b && (m == a || m == b)
  {
    if a < b then a else b
  }

  /** Unsigned 32-bit arithmetic wraps. */
  function Wrap32(v: int): u32 {
    v % 0x1_0000_0000
  }

  lemma WrapIsIdentity(v: nat)
    requires v < 0x1_0000_0000
    ensures Wrap32(v) == v
  {
  }

  lemma WrapAbsorbs(v: int, d: int)
    ensures Wrap32(Wrap32(v) + d) == Wrap32(v + d)
  {
  }

  /** The two's complement pattern of a C `int`. */
  function Pattern(v: i32): u32 {
    v % 0x1_0000_0000
  }

  function Pow2(k: nat): (p: nat)
    ensures p > 0
  {
    if k == 0 then 1 else 2 * Pow2(k - 1)
  }

  /** `v >> k`: drop the last binary digit `k` times. */
  function ShiftRight(v: nat, k: nat): nat
    decreases k
  {
    if k == 0 then v else ShiftRight(v / 2, k - 1)
  }

  /** `a & b`, digit by digit. */
  function BitAnd(a: nat, b: nat): nat {
    if a == 0 || b == 0 then 0
    else (if a % 2 == 1 && b % 2 == 1 then 1 else 0) + 2 * BitAnd(a / 2, b / 2)
  }

  /** Doubling a mask of ones adds one more low digit. */
  lemma MaskStep(v: nat, p: nat)
    requires p > 0
    ensures BitAnd(v, 2 * p - 1) == v % 2 + 2 * BitAnd(v / 2, p - 1)
  {
    var mask := 2 * p - 1;
    assert mask / 2 == p - 1 && mask % 2 == 1;
  }

  lemma Recombine(v: nat, p: nat, q: nat, a: nat)
    requires v / 2 == p * q + a && a < p
    ensures v == (2 * p) * q + (v % 2 + 2 * a) && v % 2 + 2 * a < 2 * p
  {
    assert (2 * p) * q == 2 * (p * q);
  }

  /** Shifting by `k` and masking with `2^k - 1` split a number in two. */
  lemma {:induction false} ShiftAndMaskSplit(v: nat, k: nat)
    ensures BitAnd(v, Pow2(k) - 1) < Pow2(k)
    ensures v == Pow2(k) * ShiftRight(v, k) + BitAnd(v, Pow2(k) - 1)
    decreases k
  {
    if k > 0 {
      var p, q := Pow2(k - 1), ShiftRight(v / 2, k - 1);
      ShiftAndMaskSplit(v / 2, k - 1);
      MaskStep(v, p);
      Recombine(v, p, q, BitAnd(v / 2, p - 1));
    }
  }

  /** `v & 2^k` looks at the last digit of `v >> k`. */
  lemma {:induction false} BitTestIsDigit(v: nat, k: nat)
    ensures BitAnd(v, Pow2(k)) != 0 <==> ShiftRight(v, k) % 2 == 1
    decreases k
  {
    if k == 0 {
      assert BitAnd(v / 2, 0) == 0;
    } else {
      var p := Pow2(k - 1);
      BitTestIsDigit(v / 2, k - 1);
      assert (2 * p) / 2 == p && (2 * p) % 2 == 0;
      if v == 0 {
        assert BitAnd(v / 2, p) == 0;
      } else {
        assert BitAnd(v, 2 * p) == 2 * BitAnd(v / 2, p);
      }
    }
  }

  lemma Pow2Of16()
    ensures Pow2(16) == 0x1_0000
  {
    assert Pow2(4) == 0x10;
    assert Pow2(8) == 0x100;
    assert Pow2(12) == 0x1000;
  }

  /** `v >> 16` and `v & 0xffff` on an `unsigned int`. */
  lemma Halves(v: u32)
    ensures ShiftRight(v, 16) == v / 0x1_0000
    ensures BitAnd(v, 0xffff) == v % 0x1_0000
  {
    hide BitAnd, ShiftRight;
    Pow2Of16();
    ShiftAndMaskSplit(v, 16);
  }

  /** `x & 0xffff` on an `int`, negative ones included. */
  lemma LowHalf(x: i32)
    requires -0x1_0000 <= x < 0x2_0000
    ensures BitAnd(Pattern(x), 0xffff) == if x < 0 then x + 0x1_0000 else if x < 0x1_0000 then x else x - 0x1_0000
  {
    hide BitAnd, ShiftRight;
    Halves(Pattern(x));
  }

  /** `x & 0x10000` on an `int`: on the range the add loop reaches, a carry out of the low half. */
  lemma CarryBit(x: i32)
    requires 0 <= x < 0x2_0000
    ensures BitAnd(Pattern(x), 0x1_0000) != 0 <==> x >= 0x1_0000
  {
    hide BitAnd, ShiftRight;
    Pow2Of16();
    BitTestIsDigit(x, 16);
    Halves(x);
  }
}
