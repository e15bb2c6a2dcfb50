/** The bitwise operators `|` and `&` on unsigned bytes, defined bit by bit on
    integers, with the facts about them that the wire format relies on. */
module Bits {

  /** An unsigned byte. */
  type u8 = x: int | 0 <= x < 0x100

  function Pow2(w: nat): nat
  {
    if w == 0 then 1 else 2 * Pow2(w - 1)
  }

  /** Bit `i` of `x`, counting from the least significant bit. */
  predicate Bit(x: nat, i: nat)
  {
    if i == 0 then x % 2 == 1 else Bit(x / 2, i - 1)
  }

  /** Bitwise OR of the low `w` bits of `a` and `b`. */
  function Or(a: nat, b: nat, w: nat): (r: nat)
    ensures r < Pow2(w)
  {
    if w == 0 then 0 else 2 * Or(a / 2, b / 2, w - 1) + (if a % 2 == 1 || b % 2 == 1 then 1 else 0)
  }

  /** Bitwise AND of the low `w` bits of `a` and `b`. */
  function And(a: nat, b: nat, w: nat): (r: nat)
    ensures r < Pow2(w)
  {
    if w == 0 then 0 else 2 * And(a / 2, b / 2, w - 1) + (if a % 2 == 1 && b % 2 == 1 then 1 else 0)
  }

  /** Each bit of `Or` is the disjunction of the operands' bits. */
  lemma {:induction false} OrBit(a: nat, b: nat, w: nat, i: nat)
    requires i < w
    ensures Bit(Or(a, b, w), i) == (Bit(a, i) || Bit(b, i))
  {
    if i > 0 {
      OrBit(a / 2, b / 2, w - 1, i - 1);
    }
  }

  /** Each bit of `And` is the conjunction of the operands' bits. */
  lemma {:induction false} AndBit(a: nat, b: nat, w: nat, i: nat)
    requires i < w
    ensures Bit(And(a, b, w), i) == (Bit(a, i) && Bit(b, i))
  {
    if i > 0 {
      AndBit(a / 2, b / 2, w - 1, i - 1);
    }
  }

  /** With masks that share no bit, ORing a value with each mask and ANDing the
      two results gives the value back. */
  lemma {:induction false} MaskedPairRoundTrip(a: nat, m1: nat, m2: nat, w: nat)
    requires a < Pow2(w)
    requires And(m1, m2, w) == 0
    ensures And(Or(a, m1, w), Or(a, m2, w), w) == a
  {
    if w > 0 {
      MaskedPairRoundTrip(a / 2, m1 / 2, m2 / 2, w - 1);
      var x := Or(a, m1, w);
      var y := Or(a, m2, w);
      assert x / 2 == Or(a / 2, m1 / 2, w - 1) && y / 2 == Or(a / 2, m2 / 2, w - 1);
    }
  }

  /** After ORing with a mask, every bit of the mask is set. */
  lemma {:induction false} OrSetsMask(a: nat, m: nat, w: nat)
    requires m < Pow2(w)
    ensures And(Or(a, m, w), m, w) == m
  {
    if w > 0 {
      OrSetsMask(a / 2, m / 2, w - 1);
      var x := Or(a, m, w);
      assert x / 2 == Or(a / 2, m / 2, w - 1);
    }
  }

  /** `a | b` on bytes. */
  function Or8(a: u8, b: u8): (r: u8)
    ensures forall i :: 0 <= i < 8 ==> Bit(r, i) == (Bit(a, i) || Bit(b, i))
  {
    assert Pow2(8) == 0x100;
    forall i | 0 <= i < 8
      ensures Bit(Or(a, b, 8), i) == (Bit(a, i) || Bit(b, i))
    {
      OrBit(a, b, 8, i);
    }
    Or(a, b, 8)
  }

  /** `a & b` on bytes. */
  function And8(a: u8, b: u8): (r: u8)
    ensures forall i :: 0 <= i < 8 ==> Bit(r, i) == (Bit(a, i) && Bit(b, i))
  {
    assert Pow2(8) == 0x100;
    forall i | 0 <= i < 8
      ensures Bit(And(a, b, 8), i) == (Bit(a, i) && Bit(b, i))
    {
      AndBit(a, b, 8, i);
    }
    And(a, b, 8)
  }

  /** The masks 0xAA and 0x55 share no bit and together cover all eight. */
  lemma MasksDisjoint()
    ensures And8(0xAA, 0x55) == 0
  {
    assert And(1, 0, 1) == 0;
    assert And(2, 1, 2) == 0;
    assert And(5, 2, 3) == 0;
    assert And(10, 5, 4) == 0;
    assert And(21, 10, 5) == 0;
    assert And(42, 21, 6) == 0;
    assert And(85, 42, 7) == 0;
  }

  /** A byte sent as the pair `v | 0xAA`, `v | 0x55` is recovered by ANDing the pair. */
  lemma PairRoundTrip(v: u8)
    ensures And8(Or8(v, 0xAA), Or8(v, 0x55)) == v
  {
    MasksDisjoint();
    assert Pow2(8) == 0x100;
    MaskedPairRoundTrip(v, 0xAA, 0x55, 8);
  }

  /** Whatever the byte, `v | 0xAA` has all 0xAA bits set and `v | 0x55` all 0x55 bits. */
  lemma MasksSet(v: u8)
    ensures And8(Or8(v, 0xAA), 0xAA) == 0xAA
    ensures And8(Or8(v, 0x55), 0x55) == 0x55
  {
    assert Pow2(8) == 0x100;
    OrSetsMask(v, 0xAA, 8);
    OrSetsMask(v, 0x55, 8);
  }
}
