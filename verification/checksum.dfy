/** The CRC-16 used by Modbus RTU framing (section 2.5.1.2 and Appendix B of
    "MODBUS over Serial Line, Specification and Implementation Guide V1.02"):
    register preset to 0xFFFF, each octet XORed into the low end, then eight
    reflected shift steps with polynomial 0xA001.

    The running register is a Python integer in `crc16_modbus`. It is
    modelled as a `bv32`: XOR and right shift never make a value wider than
    its widest operand, so nothing is ever truncated, and the register is
    proved to stay below 2^16 (`FoldFits16`). Numbers and register bits are
    related digit by digit (`Bits`, `Value`) rather than by a cast. */
module Checksum {
  import opened Bytes

  /** Initial register value. */
  const Preset: bv32 := 0xFFFF

  /** Reflected generator polynomial x^16 + x^15 + x^2 + 1. */
  const Polynomial: bv32 := 0xA001

  /** A register value that fits in 16 bits. */
  predicate Fits16(crc: bv32) {
    crc < 0x1_0000
  }

  /** One pass of the inner loop: shift right, and fold the polynomial in
      when the bit shifted out was set. */
  function ShiftStep(crc: bv32): bv32 {
    if crc & 1 != 0 then (crc >> 1) ^ Polynomial else crc >> 1
  }

  /** `n` passes of the inner loop. */
  function ShiftSteps(crc: bv32, n: nat): bv32
    decreases n
  {
    if n == 0 then crc else ShiftSteps(ShiftStep(crc), n - 1)
  }

  /** The low `width` binary digits of `n` as register bits, least
      significant digit in bit 0. */
  function Bits(n: nat, width: nat): bv32
    decreases width
  {
    if width == 0 then 0
    else (Bits(n / 2, width - 1) << 1) | (if n % 2 == 1 then 1 else 0)
  }

  /** The number whose binary digits are the low `width` bits of `x`, least
      significant bit first: the inverse of `Bits` (`ValueBits`). */
  function Value(x: bv32, width: nat): nat
    decreases width
  {
    if width == 0 then 0
    else 2 * Value(x >> 1, width - 1) + (if x & 1 == 1 then 1 else 0)
  }

  /** The eight bits of an octet, in the low end of a register: the value
      Python's `crc ^= b` XORs in. */
  function Octet(b: byte): bv32 {
    Bits(b, 8)
  }

  /** One pass of the outer loop: XOR the octet in, then eight shift steps. */
  function UpdateByte(crc: bv32, b: byte): bv32 {
    ShiftSteps(crc ^ Octet(b), 8)
  }

  /** The outer loop over `data`, starting from register `crc`. */
  function Fold(crc: bv32, data: seq<byte>): bv32
    decreases |data|
  {
    if |data| == 0 then crc else Fold(UpdateByte(crc, data[0]), data[1..])
  }

  /** `crc16_modbus(data)`, defined for every input including the empty
      one; its value lies in 0..0xFFFF, and its binary digits are the final
      register (`Crc16Register`). */
  function Crc16(data: seq<byte>): uint16
  {
    var reg := Fold(Preset, data);
    FoldFits16(Preset, data);
    RegisterValue(reg);
    Value(reg, 16)
  }

  // ---------------------------------------------------------------------
  // The 16-bit range of the register.

  /** A shift step keeps the register below 2^16: a right shift only
      shrinks it and 0xA001 itself fits. */
  lemma ShiftStepFits16(crc: bv32)
    requires Fits16(crc)
    ensures Fits16(ShiftStep(crc))
  {
    if crc & 1 != 0 {
      assert ShiftStep(crc) == (crc >> 1) ^ Polynomial;
    } else {
      assert ShiftStep(crc) == crc >> 1;
    }
  }

  /** Any number of shift steps keep the register below 2^16. */
  lemma {:induction false} ShiftStepsFits16(crc: bv32, n: nat)
    requires Fits16(crc)
    ensures Fits16(ShiftSteps(crc, n))
    decreases n
  {
    if n > 0 {
      ShiftStepFits16(crc);
      ShiftStepsFits16(ShiftStep(crc), n - 1);
    }
  }

  /** Processing one octet keeps the register below 2^16. */
  lemma UpdateByteFits16(crc: bv32, b: byte)
    requires Fits16(crc)
    ensures Fits16(UpdateByte(crc, b))
  {
    OctetFits(b);
    assert Fits16(crc ^ Octet(b));
    ShiftStepsFits16(crc ^ Octet(b), 8);
  }

  /** The outer loop keeps the register below 2^16, from any 16-bit start. */
  lemma {:induction false} FoldFits16(crc: bv32, data: seq<byte>)
    requires Fits16(crc)
    ensures Fits16(Fold(crc, data))
    decreases |data|
  {
    if |data| > 0 {
      UpdateByteFits16(crc, data[0]);
      FoldFits16(UpdateByte(crc, data[0]), data[1..]);
    }
  }

  // ---------------------------------------------------------------------
  // The source's nested loops.

  /** The inner loop of the source: eight shift steps on one register. */
  method ShiftEight(crc: bv32) returns (reg: bv32)
    requires Fits16(crc)
    ensures Fits16(reg)
    ensures reg == ShiftSteps(crc, 8)
  {
    reg := crc;
    for k := 0 to 8
      invariant Fits16(reg)
      invariant ShiftSteps(reg, 8 - k) == ShiftSteps(crc, 8)
    {
      ShiftStepFits16(reg);
      reg := ShiftStep(reg);
    }
  }

  /** `crc16_modbus` written as the source writes it: two nested loops over
      one mutable register. */
  method ComputeCrc16(data: seq<byte>) returns (crc: uint16)
    ensures crc == Crc16(data)
  {
    var reg: bv32 := Preset;
    for i := 0 to |data|
      invariant Fits16(reg)
      invariant Fold(reg, data[i..]) == Fold(Preset, data)
    {
      assert data[i..][1..] == data[i + 1..];
      OctetFits(data[i]);
      ghost var before := reg;
      reg := ShiftEight(reg ^ Octet(data[i]));
      assert reg == UpdateByte(before, data[i]);
    }
    RegisterValue(reg);
    crc := Value(reg, 16);
  }

  // ---------------------------------------------------------------------
  // Numbers and register bits: an octet enters the register as its binary
  // digits (`Bits`), and the final register leaves as the number its digits
  // spell (`Value`).

  /** 2^width as a register value, for the widths a register holds. It is
      tabulated rather than defined by repeated shifts, which keeps the
      solver from unfolding chains of shifts. */
  function Span(width: nat): bv32
    requires width <= 16
  {
    if width == 0 then 1 else if width == 1 then 2 else if width == 2 then 4
    else if width == 3 then 8 else if width == 4 then 0x10 else if width == 5 then 0x20
    else if width == 6 then 0x40 else if width == 7 then 0x80 else if width == 8 then 0x100
    else if width == 9 then 0x200 else if width == 10 then 0x400 else if width == 11 then 0x800
    else if width == 12 then 0x1000 else if width == 13 then 0x2000 else if width == 14 then 0x4000
    else if width == 15 then 0x8000 else 0x1_0000
  }

  /** 2^width as a number. */
  function Pow2(width: nat): nat
    decreases width
  {
    if width == 0 then 1 else 2 * Pow2(width - 1)
  }

  /** Each span is twice the one below it. */
  lemma SpanStep(width: nat)
    requires 1 <= width <= 16
    ensures Span(width) == Span(width - 1) << 1
    ensures Span(width - 1) <= 0x8000
    ensures width <= 8 ==> Span(width - 1) <= 0x80
  {
  }

  /** Shifting a bit in below a value under a span stays under twice it. */
  lemma ShiftInBound(x: bv32, bit: bv32, s: bv32)
    requires x < s && s <= 0x80 && bit <= 1
    ensures (x << 1) | bit < s << 1
  {
  }

  /** Shifting a bit in below small values is injective. */
  lemma ShiftInInjective(x: bv32, y: bv32, bitX: bv32, bitY: bv32)
    requires x < 0x80 && y < 0x80 && bitX <= 1 && bitY <= 1
    requires (x << 1) | bitX == (y << 1) | bitY
    ensures x == y && bitX == bitY
  {
  }

  /** The low `width` digits fit below 2^width. */
  lemma {:induction false} BitsBound(n: nat, width: nat)
    requires width <= 8
    ensures Bits(n, width) < Span(width)
    decreases width
  {
    if width > 0 {
      BitsBound(n / 2, width - 1);
      SpanStep(width);
      ShiftInBound(Bits(n / 2, width - 1), if n % 2 == 1 then 1 else 0, Span(width - 1));
    }
  }

  /** Numbers below 2^width with the same low `width` digits are equal. */
  lemma {:induction false} BitsInjective(n: nat, m: nat, width: nat)
    requires width <= 8 && n < Pow2(width) && m < Pow2(width)
    requires Bits(n, width) == Bits(m, width)
    ensures n == m
    decreases width
  {
    if width > 0 {
      var bn: bv32 := if n % 2 == 1 then 1 else 0;
      var bm: bv32 := if m % 2 == 1 then 1 else 0;
      BitsBound(n / 2, width - 1);
      BitsBound(m / 2, width - 1);
      SpanStep(width);
      ShiftInInjective(Bits(n / 2, width - 1), Bits(m / 2, width - 1), bn, bm);
      BitsInjective(n / 2, m / 2, width - 1);
    }
  }

  /** An octet's bits lie in the low eight bits of the register. */
  lemma OctetFits(b: byte)
    ensures Octet(b) < 0x100
  {
    BitsBound(b, 8);
  }

  /** Distinct octets have distinct bits. */
  lemma OctetInjective(b: byte, c: byte)
    requires b != c
    ensures Octet(b) != Octet(c)
  {
    assert Pow2(8) == 0x100;
    if Octet(b) == Octet(c) {
      BitsInjective(b, c, 8);
    }
  }

  /** No bits of `x` are set from position `width` up. */
  predicate Within(x: bv32, width: nat)
    decreases width
  {
    if width == 0 then x == 0 else Within(x >> 1, width - 1)
  }

  /** Halving a value under twice a span puts it under the span. */
  lemma ShiftOutBound(x: bv32, s: bv32, t: bv32)
    requires x < t && t == s << 1 && s <= 0x8000
    ensures x >> 1 < s
  {
  }

  /** A value is its upper bits shifted back up, with its low bit in. */
  lemma ShiftOutShiftIn(x: bv32)
    ensures ((x >> 1) << 1) | (x & 1) == x
  {
  }

  /** The value of the low `width` bits stays below 2^width. */
  lemma {:induction false} ValueBound(x: bv32, width: nat)
    ensures Value(x, width) < Pow2(width)
    decreases width
  {
    if width > 0 {
      ValueBound(x >> 1, width - 1);
    }
  }

  /** Writing back the digits of a register peels off its low bit. */
  lemma BitsOfValueStep(x: bv32, width: nat)
    requires width >= 1
    ensures Bits(Value(x, width), width) ==
              (Bits(Value(x >> 1, width - 1), width - 1) << 1) | (x & 1)
  {
    var v := Value(x, width);
    assert v / 2 == Value(x >> 1, width - 1);
    if x & 1 == 1 {
      assert v % 2 == 1;
    } else {
      assert x & 1 == 0 by {
        assert x & 1 <= 1;
      }
      assert v % 2 == 0;
    }
  }

  /** The inductive step of `ValueBits`: when the upper bits read back,
      so does the whole register. */
  lemma ValueBitsStep(x: bv32, width: nat)
    requires width >= 1
    requires Bits(Value(x >> 1, width - 1), width - 1) == x >> 1
    ensures Bits(Value(x, width), width) == x
  {
    BitsOfValueStep(x, width);
    ShiftOutShiftIn(x);
  }

  /** A register below 2^width is the `Bits` of its `Value`: reading the
      digits of a register and writing them back gives the register. */
  lemma {:induction false} ValueBits(x: bv32, width: nat)
    requires Within(x, width)
    ensures Bits(Value(x, width), width) == x
    decreases width
  {
    if width > 0 {
      ValueBits(x >> 1, width - 1);
      ValueBitsStep(x, width);
    }
  }

  /** A register below 2^width, the span `s`, has no bits set from
      `width` up. */
  lemma {:induction false} WithinSpan(x: bv32, width: nat, s: bv32)
    requires width <= 16 && s == Span(width) && x < s
    ensures Within(x, width)
    decreases width
  {
    if width > 0 {
      SpanStep(width);
      ShiftOutBound(x, Span(width - 1), s);
      WithinSpan(x >> 1, width - 1, Span(width - 1));
    }
  }

  /** The checksum is the number whose sixteen binary digits are the
      register the outer loop leaves. */
  lemma Crc16Register(data: seq<byte>)
    ensures Bits(Crc16(data), 16) == Fold(Preset, data)
  {
    FoldFits16(Preset, data);
    RegisterValue(Fold(Preset, data));
  }

  /** A 16-bit register's value is a 16-bit number whose bits are the
      register. */
  lemma RegisterValue(reg: bv32)
    requires Fits16(reg)
    ensures Value(reg, 16) < 0x1_0000
    ensures Bits(Value(reg, 16), 16) == reg
  {
    ValueBound(reg, 16);
    assert Pow2(4) == 0x10;
    assert Pow2(8) == 0x100;
    assert Pow2(12) == 0x1000;
    assert Pow2(16) == 0x1_0000;
    WithinSpan(reg, 16, 0x1_0000);
    ValueBits(reg, 16);
  }

  // ---------------------------------------------------------------------
  // Error detection: on 16-bit registers every step is injective, so two
  // inputs of the same length that differ in exactly one octet never share
  // a CRC.

  /** Distinct 16-bit registers stay distinct after a shift step: with equal
      low bits the shifted values differ, and with different low bits
      exactly one side gets the polynomial's top bit 15. */
  lemma ShiftStepInjective(a: bv32, b: bv32)
    requires Fits16(a) && Fits16(b) && a != b
    ensures ShiftStep(a) != ShiftStep(b)
  {
    if a & 1 == b & 1 {
      assert a >> 1 != b >> 1;
      if a & 1 != 0 {
        assert ShiftStep(a) == (a >> 1) ^ Polynomial;
        assert ShiftStep(b) == (b >> 1) ^ Polynomial;
      } else {
        assert ShiftStep(a) == a >> 1;
        assert ShiftStep(b) == b >> 1;
      }
    } else if a & 1 != 0 {
      assert ShiftStep(a) == (a >> 1) ^ Polynomial;
      assert ShiftStep(b) == b >> 1;
      assert ShiftStep(a) & 0x8000 != 0;
      assert ShiftStep(b) & 0x8000 == 0;
    } else {
      assert ShiftStep(a) == a >> 1;
      assert ShiftStep(b) == (b >> 1) ^ Polynomial;
      assert ShiftStep(a) & 0x8000 == 0;
      assert ShiftStep(b) & 0x8000 != 0;
    }
  }

  /** Distinct 16-bit registers stay distinct after any number of steps. */
  lemma {:induction false} ShiftStepsInjective(a: bv32, b: bv32, n: nat)
    requires Fits16(a) && Fits16(b) && a != b
    ensures ShiftSteps(a, n) != ShiftSteps(b, n)
    decreases n
  {
    if n > 0 {
      ShiftStepInjective(a, b);
      ShiftStepFits16(a);
      ShiftStepFits16(b);
      ShiftStepsInjective(ShiftStep(a), ShiftStep(b), n - 1);
    }
  }

  /** XOR with one side fixed is injective in the other. */
  lemma XorSeparates(a: bv32, b: bv32, p: bv32, q: bv32)
    requires (a != b && p == q) || (a == b && p != q)
    ensures a ^ p != b ^ q
  {
  }

  /** XOR of a 16-bit register and an octet fits in 16 bits. */
  lemma XorFits16(a: bv32, p: bv32)
    requires Fits16(a) && p < 0x100
    ensures Fits16(a ^ p)
  {
  }

  /** Mixing an octet into a register: distinct registers with the same
      octet, or the same register with distinct octets, give distinct 16-bit
      values. */
  lemma MixSeparates(a: bv32, b: bv32, x: byte, y: byte)
    requires Fits16(a) && Fits16(b)
    requires (a != b && x == y) || (a == b && x != y)
    ensures Fits16(a ^ Octet(x)) && Fits16(b ^ Octet(y))
    ensures a ^ Octet(x) != b ^ Octet(y)
  {
    OctetFits(x);
    OctetFits(y);
    if x != y {
      OctetInjective(x, y);
    }
    XorSeparates(a, b, Octet(x), Octet(y));
    XorFits16(a, Octet(x));
    XorFits16(b, Octet(y));
  }

  /** One octet step is eight shift steps of the mixed register. */
  lemma UpdateByteIsShiftedMix(a: bv32, x: byte)
    ensures UpdateByte(a, x) == ShiftSteps(a ^ Octet(x), 8)
  {
  }

  /** One octet step separates distinct registers, and separates distinct
      octets from the same register. */
  lemma UpdateByteInjective(a: bv32, b: bv32, x: byte, y: byte)
    requires Fits16(a) && Fits16(b)
    requires (a != b && x == y) || (a == b && x != y)
    ensures UpdateByte(a, x) != UpdateByte(b, y)
  {
    MixSeparates(a, b, x, y);
    UpdateByteIsShiftedMix(a, x);
    UpdateByteIsShiftedMix(b, y);
    ShiftStepsInjective(a ^ Octet(x), b ^ Octet(y), 8);
  }

  /** The outer loop keeps distinct 16-bit start registers distinct. */
  lemma {:induction false} FoldSeparatesStarts(a: bv32, b: bv32, data: seq<byte>)
    requires Fits16(a) && Fits16(b) && a != b
    ensures Fold(a, data) != Fold(b, data)
    decreases |data|
  {
    if |data| > 0 {
      UpdateByteInjective(a, b, data[0], data[0]);
      UpdateByteFits16(a, data[0]);
      UpdateByteFits16(b, data[0]);
      FoldSeparatesStarts(UpdateByte(a, data[0]), UpdateByte(b, data[0]), data[1..]);
    }
  }

  /** Two inputs of the same length that differ in exactly one octet have
      different CRCs, from any 16-bit start register. */
  lemma {:induction false} FoldDetectsOctetChange(crc: bv32, data: seq<byte>, k: nat, v: byte)
    requires Fits16(crc) && k < |data| && v != data[k]
    ensures Fold(crc, data) != Fold(crc, data[k := v])
    decreases |data|
  {
    var changed := data[k := v];
    if k == 0 {
      assert changed[1..] == data[1..];
      UpdateByteInjective(crc, crc, data[0], v);
      UpdateByteFits16(crc, data[0]);
      UpdateByteFits16(crc, v);
      FoldSeparatesStarts(UpdateByte(crc, data[0]), UpdateByte(crc, v), data[1..]);
    } else {
      assert changed[0] == data[0];
      assert changed[1..] == data[1..][k - 1 := v];
      UpdateByteFits16(crc, data[0]);
      FoldDetectsOctetChange(UpdateByte(crc, data[0]), data[1..], k - 1, v);
    }
  }

  /** Changing any one octet of the input changes `crc16_modbus`. */
  lemma Crc16DetectsOctetChange(data: seq<byte>, k: nat, v: byte)
    requires k < |data| && v != data[k]
    ensures Crc16(data) != Crc16(data[k := v])
  {
    FoldDetectsOctetChange(Preset, data, k, v);
    Crc16Register(data);
    Crc16Register(data[k := v]);
  }
}
