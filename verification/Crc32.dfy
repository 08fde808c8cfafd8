// The bootloader's image checksum: the reflected CRC-32 of RFC 1952 section 8.
// Core/Src/bl_boot.c:17-27 computes it bit by bit.

module Crc32 {

  import opened Words

  type Bits8 = bv8

  const POLY: bv32 := 0xEDB88320
  const INIT: bv32 := 0xFFFFFFFF

  // ----- Word operations. Named, so that proofs below work on names and not on 32 bits -----

  function Xor(a: bv32, b: bv32): bv32 { a ^ b }

  function Half(c: bv32): bv32 { c >> 1 }

  predicate Odd(c: bv32) { c & 1 == 1 }

  function Widen(b: Bits8): bv32 { b as bv32 }

  function Up(r: bv32): bv32 { r << 8 }

  function Down(r: bv32): bv32 { r >> 8 }

  function XorByte(x: Bits8, y: Bits8): Bits8 { x ^ y }

  function Low(r: bv32): bv32 { r & 0xFF }

  predicate TopByteClear(r: bv32) { r >> 24 == 0 }

  // ----- The checksum -----

  // One turn of the inner loop: shift right, fold the polynomial in if a one fell out.
  function BitStep(c: bv32): bv32 {
    if Odd(c) then Xor(Half(c), POLY) else Half(c)
  }

  function BitSteps(c: bv32, n: nat): bv32 {
    if n == 0 then c else BitStep(BitSteps(c, n - 1))
  }

  function ByteStep(c: bv32, b: Bits8): bv32 {
    BitSteps(Xor(c, Widen(b)), 8)
  }

  // The register after all of `data`, starting from `c`.
  function Register(c: bv32, data: seq<Bits8>): bv32 {
    if data == [] then c
    else ByteStep(Register(c, data[..|data| - 1]), data[|data| - 1])
  }

  function CrcOfBits(data: seq<Bits8>): bv32 {
    Xor(Register(INIT, data), INIT)
  }

  // ----- A byte as eight bits, and back -----

  function Pow2(k: nat): (p: nat)
    ensures p > 0
  {
    if k == 0 then 1 else 2 * Pow2(k - 1)
  }

  // The number written with these binary digits, highest first.
  function Weight(digits: seq<bool>): (n: nat)
    ensures n < Pow2(|digits|)
  {
    if digits == [] then 0
    else 2 * Weight(digits[..|digits| - 1]) + if digits[|digits| - 1] then 1 else 0
  }

  function Digits(n: nat, k: nat): (digits: seq<bool>)
    ensures |digits| == k
  {
    if k == 0 then [] else Digits(n / 2, k - 1) + [n % 2 == 1]
  }

  lemma {:induction false} WeightOfDigits(n: nat, k: nat)
    requires n < Pow2(k)
    ensures Weight(Digits(n, k)) == n
  {
    if k != 0 {
      WeightOfDigits(n / 2, k - 1);
      assert Digits(n, k)[..k - 1] == Digits(n / 2, k - 1);
    }
  }

  lemma {:induction false} DigitsOfWeight(digits: seq<bool>)
    ensures Digits(Weight(digits), |digits|) == digits
  {
    if digits != [] {
      DigitsOfWeight(digits[..|digits| - 1]);
    }
  }

  lemma EightDigits()
    ensures Pow2(8) == 0x100
  {
    assert Pow2(4) == 2 * Pow2(3) == 4 * Pow2(2) == 8 * Pow2(1) == 16;
    assert Pow2(8) == 2 * Pow2(7) == 4 * Pow2(6) == 8 * Pow2(5) == 16 * Pow2(4);
  }

  function Pack8(b7: bool, b6: bool, b5: bool, b4: bool, b3: bool, b2: bool, b1: bool, b0: bool): Bits8 {
    (if b7 then 0x80 else 0) | (if b6 then 0x40 else 0) | (if b5 then 0x20 else 0) | (if b4 then 0x10 else 0)
    | (if b3 then 0x08 else 0) | (if b2 then 0x04 else 0) | (if b1 then 0x02 else 0) | (if b0 then 0x01 else 0)
  }

  function Pack(d: seq<bool>): Bits8
    requires |d| == 8
  {
    Pack8(d[0], d[1], d[2], d[3], d[4], d[5], d[6], d[7])
  }

  predicate Has(b: Bits8, mask: Bits8) { b & mask != 0 }

  function Unpack(b: Bits8): (d: seq<bool>)
    ensures |d| == 8
  {
    [Has(b, 0x80), Has(b, 0x40), Has(b, 0x20), Has(b, 0x10), Has(b, 0x08), Has(b, 0x04), Has(b, 0x02), Has(b, 0x01)]
  }

  lemma PackUnpack(b: Bits8)
    ensures Pack(Unpack(b)) == b
  {
  }

  lemma UnpackPack(d: seq<bool>)
    requires |d| == 8
    ensures Unpack(Pack(d)) == d
  {
    hide Pack8, Has;
    PackedBits(d[0], d[1], d[2], d[3], d[4], d[5], d[6], d[7]);
  }

  lemma PackedBits(b7: bool, b6: bool, b5: bool, b4: bool, b3: bool, b2: bool, b1: bool, b0: bool)
    ensures var b := Pack8(b7, b6, b5, b4, b3, b2, b1, b0);
            && Has(b, 0x80) == b7 && Has(b, 0x40) == b6 && Has(b, 0x20) == b5 && Has(b, 0x10) == b4
            && Has(b, 0x08) == b3 && Has(b, 0x04) == b2 && Has(b, 0x02) == b1 && Has(b, 0x01) == b0
  {
  }

  function ToBits(o: Octet): Bits8 {
    Pack(Digits(o, 8))
  }

  function FromBits(b: Bits8): Octet {
    EightDigits();
    Weight(Unpack(b))
  }

  lemma FromToBits(o: Octet)
    ensures FromBits(ToBits(o)) == o
  {
    hide Pack, Unpack, Weight, Digits;
    UnpackPack(Digits(o, 8));
    EightDigits();
    WeightOfDigits(o, 8);
  }

  lemma ToFromBits(b: Bits8)
    ensures ToBits(FromBits(b)) == b
  {
    hide Pack, Unpack, Weight, Digits;
    PackUnpack(b);
    DigitsOfWeight(Unpack(b));
  }

  // The value of a byte, bit by bit.
  function BitValues(b: Bits8): nat {
    (if Has(b, 0x80) then 0x80 else 0) + (if Has(b, 0x40) then 0x40 else 0)
    + (if Has(b, 0x20) then 0x20 else 0) + (if Has(b, 0x10) then 0x10 else 0)
    + (if Has(b, 0x08) then 0x08 else 0) + (if Has(b, 0x04) then 0x04 else 0)
    + (if Has(b, 0x02) then 0x02 else 0) + (if Has(b, 0x01) then 0x01 else 0)
  }

  lemma WeightNext(d: seq<bool>, k: nat)
    requires k < |d|
    ensures Weight(d[..k + 1]) == 2 * Weight(d[..k]) + if d[k] then 1 else 0
  {
    assert d[..k + 1][..k] == d[..k];
  }

  // A byte is the sum of its bits.
  lemma BitsAreWorth(b: Bits8)
    ensures FromBits(b) == BitValues(b)
  {
    hide Has, Weight;
    var d := Unpack(b);
    NothingWeighs();
    assert d[..0] == [] && d[..8] == d;
    WeightNext(d, 0);
    WeightNext(d, 1);
    WeightNext(d, 2);
    WeightNext(d, 3);
    WeightNext(d, 4);
    WeightNext(d, 5);
    WeightNext(d, 6);
    WeightNext(d, 7);
  }

  lemma NothingWeighs()
    ensures Weight([]) == 0
  {
  }

  lemma ByteIs(b: Bits8, o: Octet)
    requires BitValues(b) == o
    ensures FromBits(b) == o && ToBits(o) == b
  {
    hide ToBits, FromBits;
    BitsAreWorth(b);
    ToFromBits(b);
  }

  function AllBits(data: seq<Octet>): (bits: seq<Bits8>)
    ensures |bits| == |data|
    ensures forall i :: 0 <= i < |data| ==> bits[i] == ToBits(data[i])
  {
    seq(|data|, i requires 0 <= i < |data| => ToBits(data[i]))
  }

  function Crc(data: seq<Octet>): bv32 {
    CrcOfBits(AllBits(data))
  }

  // The mask of the source: all of the polynomial if a one fell out, nothing otherwise.
  function Mask(c: bv32): bv32 { POLY & (0 - (c & 1)) }

  lemma MaskValue(c: bv32)
    ensures Mask(c) == if Odd(c) then POLY else 0
  {
  }

  // The inner loop body as the source spells it.
  function MaskedStep(c: bv32): bv32 {
    Xor(Half(c), Mask(c))
  }

  lemma MaskIsConditional(c: bv32)
    ensures MaskedStep(c) == BitStep(c)
  {
    MaskValue(c);
    XorZero(Half(c));
  }

  // bl_crc32, with both loops of the source.
  method ComputeCrc(data: seq<Octet>) returns (crc: bv32)
    ensures crc == Crc(data)
  {
    hide ToBits;
    ghost var bits := AllBits(data);
    crc := INIT;
    for i := 0 to |data|
      invariant crc == Register(INIT, bits[..i])
    {
      crc := Xor(crc, Widen(ToBits(data[i])));
      ghost var fed := crc;
      for b := 0 to 8
        invariant crc == BitSteps(fed, b)
      {
        MaskIsConditional(crc);
        crc := MaskedStep(crc);
      }
      assert bits[..i + 1][..i] == bits[..i];
    }
    assert bits[..|data|] == bits;
    crc := Xor(crc, INIT);
  }

  // ----- Exclusive or -----

  lemma XorAssociates(a: bv32, b: bv32, c: bv32)
    ensures Xor(a, Xor(b, c)) == Xor(Xor(a, b), c)
  {
  }

  lemma XorCommutes(a: bv32, b: bv32)
    ensures Xor(a, b) == Xor(b, a)
  {
  }

  lemma XorZero(a: bv32)
    ensures Xor(0, a) == a && Xor(a, 0) == a
  {
  }

  lemma XorAlike(a: bv32)
    ensures Xor(a, a) == 0
  {
  }

  lemma XorSelf(a: bv32, b: bv32)
    ensures Xor(a, b) == 0 <==> a == b
  {
    hide Xor;
    XorAlike(a);
    XorTwice(a, b);
    XorZero(b);
  }

  lemma XorCancels(a: bv32, b: bv32, p: bv32)
    requires Xor(a, p) == Xor(b, p)
    ensures a == b
  {
  }

  lemma XorRegroups(a: bv32, b: bv32, c: bv32, d: bv32)
    ensures Xor(Xor(a, b), Xor(c, d)) == Xor(Xor(a, c), Xor(b, d))
  {
    XorAssociates(a, b, Xor(c, d));
    XorAssociates(b, c, d);
    XorCommutes(b, c);
    XorAssociates(c, b, d);
    XorAssociates(a, c, Xor(b, d));
  }

  // ----- The register is a linear and injective function of what is fed to it -----

  lemma HalfXor(a: bv32, b: bv32)
    ensures Half(Xor(a, b)) == Xor(Half(a), Half(b))
  {
  }

  lemma OddXor(a: bv32, b: bv32)
    ensures Odd(Xor(a, b)) == (Odd(a) != Odd(b))
  {
  }

  lemma XorTwice(a: bv32, p: bv32)
    ensures Xor(Xor(a, p), p) == a
  {
  }

  lemma BitStepLinear(a: bv32, b: bv32)
    ensures BitStep(Xor(a, b)) == Xor(BitStep(a), BitStep(b))
  {
    HalfXor(a, b);
    OddXor(a, b);
    var x, y := Half(a), Half(b);
    XorAssociates(x, y, POLY);
    XorAssociates(x, POLY, y);
    XorCommutes(POLY, y);
    XorAssociates(Xor(x, POLY), y, POLY);
    XorTwice(Xor(x, y), POLY);
  }

  lemma {:induction false} BitStepsLinear(a: bv32, b: bv32, n: nat)
    ensures BitSteps(Xor(a, b), n) == Xor(BitSteps(a, n), BitSteps(b, n))
  {
    if n != 0 {
      BitStepsLinear(a, b, n - 1);
      BitStepLinear(BitSteps(a, n - 1), BitSteps(b, n - 1));
    }
  }

  lemma BitStepInjective(a: bv32, b: bv32)
    requires BitStep(a) == BitStep(b)
    ensures a == b
  {
  }

  lemma {:induction false} BitStepsInjective(a: bv32, b: bv32, n: nat)
    requires BitSteps(a, n) == BitSteps(b, n)
    ensures a == b
  {
    if n != 0 {
      BitStepInjective(BitSteps(a, n - 1), BitSteps(b, n - 1));
      BitStepsInjective(a, b, n - 1);
    }
  }

  lemma {:induction false} BitStepsOfZero(n: nat)
    ensures BitSteps(0, n) == 0
  {
    if n != 0 {
      BitStepsOfZero(n - 1);
    }
  }

  lemma {:induction false} BitStepsSum(c: bv32, m: nat, n: nat)
    ensures BitSteps(c, m + n) == BitSteps(BitSteps(c, m), n)
  {
    if n != 0 {
      BitStepsSum(c, m, n - 1);
    }
  }

  // A register whose low byte is clear loses only zeros in eight steps.
  lemma FirstNibbleFallsOut(r: bv32)
    ensures !Odd(Up(r)) && !Odd(Half(Up(r))) && !Odd(Half(Half(Up(r)))) && !Odd(Half(Half(Half(Up(r)))))
  {
  }

  lemma SecondNibbleFallsOut(r: bv32)
    ensures !Odd(r << 4) && !Odd(Half(r << 4)) && !Odd(Half(Half(r << 4))) && !Odd(Half(Half(Half(r << 4))))
  {
  }

  lemma NibblesShift(r: bv32)
    requires TopByteClear(r)
    ensures Half(Half(Half(Half(Up(r))))) == r << 4
    ensures Half(Half(Half(Half(r << 4)))) == r
  {
  }

  lemma FourStepsShift(w: bv32)
    requires !Odd(w) && !Odd(Half(w)) && !Odd(Half(Half(w))) && !Odd(Half(Half(Half(w))))
    ensures BitSteps(w, 4) == Half(Half(Half(Half(w))))
  {
    assert BitSteps(w, 1) == BitStep(w) == Half(w);
    assert BitSteps(w, 2) == BitStep(Half(w)) == Half(Half(w));
    assert BitSteps(w, 3) == BitStep(Half(Half(w))) == Half(Half(Half(w)));
  }

  // Eight steps over a register whose low byte is clear only shift it.
  lemma LowByteClear(r: bv32)
    requires TopByteClear(r)
    ensures BitSteps(Up(r), 8) == r
  {
    FirstNibbleFallsOut(r);
    SecondNibbleFallsOut(r);
    NibblesShift(r);
    FourStepsShift(Up(r));
    FourStepsShift(r << 4);
    BitStepsSum(Up(r), 4, 4);
  }

  // ----- A known value -----

  function EightTimes(c: bv32): bv32 {
    BitStep(BitStep(BitStep(BitStep(BitStep(BitStep(BitStep(BitStep(c))))))))
  }

  lemma EightSteps(c: bv32)
    ensures BitSteps(c, 8) == EightTimes(c)
  {
    assert BitSteps(c, 1) == BitStep(c);
    assert BitSteps(c, 3) == BitStep(BitStep(BitStep(c)));
    assert BitSteps(c, 5) == BitStep(BitStep(BitSteps(c, 3)));
    assert BitSteps(c, 7) == BitStep(BitStep(BitSteps(c, 5)));
  }

  lemma OneByteOn(data: seq<Bits8>, k: nat, before: bv32, after: bv32)
    requires k < |data| && Register(INIT, data[..k]) == before && EightTimes(Xor(before, Widen(data[k]))) == after
    ensures Register(INIT, data[..k + 1]) == after
  {
    hide BitStep, Xor, Widen;
    EightSteps(Xor(before, Widen(data[k])));
    assert data[..k + 1][..k] == data[..k];
  }

  lemma FirstDigits()
    ensures EightTimes(Xor(0xFFFF_FFFF, Widen(0x31))) == 0x7C23_1048
    ensures EightTimes(Xor(0x7C23_1048, Widen(0x32))) == 0xB0AC_BB32
    ensures EightTimes(Xor(0xB0AC_BB32, Widen(0x33))) == 0x77B7_9C2D
  {
  }

  lemma MiddleDigits()
    ensures EightTimes(Xor(0x77B7_9C2D, Widen(0x34))) == 0x641C_1F5C
    ensures EightTimes(Xor(0x641C_1F5C, Widen(0x35))) == 0x340A_C5E3
    ensures EightTimes(Xor(0x340A_C5E3, Widen(0x36))) == 0xF68D_2C9E
  {
  }

  lemma LastDigits()
    ensures EightTimes(Xor(0xF68D_2C9E, Widen(0x37))) == 0xAFFC_9660
    ensures EightTimes(Xor(0xAFFC_9660, Widen(0x38))) == 0x651F_2550
    ensures EightTimes(Xor(0x651F_2550, Widen(0x39))) == 0x340B_C6D9
  {
  }

  const NINE_DIGITS: seq<Octet> := [0x31, 0x32, 0x33, 0x34, 0x35, 0x36, 0x37, 0x38, 0x39]

  lemma NineDigitsBits()
    ensures AllBits(NINE_DIGITS) == [0x31, 0x32, 0x33, 0x34, 0x35, 0x36, 0x37, 0x38, 0x39]
  {
    hide ToBits, FromBits;
    ByteIs(0x31, 0x31);
    ByteIs(0x32, 0x32);
    ByteIs(0x33, 0x33);
    ByteIs(0x34, 0x34);
    ByteIs(0x35, 0x35);
    ByteIs(0x36, 0x36);
    ByteIs(0x37, 0x37);
    ByteIs(0x38, 0x38);
    ByteIs(0x39, 0x39);
  }

  lemma NothingFed()
    ensures Register(INIT, []) == INIT
  {
  }

  // The check value of this checksum: that of the nine digits 1 to 9.
  lemma CheckValue()
    ensures Crc(NINE_DIGITS) == 0xCBF4_3926
  {
    hide ToBits, EightTimes, BitStep, Register;
    NineDigitsBits();
    NothingFed();
    FirstDigits();
    MiddleDigits();
    LastDigits();
    var d := AllBits(NINE_DIGITS);
    assert d[..0] == [] && d[..9] == d;
    OneByteOn(d, 0, 0xFFFF_FFFF, 0x7C23_1048);
    OneByteOn(d, 1, 0x7C23_1048, 0xB0AC_BB32);
    OneByteOn(d, 2, 0xB0AC_BB32, 0x77B7_9C2D);
    OneByteOn(d, 3, 0x77B7_9C2D, 0x641C_1F5C);
    OneByteOn(d, 4, 0x641C_1F5C, 0x340A_C5E3);
    OneByteOn(d, 5, 0x340A_C5E3, 0xF68D_2C9E);
    OneByteOn(d, 6, 0xF68D_2C9E, 0xAFFC_9660);
    OneByteOn(d, 7, 0xAFFC_9660, 0x651F_2550);
    OneByteOn(d, 8, 0x651F_2550, 0x340B_C6D9);
  }

  // ----- Agreement with the table-driven form of RFC 1952 section 8 -----

  function TableEntry(n: bv32): bv32 {
    BitSteps(n, 8)
  }

  function TableStep(c: bv32, b: Bits8): bv32 {
    Xor(TableEntry(Low(Xor(c, Widen(b)))), Down(c))
  }

  function TableRegister(c: bv32, data: seq<Bits8>): bv32
    decreases |data|
  {
    if data == [] then c else TableRegister(TableStep(c, data[0]), data[1..])
  }

  lemma SplitLowByte(x: bv32)
    ensures x == Xor(Low(x), Up(Down(x)))
    ensures TopByteClear(Down(x))
  {
  }

  lemma ByteBelow(c: bv32, b: Bits8)
    ensures Down(Xor(c, Widen(b))) == Down(c)
  {
  }

  lemma TableStepIsByteStep(c: bv32, b: Bits8)
    ensures TableStep(c, b) == ByteStep(c, b)
  {
    var x := Xor(c, Widen(b));
    SplitLowByte(x);
    BitStepsLinear(Low(x), Up(Down(x)), 8);
    LowByteClear(Down(x));
    ByteBelow(c, b);
  }

  lemma {:induction false} RegisterConcat(c: bv32, s: seq<Bits8>, t: seq<Bits8>)
    ensures Register(c, s + t) == Register(Register(c, s), t)
  {
    if t == [] {
      assert s + t == s;
    } else {
      var u := t[..|t| - 1];
      assert (s + t)[..|s + t| - 1] == s + u;
      RegisterConcat(c, s, u);
    }
  }

  // The tester's byte-wise table loop and the bootloader's bit loop compute the same register.
  lemma {:induction false} TableFormAgrees(c: bv32, data: seq<Bits8>)
    ensures TableRegister(c, data) == Register(c, data)
    decreases |data|
  {
    if data != [] {
      TableStepIsByteStep(c, data[0]);
      TableFormAgrees(ByteStep(c, data[0]), data[1..]);
      assert [data[0]][..0] == [];
      assert Register(c, [data[0]]) == ByteStep(c, data[0]);
      RegisterConcat(c, [data[0]], data[1..]);
      assert [data[0]] + data[1..] == data;
    }
  }

  // ----- Strength: no burst of up to four bytes goes unnoticed -----

  lemma WidenXor(x: Bits8, y: Bits8)
    ensures Widen(XorByte(x, y)) == Xor(Widen(x), Widen(y))
  {
  }

  // How the difference of two registers moves when each takes one byte.
  lemma DifferenceStep(c: bv32, d: bv32, x: Bits8, y: Bits8)
    ensures Xor(ByteStep(c, x), ByteStep(d, y)) == ByteStep(Xor(c, d), XorByte(x, y))
  {
    WidenXor(x, y);
    XorRegroups(c, Widen(x), d, Widen(y));
    BitStepsLinear(Xor(c, Widen(x)), Xor(d, Widen(y)), 8);
  }

  lemma ByteStepInjective(c: bv32, d: bv32, x: Bits8)
    requires ByteStep(c, x) == ByteStep(d, x)
    ensures c == d
  {
    BitStepsInjective(Xor(c, Widen(x)), Xor(d, Widen(x)), 8);
    XorCancels(c, d, Widen(x));
  }

  // Feeding a byte to a register that still holds later bytes above it: the eight
  // steps act on the low byte and move the later bytes down.
  lemma FeedThenShift(e: bv32, x: Bits8, r: bv32)
    requires TopByteClear(r)
    ensures BitSteps(Xor(Xor(e, Widen(x)), Up(r)), 8) == Xor(ByteStep(e, x), r)
  {
    BitStepsLinear(Xor(e, Widen(x)), Up(r), 8);
    LowByteClear(r);
  }

  // x fed on top of the packed later bytes r
  function Stack(x: Bits8, r: bv32): bv32 {
    Xor(Widen(x), Up(r))
  }

  lemma StackFacts(x0: Bits8, x1: Bits8, x2: Bits8, x3: Bits8)
    ensures TopByteClear(Widen(x3))
    ensures TopByteClear(Stack(x2, Widen(x3)))
    ensures TopByteClear(Stack(x1, Stack(x2, Widen(x3))))
    ensures Stack(x0, Stack(x1, Stack(x2, Widen(x3)))) == 0 ==> x0 == x1 == x2 == x3 == 0
  {
  }

  lemma FeedStack(e: bv32, x: Bits8, r: bv32)
    requires TopByteClear(r)
    ensures BitSteps(Xor(e, Stack(x, r)), 8) == Xor(ByteStep(e, x), r)
  {
    XorAssociates(e, Widen(x), Up(r));
    FeedThenShift(e, x, r);
  }

  function FourBytes(x0: Bits8, x1: Bits8, x2: Bits8, x3: Bits8): bv32 {
    ByteStep(ByteStep(ByteStep(ByteStep(0, x0), x1), x2), x3)
  }

  // Feeding four bytes one at a time is eight steps, four times, on the packed word.
  lemma FourBytesPacked(x0: Bits8, x1: Bits8, x2: Bits8, x3: Bits8)
    ensures FourBytes(x0, x1, x2, x3) ==
            BitSteps(BitSteps(BitSteps(BitSteps(Stack(x0, Stack(x1, Stack(x2, Widen(x3)))), 8), 8), 8), 8)
  {
    StackFacts(x0, x1, x2, x3);
    var r3 := Widen(x3);
    var r2 := Stack(x2, r3);
    var r1 := Stack(x1, r2);
    XorZero(Stack(x0, r1));
    FeedStack(0, x0, r1);
    FeedStack(ByteStep(0, x0), x1, r2);
    FeedStack(ByteStep(ByteStep(0, x0), x1), x2, r3);
  }

  lemma FourBytesDetected(x0: Bits8, x1: Bits8, x2: Bits8, x3: Bits8)
    requires FourBytes(x0, x1, x2, x3) == 0
    ensures x0 == x1 == x2 == x3 == 0
  {
    FourBytesPacked(x0, x1, x2, x3);
    var w := Stack(x0, Stack(x1, Stack(x2, Widen(x3))));
    BitStepsOfZero(8);
    BitStepsInjective(BitSteps(BitSteps(BitSteps(w, 8), 8), 8), 0, 8);
    BitStepsInjective(BitSteps(BitSteps(w, 8), 8), 0, 8);
    BitStepsInjective(BitSteps(w, 8), 0, 8);
    BitStepsInjective(w, 0, 8);
    StackFacts(x0, x1, x2, x3);
  }

  // Once two registers differ, equal further bytes never bring them together again.
  lemma {:induction false} DifferencePersists(a: seq<Bits8>, b: seq<Bits8>, k: nat)
    requires |a| == |b| && k <= |a|
    requires a[k..] == b[k..]
    requires Register(INIT, a[..k]) != Register(INIT, b[..k])
    ensures Register(INIT, a) != Register(INIT, b)
    decreases |a| - k
  {
    if k == |a| {
      assert a[..k] == a && b[..k] == b;
    } else {
      assert a[k] == a[k..][0] == b[k..][0] == b[k];
      assert a[k + 1..] == a[k..][1..] == b[k..][1..] == b[k + 1..];
      assert a[..k + 1][..k] == a[..k] && b[..k + 1][..k] == b[..k];
      if Register(INIT, a[..k + 1]) == Register(INIT, b[..k + 1]) {
        ByteStepInjective(Register(INIT, a[..k]), Register(INIT, b[..k]), a[k]);
      }
      DifferencePersists(a, b, k + 1);
    }
  }

  function Difference(a: seq<Bits8>, b: seq<Bits8>, k: nat): bv32
    requires k <= |a| && k <= |b|
  {
    Xor(Register(INIT, a[..k]), Register(INIT, b[..k]))
  }

  lemma DifferenceNext(a: seq<Bits8>, b: seq<Bits8>, k: nat)
    requires k < |a| && k < |b|
    ensures Difference(a, b, k + 1) == ByteStep(Difference(a, b, k), XorByte(a[k], b[k]))
  {
    assert a[..k + 1][..k] == a[..k] && b[..k + 1][..k] == b[..k];
    DifferenceStep(Register(INIT, a[..k]), Register(INIT, b[..k]), a[k], b[k]);
  }

  lemma SameBytes(x: Bits8, y: Bits8)
    ensures XorByte(x, y) == 0 <==> x == y
  {
  }

  lemma ZeroByteInFront(ds: seq<Bits8>)
    ensures Register(0, [0] + ds) == Register(0, ds)
  {
    BitStepsOfZero(8);
    XorZero(Widen(0));
    assert [0 as Bits8][..0] == [];
    RegisterConcat(0, [0], ds);
  }

  lemma FourRegister(ds: seq<Bits8>)
    requires |ds| == 4
    ensures Register(0, ds) == FourBytes(ds[0], ds[1], ds[2], ds[3])
  {
    var d3 := ds[..3];
    var d2 := d3[..2];
    var d1 := d2[..1];
    assert Register(0, d1) == ByteStep(0, ds[0]) by { assert d1[..0] == []; }
    assert Register(0, d2) == ByteStep(Register(0, d1), ds[1]);
    assert Register(0, d3) == ByteStep(Register(0, d2), ds[2]);
    assert Register(0, ds) == ByteStep(Register(0, d3), ds[3]);
  }

  // At most four bytes fed to a zero register leave it zero only if they are all zero.
  lemma {:induction false} ShortDetected(ds: seq<Bits8>)
    requires |ds| <= 4 && Register(0, ds) == 0
    ensures forall k :: 0 <= k < |ds| ==> ds[k] == 0
    decreases 4 - |ds|
  {
    if |ds| == 4 {
      FourRegister(ds);
      FourBytesDetected(ds[0], ds[1], ds[2], ds[3]);
    } else {
      ZeroByteInFront(ds);
      ShortDetected([0] + ds);
      forall k | 0 <= k < |ds|
        ensures ds[k] == 0
      {
        assert ([0] + ds)[k + 1] == ds[k];
      }
    }
  }

  function Deltas(a: seq<Bits8>, b: seq<Bits8>, lo: nat, hi: nat): (ds: seq<Bits8>)
    requires lo <= hi <= |a| && hi <= |b|
    ensures |ds| == hi - lo
    ensures forall k :: lo <= k < hi ==> ds[k - lo] == XorByte(a[k], b[k])
  {
    seq(hi - lo, i requires 0 <= i < hi - lo => XorByte(a[lo + i], b[lo + i]))
  }

  lemma EqualPrefixes(a: seq<Bits8>, b: seq<Bits8>, k: nat)
    requires k <= |a| && k <= |b| && a[..k] == b[..k]
    ensures Difference(a, b, k) == 0
  {
    XorSelf(Register(INIT, a[..k]), Register(INIT, b[..k]));
  }

  // The difference after a window is what the byte differences alone make of zero.
  lemma {:induction false} WindowDifference(a: seq<Bits8>, b: seq<Bits8>, lo: nat, hi: nat)
    requires lo <= hi <= |a| && hi <= |b| && a[..lo] == b[..lo]
    ensures Difference(a, b, hi) == Register(0, Deltas(a, b, lo, hi))
    decreases hi
  {
    hide ByteStep, XorByte, Xor;
    if hi == lo {
      EqualPrefixes(a, b, lo);
    } else {
      WindowDifference(a, b, lo, hi - 1);
      DifferenceNext(a, b, hi - 1);
      var ds := Deltas(a, b, lo, hi);
      assert ds[..|ds| - 1] == Deltas(a, b, lo, hi - 1);
    }
  }

  // The difference after a window of at most four bytes vanishes only if the window agrees.
  lemma WindowDetected(a: seq<Bits8>, b: seq<Bits8>, lo: nat, hi: nat)
    requires lo <= hi <= |a| && hi <= |b| && hi - lo <= 4
    requires a[..lo] == b[..lo]
    requires Difference(a, b, hi) == 0
    ensures forall k :: lo <= k < hi ==> a[k] == b[k]
  {
    WindowDifference(a, b, lo, hi);
    ShortDetected(Deltas(a, b, lo, hi));
    forall k | lo <= k < hi
      ensures a[k] == b[k]
    {
      assert Deltas(a, b, lo, hi)[k - lo] == XorByte(a[k], b[k]);
      SameBytes(a[k], b[k]);
    }
  }

  // Two images of one length that differ, and only inside four consecutive bytes,
  // never have the same checksum.
  lemma BitsBurstDetected(a: seq<Bits8>, b: seq<Bits8>, lo: nat)
    requires |a| == |b| && a != b
    requires forall k :: 0 <= k < |a| && !(lo <= k < lo + 4) ==> a[k] == b[k]
    ensures CrcOfBits(a) != CrcOfBits(b)
  {
    assert lo < |a|;
    var hi := if lo + 4 <= |a| then lo + 4 else |a|;
    assert a[..lo] == b[..lo];
    assert a[hi..] == b[hi..];
    var ra, rb := Register(INIT, a), Register(INIT, b);
    if CrcOfBits(a) == CrcOfBits(b) {
      XorCancels(ra, rb, INIT);
    }
    if Difference(a, b, hi) == 0 {
      WindowDetected(a, b, lo, hi);
    } else {
      XorSelf(Register(INIT, a[..hi]), Register(INIT, b[..hi]));
      DifferencePersists(a, b, hi);
    }
  }

  lemma BurstDetected(a: seq<Octet>, b: seq<Octet>, lo: nat)
    requires |a| == |b| && a != b
    requires forall k :: 0 <= k < |a| && !(lo <= k < lo + 4) ==> a[k] == b[k]
    ensures Crc(a) != Crc(b)
  {
    hide ToBits, FromBits, CrcOfBits;
    var k :| 0 <= k < |a| && a[k] != b[k];
    FromToBits(a[k]);
    FromToBits(b[k]);
    assert AllBits(a)[k] != AllBits(b)[k];
    BitsBurstDetected(AllBits(a), AllBits(b), lo);
  }
}
