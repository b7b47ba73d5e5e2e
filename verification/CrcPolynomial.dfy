/** What the register computes: remainders of polynomials over the two-element field. */
module CrcPolynomial {
  import opened Crc32

  // ----- polynomials, by the coefficient of x^i

  /** The generator of CRC-32: x^32+x^26+x^23+x^22+x^16+x^12+x^11+x^10+x^8+x^7+x^5+x^4+x^2+x+1. */
  predicate Generator(i: int) {
    i in {32, 26, 23, 22, 16, 12, 11, 10, 8, 7, 5, 4, 2, 1, 0}
  }

  // The multiple of the generator by the sum of x^k for k in ks.
  predicate Multiple(ks: seq<nat>, i: int) {
    if ks == [] then false else Generator(i - ks[0]) != Multiple(ks[1..], i)
  }

  // The register, its lowest bit standing for x^31.
  predicate Value(c: bv32, i: int) {
    0 <= i < 32 && LowBits(c, 32)[31 - i]
  }

  // Bits, the first standing for the highest power.
  predicate Message(bits: seq<bool>, i: int) {
    0 <= i < |bits| && bits[|bits| - 1 - i]
  }

  // ----- the bits of a word

  lemma {:induction false} BitsXor(a: bv32, b: bv32, n: nat)
    ensures forall i :: 0 <= i < n ==> LowBits(Xor(a, b), n)[i] == (LowBits(a, n)[i] != LowBits(b, n)[i])
    decreases n
  {
    hide Xor, Half;
    if n > 0 {
      LowXor(a, b);
      HalfXor(a, b);
      BitsXor(Half(a), Half(b), n - 1);
    }
  }

  lemma {:induction false} BitsJoin(w: bv32, n: nat, m: nat)
    ensures LowBits(w, n + m) == LowBits(w, n) + LowBits(Halves(w, n), m)
    decreases n
  {
    hide Half;
    if n > 0 {
      BitsJoin(Half(w), n - 1, m);
    }
  }

  lemma {:induction false} HalvesJoin(w: bv32, n: nat, m: nat)
    ensures Halves(w, n + m) == Halves(Halves(w, n), m)
    decreases n
  {
    hide Half;
    if n > 0 {
      HalvesJoin(Half(w), n - 1, m);
    }
  }

  lemma EightHalves(w: bv32)
    ensures Halves(w, 8) == DropByte(w)
  {}

  lemma FourDrops(w: bv32)
    ensures DropByte(DropByte(DropByte(DropByte(w)))) == 0
  {}

  lemma NothingAbove(w: bv32)
    ensures Halves(w, 32) == 0
  {
    hide Halves, DropByte;
    HalvesJoin(w, 8, 24);
    HalvesJoin(Halves(w, 8), 8, 16);
    HalvesJoin(Halves(Halves(w, 8), 8), 8, 8);
    EightHalves(w);
    EightHalves(DropByte(w));
    EightHalves(DropByte(DropByte(w)));
    EightHalves(DropByte(DropByte(DropByte(w))));
    FourDrops(w);
  }

  lemma HalvesOnce(w: bv32, n: nat)
    ensures Halves(w, n + 1) == Halves(Half(w), n)
  {
    hide Half;
  }

  lemma BitsOnce(w: bv32, n: nat)
    ensures LowBits(w, n + 1) == [w & 1 == 1] + LowBits(Half(w), n)
  {
    hide Half;
  }

  lemma LastBit()
    ensures LowBits(0, 1) == [false]
  {}

  lemma BitsHalf(w: bv32)
    ensures LowBits(Half(w), 32) == LowBits(w, 32)[1..] + [false]
    ensures LowBits(w, 32)[0] == (w & 1 == 1)
  {
    hide Half, Halves, LowBits;
    BitsOnce(w, 31);
    BitsJoin(Half(w), 31, 1);
    HalvesOnce(w, 31);
    NothingAbove(w);
    LastBit();
  }

  lemma FourBytes(w: bv32)
    ensures LowBits(w, 32) == LowBits(w, 8) + LowBits(DropByte(w), 8) + LowBits(DropByte(DropByte(w)), 8)
                              + LowBits(DropByte(DropByte(DropByte(w))), 8)
  {
    hide LowBits, Halves, DropByte;
    BitsJoin(w, 8, 24);
    EightHalves(w);
    BitsJoin(DropByte(w), 8, 16);
    EightHalves(DropByte(w));
    BitsJoin(DropByte(DropByte(w)), 8, 8);
    EightHalves(DropByte(DropByte(w)));
  }

  lemma GeneratorDrops()
    ensures DropByte(POLYNOMIAL) == 0xEDB883 && DropByte(0xEDB883) == 0xEDB8 && DropByte(0xEDB8) == 0xED
  {}

  lemma LowestByte()
    ensures LowBits(POLYNOMIAL, 8) == [false, false, false, false, false, true, false, false]
  {}

  lemma SecondByte()
    ensures LowBits(0xEDB883, 8) == [true, true, false, false, false, false, false, true]
  {}

  lemma ThirdByte()
    ensures LowBits(0xEDB8, 8) == [false, false, false, true, true, true, false, true]
  {}

  lemma HighestByte()
    ensures LowBits(0xED, 8) == [true, false, true, true, false, true, true, true]
  {}

  /** The constant is the generator without its highest power, its bits reflected. */
  lemma GeneratorIs(i: int)
    requires 0 <= i < 32
    ensures Value(POLYNOMIAL, i) <==> Generator(i)
  {
    hide LowBits, DropByte;
    FourBytes(POLYNOMIAL);
    GeneratorDrops();
    LowestByte();
    SecondByte();
    ThirdByte();
    HighestByte();
  }

  // ----- the step and the run

  lemma OneBits(b: bool)
    ensures LowBits(BitWord(b), 32)[0] == b && forall i :: 1 <= i < 32 ==> !LowBits(BitWord(b), 32)[i]
  {
    hide LowBits, Half;
    BitsOnce(BitWord(b), 31);
    HalfOfBit(b);
    ZeroBits(31);
  }

  lemma HalfOfBit(b: bool)
    ensures Half(BitWord(b)) == 0 && (BitWord(b) & 1 == 1) == b
  {}

  lemma {:induction false} ZeroBits(n: nat)
    ensures forall i :: 0 <= i < n ==> !LowBits(0, n)[i]
  {
    if n > 0 { ZeroBits(n - 1); }
  }

  // A message bit is added at x^31.
  lemma AddBit(c: bv32, b: bool, i: int)
    ensures Value(Xor(c, BitWord(b)), i) == (Value(c, i) != (b && i == 31))
  {
    hide LowBits, Xor, BitWord;
    BitsXor(c, BitWord(b), 32);
    OneBits(b);
  }

  /** A shift multiplies by x, and takes the generator off if the product has x^32. */
  lemma ShiftIs(c: bv32, i: int)
    ensures Value(Shift(c), i) == (Value(c, i - 1) != (Value(c, 31) && Generator(i)))
  {
    hide LowBits, Xor, Half, Generator, Value, Shift;
    GeneratorRange(i);
    ShiftCases(c);
    HalfIs(c, i);
    SumIs(POLYNOMIAL, Half(c), i);
    ValueRange(c, i);
    ValueRange(Shift(c), i);
    LowestIs(c);
    if 0 <= i < 32 { GeneratorIs(i); }
  }

  lemma HalfIs(c: bv32, i: int)
    ensures Value(Half(c), i) == (i < 32 && Value(c, i - 1))
  {
    hide LowBits, Half;
    BitsHalf(c);
    if 0 <= i < 32 {
      var b, h := LowBits(c, 32), LowBits(Half(c), 32);
      assert h[31 - i] == (b[1..] + [false])[31 - i];
    }
  }

  lemma SumIs(c: bv32, d: bv32, i: int)
    ensures Value(Xor(c, d), i) == (Value(c, i) != Value(d, i))
  {
    hide LowBits, Xor;
    BitsXor(c, d, 32);
  }

  lemma ValueRange(c: bv32, i: int)
    ensures (Value(c, i) ==> 0 <= i < 32) && (Value(c, i - 1) ==> 1 <= i <= 32)
  {
    hide LowBits;
  }

  lemma LowestIs(c: bv32)
    ensures Value(c, 31) == (c & 1 == 1)
  {
    hide LowBits, Half;
    BitsHalf(c);
  }

  lemma ShiftCases(c: bv32)
    ensures Shift(c) == if c & 1 == 1 then Xor(POLYNOMIAL, Half(c)) else Half(c)
  {}

  lemma GeneratorRange(i: int)
    ensures Generator(i) ==> 0 <= i <= 32
    ensures Generator(32)
  {}

  lemma FirstBit(bits: seq<bool>, i: int)
    requires bits != []
    ensures Message(bits, i) == (Message(bits[1..], i) != (bits[0] && i == |bits| - 1))
  {}

  // Both sides of the division, one coefficient at a time.
  predicate Divides(c: bv32, bits: seq<bool>, ks: seq<nat>, i: int) {
    (Value(c, i - |bits|) != Message(bits, i - 32)) == (Multiple(ks, i) != Value(Serial(c, bits), i))
  }

  lemma DividesNext(c: bv32, bits: seq<bool>, js: seq<nat>, i: int)
    requires bits != [] && Divides(Shift(Xor(c, BitWord(bits[0]))), bits[1..], js, i)
    ensures var top := Value(Xor(c, BitWord(bits[0])), 31);
      Divides(c, bits, if top then [|bits| - 1] + js else js, i)
  {
    hide Value, Shift, Xor, BitWord, Generator, Message;
    var n, d := |bits|, Xor(c, BitWord(bits[0]));
    ShiftIs(d, i - (n - 1));
    AddBit(c, bits[0], i - n);
    FirstBit(bits, i - 32);
    assert ([n - 1] + js)[1..] == js;
  }

  /** The register after a message is the remainder, modulo the generator, of the message times x^32 plus
      the start times x^n for n bits: the two sides differ by a multiple of the generator, and the
      register has no power from x^32 on. */
  lemma IsRemainder(c: bv32, bits: seq<bool>) returns (ks: seq<nat>)
    ensures forall i {:trigger Multiple(ks, i)} ::
              (Value(c, i - |bits|) != Message(bits, i - 32)) == (Multiple(ks, i) != Value(Serial(c, bits), i))
    decreases |bits|
  {
    ks := Quotient(c, bits);
    forall i
      ensures (Value(c, i - |bits|) != Message(bits, i - 32)) == (Multiple(ks, i) != Value(Serial(c, bits), i))
    {
      hide Value, Message, Multiple, Serial;
      assert Divides(c, bits, ks, i);
    }
  }

  lemma {:induction false} Quotient(c: bv32, bits: seq<bool>) returns (ks: seq<nat>)
    ensures forall i :: Divides(c, bits, ks, i)
    decreases |bits|
  {
    hide Divides, Shift, Xor, BitWord, Value;
    if bits == [] {
      ks := [];
      forall i ensures Divides(c, bits, ks, i) {
        NoBitsDivide(c, i);
      }
    } else {
      var d := Xor(c, BitWord(bits[0]));
      var js := Quotient(Shift(d), bits[1..]);
      ks := if Value(d, 31) then [|bits| - 1] + js else js;
      forall i ensures Divides(c, bits, ks, i) {
        DividesNext(c, bits, js, i);
      }
    }
  }

  lemma NoBitsDivide(c: bv32, i: int)
    ensures Divides(c, [], [], i)
  {
    hide Value;
  }

  // ----- the check value

  lemma ByteStep(c: bv32, u: bv8, d: bv32)
    requires Shifts(Xor(c, u as bv32), 8) == d
    ensures Serial(c, MessageBits([u])) == d
  {
    hide Xor, Shifts, Serial, LowBits, Pack;
    assert [u][1..] == [] && MessageBits([u]) == LowBits(u as bv32, 8) + MessageBits([]);
    assert MessageBits([u]) == LowBits(u as bv32, 8);
    SerialPack(c, LowBits(u as bv32, 8));
    UnpackByte(u);
  }

  lemma NextByte(c: bv32, m: seq<bv8>, u: bv8, d: bv32, e: bv32)
    requires Serial(c, MessageBits(m)) == d && Shifts(Xor(d, u as bv32), 8) == e
    ensures Serial(c, MessageBits(m + [u])) == e
  {
    hide Xor, Shifts, Serial, MessageBits;
    MessageBitsJoin(m, [u]);
    SerialJoin(c, MessageBits(m), MessageBits([u]));
    ByteStep(d, u, e);
  }

  // The register along the digits, three at a time.
  lemma FirstRegisters()
    ensures Shifts(Xor(0xFFFFFFFF, 0x31), 8) == 0x7C231048
    ensures Shifts(Xor(0x7C231048, 0x32), 8) == 0xB0ACBB32
    ensures Shifts(Xor(0xB0ACBB32, 0x33), 8) == 0x77B79C2D
  {}

  lemma NextRegisters()
    ensures Shifts(Xor(0x77B79C2D, 0x34), 8) == 0x641C1F5C
    ensures Shifts(Xor(0x641C1F5C, 0x35), 8) == 0x340AC5E3
    ensures Shifts(Xor(0x340AC5E3, 0x36), 8) == 0xF68D2C9E
  {}

  lemma LastRegisters()
    ensures Shifts(Xor(0xF68D2C9E, 0x37), 8) == 0xAFFC9660
    ensures Shifts(Xor(0xAFFC9660, 0x38), 8) == 0x651F2550
    ensures Shifts(Xor(0x651F2550, 0x39), 8) == 0x340BC6D9
  {}

  const DIGITS: seq<bv8> := [0x31, 0x32, 0x33, 0x34, 0x35, 0x36, 0x37, 0x38, 0x39]

  /** The check value of CRC-32: the checksum of the digits "123456789". */
  lemma CheckValue()
    ensures Checksum(0, DIGITS) == 0xCBF4_3926
  {
    hide Shifts, Serial, MessageBits;
    var c: bv32 := 0xFFFF_FFFF;
    NoBits(c);
    FirstRegisters();
    NextRegisters();
    LastRegisters();
    NextByte(c, DIGITS[..0], 0x31, 0xFFFFFFFF, 0x7C231048);
    assert DIGITS[..0] + [0x31] == DIGITS[..1];
    NextByte(c, DIGITS[..1], 0x32, 0x7C231048, 0xB0ACBB32);
    assert DIGITS[..1] + [0x32] == DIGITS[..2];
    NextByte(c, DIGITS[..2], 0x33, 0xB0ACBB32, 0x77B79C2D);
    assert DIGITS[..2] + [0x33] == DIGITS[..3];
    NextByte(c, DIGITS[..3], 0x34, 0x77B79C2D, 0x641C1F5C);
    assert DIGITS[..3] + [0x34] == DIGITS[..4];
    NextByte(c, DIGITS[..4], 0x35, 0x641C1F5C, 0x340AC5E3);
    assert DIGITS[..4] + [0x35] == DIGITS[..5];
    NextByte(c, DIGITS[..5], 0x36, 0x340AC5E3, 0xF68D2C9E);
    assert DIGITS[..5] + [0x36] == DIGITS[..6];
    NextByte(c, DIGITS[..6], 0x37, 0xF68D2C9E, 0xAFFC9660);
    assert DIGITS[..6] + [0x37] == DIGITS[..7];
    NextByte(c, DIGITS[..7], 0x38, 0xAFFC9660, 0x651F2550);
    assert DIGITS[..7] + [0x38] == DIGITS[..8];
    NextByte(c, DIGITS[..8], 0x39, 0x651F2550, 0x340BC6D9);
    assert DIGITS[..8] + [0x39] == DIGITS[..9];
    assert DIGITS[..9] == DIGITS;
    Complements();
  }

  lemma Complements()
    ensures Xor(0, ALL_ONES) == 0xFFFF_FFFF && Xor(0x340B_C6D9, ALL_ONES) == 0xCBF4_3926
  {}
}
