// The table-driven CRC-32 of WebRtc_AMP_Port/webrtc/base/crc32.cc, checked against the
// register that takes the message one bit at a time, lowest bit of each byte first
// (section 8 of RFC 1952 gives the table form).
module Crc32 {

  const POLYNOMIAL: bv32 := 0xEDB8_8320
  const ALL_ONES: bv32 := 0xFFFF_FFFF

  function Xor(a: bv32, b: bv32): bv32 {
    a ^ b
  }

  function Half(a: bv32): bv32 {
    a >> 1
  }

  function Twice(a: bv32): bv32 {
    a << 1
  }

  /** One step of the shift register with no input. */
  function Shift(c: bv32): bv32 {
    if c & 1 == 1 then Xor(POLYNOMIAL, Half(c)) else Half(c)
  }

  function Shifts(c: bv32, n: nat): bv32
    decreases n
  {
    if n == 0 then c else Shifts(Shift(c), n - 1)
  }

  function BitWord(b: bool): bv32 {
    if b then 1 else 0
  }

  /** The bit-serial CRC: each bit is added to the low end of the register, which then shifts. */
  function Serial(c: bv32, bits: seq<bool>): bv32
    decreases |bits|
  {
    if bits == [] then c else Serial(Shift(Xor(c, BitWord(bits[0]))), bits[1..])
  }

  /** The `n` low bits of `w`, lowest first. */
  function LowBits(w: bv32, n: nat): (r: seq<bool>)
    ensures |r| == n
    decreases n
  {
    if n == 0 then [] else [w & 1 == 1] + LowBits(Half(w), n - 1)
  }

  function MessageBits(m: seq<bv8>): (r: seq<bool>)
    ensures |r| == 8 * |m|
  {
    if m == [] then [] else LowBits(m[0] as bv32, 8) + MessageBits(m[1..])
  }

  /** The checksum of the message, by the bit-serial register. */
  function Checksum(start: bv32, m: seq<bv8>): bv32 {
    Xor(Serial(Xor(start, ALL_ONES), MessageBits(m)), ALL_ONES)
  }

  // ---- words ----

  lemma LowXor(a: bv32, b: bv32)
    ensures Xor(a, b) & 1 == 1 <==> (a & 1 == 1) != (b & 1 == 1)
  {}

  lemma HalfXor(a: bv32, b: bv32)
    ensures Half(Xor(a, b)) == Xor(Half(a), Half(b))
  {}

  lemma XorAssoc(p: bv32, a: bv32, b: bv32)
    ensures Xor(p, Xor(a, b)) == Xor(Xor(p, a), b)
  {}

  lemma XorSwap(p: bv32, a: bv32, b: bv32)
    ensures Xor(a, Xor(p, b)) == Xor(p, Xor(a, b))
  {}

  lemma XorBack(p: bv32, a: bv32)
    ensures Xor(Xor(p, a), p) == a
  {}

  lemma XorPair(p: bv32, a: bv32, b: bv32)
    ensures Xor(Xor(p, a), Xor(p, b)) == Xor(a, b)
  {
    hide Xor;
    XorAssoc(Xor(p, a), p, b);
    XorBack(p, a);
  }

  lemma XorZero(a: bv32)
    ensures Xor(a, 0) == a
  {}

  lemma XorCancel(a: bv32, b: bv32, x: bv32)
    ensures Xor(a, x) == Xor(b, x) || Xor(x, a) == Xor(x, b) ==> a == b
  {}

  // ---- the register is linear and reversible ----

  lemma ShiftLinear(a: bv32, b: bv32)
    ensures Shift(Xor(a, b)) == Xor(Shift(a), Shift(b))
  {
    hide Xor, Half;
    LowXor(a, b);
    HalfXor(a, b);
    XorAssoc(POLYNOMIAL, Half(a), Half(b));
    XorSwap(POLYNOMIAL, Half(a), Half(b));
    XorPair(POLYNOMIAL, Half(a), Half(b));
  }

  lemma ShiftInjective(a: bv32, b: bv32)
    requires Shift(a) == Shift(b)
    ensures a == b
  {}

  lemma {:induction false} ShiftsLinear(a: bv32, b: bv32, n: nat)
    ensures Shifts(Xor(a, b), n) == Xor(Shifts(a, n), Shifts(b, n))
    decreases n
  {
    hide Shift, Xor;
    if n > 0 {
      ShiftLinear(a, b);
      ShiftsLinear(Shift(a), Shift(b), n - 1);
    }
  }

  lemma {:induction false} ShiftsInjective(a: bv32, b: bv32, n: nat)
    requires Shifts(a, n) == Shifts(b, n)
    ensures a == b
    decreases n
  {
    hide Shift, Xor;
    if n > 0 {
      ShiftsInjective(Shift(a), Shift(b), n - 1);
      ShiftInjective(a, b);
    }
  }

  lemma {:induction false} SerialJoin(c: bv32, x: seq<bool>, y: seq<bool>)
    ensures Serial(c, x + y) == Serial(Serial(c, x), y)
    decreases |x|
  {
    hide Shift, Xor, Twice, BitWord;
    if x == [] {
      assert x + y == y;
    } else {
      assert (x + y)[1..] == x[1..] + y;
      SerialJoin(Shift(Xor(c, BitWord(x[0]))), x[1..], y);
    }
  }

  lemma {:induction false} SerialInjective(c: bv32, d: bv32, bits: seq<bool>)
    requires Serial(c, bits) == Serial(d, bits)
    ensures c == d
    decreases |bits|
  {
    hide Shift, Xor, Twice, BitWord;
    if bits != [] {
      var x := BitWord(bits[0]);
      SerialInjective(Shift(Xor(c, x)), Shift(Xor(d, x)), bits[1..]);
      ShiftInjective(Xor(c, x), Xor(d, x));
      XorCancel(c, d, x);
    }
  }

  // ---- up to 32 bits at once ----

  /** The word whose low bits are `bits`, lowest first. */
  function Pack(bits: seq<bool>): bv32
    decreases |bits|
  {
    if bits == [] then 0 else Xor(BitWord(bits[0]), Twice(Pack(bits[1..])))
  }

  // 2^31 halved m times
  function Room(m: nat): bv32
    decreases m
  {
    if m == 0 then 0x8000_0000 else Half(Room(m - 1))
  }

  // w is a number of n bits
  predicate Fits(w: bv32, n: nat)
    requires n <= 31
  {
    w < Room(31 - n)
  }

  lemma HalfRoom(w: bv32, h: bv32, b: bool)
    requires w < Half(h)
    ensures Xor(BitWord(b), Twice(w)) < h
  {}

  lemma FitsStep(w: bv32, n: nat, b: bool)
    requires n < 31 && Fits(w, n)
    ensures Fits(Xor(BitWord(b), Twice(w)), n + 1)
  {
    hide Xor, Twice, BitWord, Half;
    HalfRoom(w, Room(30 - n), b);
  }

  lemma LeastRoom()
    ensures Room(31) == 1
  {
    assert Room(8) == 0x80_0000;
    assert Room(16) == 0x8000;
    assert Room(24) == 0x80;
  }

  lemma {:induction false} PackFits(bits: seq<bool>)
    requires |bits| <= 31
    ensures Fits(Pack(bits), |bits|)
    decreases |bits|
  {
    if bits == [] {
      hide Pack;
      LeastRoom();
      assert Pack([]) == 0;
    } else {
      hide BitWord, Xor, Twice, Fits;
      PackFits(bits[1..]);
      FitsStep(Pack(bits[1..]), |bits| - 1, bits[0]);
    }
  }

  lemma ShiftDoubled(w: bv32)
    requires w < 0x8000_0000
    ensures Shift(Twice(w)) == w
  {}

  lemma PackSplits(b: bool, w: bv32, c: bool, v: bv32)
    requires w < 0x8000_0000 && v < 0x8000_0000
    requires Xor(BitWord(b), Twice(w)) == Xor(BitWord(c), Twice(v))
    ensures b == c && w == v
  {}

  lemma {:induction false} RoomTop(m: nat)
    ensures Room(m) <= 0x8000_0000
    decreases m
  {
    if m > 0 { RoomTop(m - 1); }
  }

  lemma PackRest(bits: seq<bool>)
    requires 1 <= |bits| <= 32
    ensures Pack(bits[1..]) < 0x8000_0000
  {
    PackFits(bits[1..]);
    RoomTop(31 - |bits[1..]|);
  }

  lemma {:induction false} PackInjective(x: seq<bool>, y: seq<bool>)
    requires |x| == |y| <= 32 && Pack(x) == Pack(y)
    ensures x == y
    decreases |x|
  {
    hide BitWord, Xor, Twice;
    if x != [] {
      PackRest(x);
      PackRest(y);
      PackSplits(x[0], Pack(x[1..]), y[0], Pack(y[1..]));
      PackInjective(x[1..], y[1..]);
      assert x == [x[0]] + x[1..] && y == [y[0]] + y[1..];
    }
  }

  // Feeding up to 32 bits is adding them all at once and then shifting.
  lemma {:induction false} SerialPack(c: bv32, bits: seq<bool>)
    requires |bits| <= 32
    ensures Serial(c, bits) == Shifts(Xor(c, Pack(bits)), |bits|)
    decreases |bits|
  {
    hide Shift, Xor, Twice, BitWord;
    if bits == [] {
      XorZero(c);
    } else {
      var x, w := BitWord(bits[0]), Pack(bits[1..]);
      PackRest(bits);
      SerialPack(Shift(Xor(c, x)), bits[1..]);
      ShiftLinear(Xor(c, x), Twice(w));
      ShiftDoubled(w);
      XorAssoc(c, x, Twice(w));
    }
  }

  // ---- errors of up to 32 consecutive bits are always noticed ----

  lemma BurstOfBits(c: bv32, before: seq<bool>, x: seq<bool>, y: seq<bool>, after: seq<bool>)
    requires |x| == |y| <= 32
    ensures Serial(c, before + x + after) == Serial(c, before + y + after) <==> x == y
  {
    hide Serial, Shifts, Pack, Xor;
    var s := Serial(c, before);
    forall z | z == x || z == y
      ensures Serial(c, before + z + after) == Serial(Serial(s, z), after)
    {
      SerialJoin(c, before + z, after);
      SerialJoin(c, before, z);
    }
    if Serial(c, before + x + after) == Serial(c, before + y + after) {
      SerialInjective(Serial(s, x), Serial(s, y), after);
      SerialPack(s, x);
      SerialPack(s, y);
      ShiftsInjective(Xor(s, Pack(x)), Xor(s, Pack(y)), |x|);
      XorCancel(Pack(x), Pack(y), s);
      PackInjective(x, y);
    }
  }

  lemma {:induction false} MessageBitsJoin(x: seq<bv8>, y: seq<bv8>)
    ensures MessageBits(x + y) == MessageBits(x) + MessageBits(y)
  {
    hide LowBits;
    if x == [] {
      assert x + y == y;
    } else {
      assert (x + y)[1..] == x[1..] + y;
      MessageBitsJoin(x[1..], y);
    }
  }

  // ---- one byte through the table ----

  function LowByte(w: bv32): (r: bv32)
    ensures r <= 0xFF
  {
    w & 0xFF
  }

  function HighBytes(w: bv32): bv32 {
    w & 0xFFFF_FF00
  }

  function DropByte(w: bv32): bv32 {
    w >> 8
  }

  /** The table entry: the register after eight idle steps from `i`. */
  function Entry(i: nat): bv32
    requires i < 256
  {
    Shifts(i as bv32, 8)
  }

  function ThroughTable(c: bv32, u: bv8): bv32 {
    Xor(Shifts(LowByte(Xor(c, u as bv32)), 8), DropByte(c))
  }

  function Halves(a: bv32, n: nat): bv32
    decreases n
  {
    if n == 0 then a else Halves(Half(a), n - 1)
  }

  predicate Zeros(a: bv32, n: nat)
    decreases n
  {
    n == 0 || (a & 1 == 0 && Zeros(Half(a), n - 1))
  }

  lemma {:induction false} ShiftsZeros(a: bv32, n: nat)
    requires Zeros(a, n)
    ensures Shifts(a, n) == Halves(a, n)
    decreases n
  {
    if n > 0 {
      ShiftsZeros(Half(a), n - 1);
    }
  }

  lemma HighBytesZeros(w: bv32)
    ensures Zeros(HighBytes(w), 8)
  {}

  lemma HighBytesHalves(w: bv32)
    ensures Halves(HighBytes(w), 8) == DropByte(w)
  {}

  lemma HighBytesDrop(w: bv32)
    ensures Shifts(HighBytes(w), 8) == DropByte(w)
  {
    hide Zeros, Halves, Shifts, HighBytes, DropByte;
    HighBytesZeros(w);
    ShiftsZeros(HighBytes(w), 8);
    HighBytesHalves(w);
  }

  lemma SplitByte(c: bv32, u: bv8)
    ensures Xor(c, u as bv32) == Xor(LowByte(Xor(c, u as bv32)), HighBytes(c))
  {}

  lemma Rejoin(w: bv32)
    ensures Xor(BitWord(w & 1 == 1), Twice(Half(w))) == w
  {}

  lemma {:induction false} Unpack(w: bv32, n: nat)
    requires Halves(w, n) == 0
    ensures Pack(LowBits(w, n)) == w
    decreases n
  {
    hide Half, Twice, Xor, BitWord;
    if n > 0 {
      Unpack(Half(w), n - 1);
      Rejoin(w);
      var b, r := w & 1 == 1, LowBits(Half(w), n - 1);
      assert LowBits(w, n) == [b] + r && ([b] + r)[1..] == r;
    }
  }

  lemma ByteHalves(u: bv8)
    ensures Halves(u as bv32, 8) == 0
  {}

  lemma UnpackByte(u: bv8)
    ensures Pack(LowBits(u as bv32, 8)) == u as bv32
  {
    ByteHalves(u);
    Unpack(u as bv32, 8);
  }

  lemma TableByte(c: bv32, u: bv8)
    ensures ThroughTable(c, u) == Serial(c, LowBits(u as bv32, 8))
  {
    hide Xor, Shifts, LowByte, HighBytes, Serial, LowBits, Pack, DropByte;
    SerialPack(c, LowBits(u as bv32, 8));
    UnpackByte(u);
    SplitByte(c, u);
    ShiftsLinear(LowByte(Xor(c, u as bv32)), HighBytes(c), 8);
    HighBytesDrop(c);
  }

  // ---- the code ----

  class Crc32Table {
    var table: array<bv32>

    /** All zero before first use, and the 256 entries of `Entry` from then on. */
    ghost predicate Valid()
      reads this, table
    {
      table.Length == 256 && (Built() || forall i :: 0 <= i < 256 ==> table[i] == 0)
    }

    ghost predicate Built()
      reads this, table
    {
      table.Length == 256 && forall i :: 0 <= i < 256 ==> table[i] == Entry(i)
    }

    constructor ()
      ensures Valid() && fresh(table)
    {
      table := new bv32[256](_ => 0);
    }

    method EnsureTableInited()
      requires Valid()
      modifies table
      ensures Valid() && Built() && table == old(table)
    {
      hide Shift, Entry, Shifts;
      LastEntry();
      if table[255] != 0 {
        return;
      }
      var i := 0;
      while i < 256
        invariant 0 <= i <= 256 && table.Length == 256 && table == old(table)
        invariant forall k :: 0 <= k < i ==> table[k] == Entry(k)
      {
        table[i] := ComputeEntry(i);
        i := i + 1;
      }
    }

    method UpdateCrc32(start: bv32, buf: seq<bv8>) returns (r: bv32)
      requires Valid()
      modifies table
      ensures Valid() && Built() && table == old(table)
      ensures r == Checksum(start, buf)
    {
      hide Entry, Xor, Serial, MessageBits, ThroughTable;
      EnsureTableInited();
      var c := Xor(start, ALL_ONES);
      var i := 0;
      NoBits(c);
      while i < |buf|
        invariant 0 <= i <= |buf| && Valid() && Built() && table == old(table)
        invariant c == Serial(Xor(start, ALL_ONES), MessageBits(buf[..i]))
      {
        c := Lookup(table, c, buf[i]);
        SerialByte(Xor(start, ALL_ONES), buf, i);
        i := i + 1;
      }
      assert buf[..i] == buf;
      r := Xor(c, ALL_ONES);
    }
  }

  method ComputeEntry(i: nat) returns (c: bv32)
    requires i < 256
    ensures c == Entry(i)
  {
    hide Shift;
    c := i as bv32;
    for j := 0 to 8
      invariant Shifts(c, 8 - j) == Entry(i)
    {
      c := Shift(c);
    }
  }

  method Lookup(table: array<bv32>, c: bv32, u: bv8) returns (r: bv32)
    requires table.Length == 256 && forall i :: 0 <= i < 256 ==> table[i] == Entry(i)
    ensures r == Serial(c, LowBits(u as bv32, 8))
  {
    hide Xor, Shifts, Serial, LowBits, Pack, DropByte, LowByte, Shift;
    TableByte(c, u);
    var k := LowByte(Xor(c, u as bv32));
    IndexOf(k);
    r := Xor(table[k as int], DropByte(c));
  }

  lemma IndexOf(k: bv32)
    requires k <= 0xFF
    ensures k as int < 256 && (k as int) as bv32 == k
  {}

  // The test for an initialised table: its last entry is not zero.
  lemma LastEntry()
    ensures Entry(255) != 0
  {}

  lemma NoBits(c: bv32)
    ensures Serial(c, MessageBits([])) == c
  {}

  lemma SerialByte(c: bv32, buf: seq<bv8>, i: nat)
    requires i < |buf|
    ensures Serial(c, MessageBits(buf[..i + 1])) == Serial(Serial(c, MessageBits(buf[..i])), LowBits(buf[i] as bv32, 8))
  {
    hide Serial, LowBits;
    assert buf[..i + 1] == buf[..i] + [buf[i]];
    MessageBitsJoin(buf[..i], [buf[i]]);
    assert MessageBits([buf[i]]) == LowBits(buf[i] as bv32, 8) + MessageBits([]);
    assert MessageBits([buf[i]]) == LowBits(buf[i] as bv32, 8);
    SerialJoin(c, MessageBits(buf[..i]), LowBits(buf[i] as bv32, 8));
  }

  // ---- what the checksum is for ----

  /** A message may be checked in pieces, each starting from the checksum so far. */
  lemma ChecksumJoin(start: bv32, x: seq<bv8>, y: seq<bv8>)
    ensures Checksum(Checksum(start, x), y) == Checksum(start, x + y)
  {
    hide Serial, MessageBits, Xor;
    MessageBitsJoin(x, y);
    var c := Serial(Xor(start, ALL_ONES), MessageBits(x));
    SerialJoin(Xor(start, ALL_ONES), MessageBits(x), MessageBits(y));
    XorAssoc(c, ALL_ONES, ALL_ONES);
    XorSelf(ALL_ONES);
    XorZero(c);
  }

  lemma XorSelf(a: bv32)
    ensures Xor(a, a) == 0
  {}

  lemma ByteBitsInjective(u: bv8, v: bv8)
    requires LowBits(u as bv32, 8) == LowBits(v as bv32, 8)
    ensures u == v
  {
    hide LowBits, Pack;
    UnpackByte(u);
    UnpackByte(v);
    SameByte(u, v);
  }

  lemma SameByte(u: bv8, v: bv8)
    requires u as bv32 == v as bv32
    ensures u == v
  {}

  lemma {:induction false} MessageBitsInjective(x: seq<bv8>, y: seq<bv8>)
    requires |x| == |y| && MessageBits(x) == MessageBits(y)
    ensures x == y
  {
    hide LowBits;
    if x != [] {
      var p, q := LowBits(x[0] as bv32, 8), LowBits(y[0] as bv32, 8);
      var p', q' := MessageBits(x[1..]), MessageBits(y[1..]);
      assert p + p' == q + q';
      assert p == (p + p')[..8] && q == (q + q')[..8];
      assert p' == (p + p')[8..] && q' == (q + q')[8..];
      ByteBitsInjective(x[0], y[0]);
      MessageBitsInjective(x[1..], y[1..]);
      assert x == [x[0]] + x[1..] && y == [y[0]] + y[1..];
    }
  }

  lemma SameRegister(start: bv32, m: seq<bv8>, n: seq<bv8>)
    requires Checksum(start, m) == Checksum(start, n)
    ensures Serial(Xor(start, ALL_ONES), MessageBits(m)) == Serial(Xor(start, ALL_ONES), MessageBits(n))
  {
    hide Serial, MessageBits, Xor;
    XorCancel(Serial(Xor(start, ALL_ONES), MessageBits(m)), Serial(Xor(start, ALL_ONES), MessageBits(n)), ALL_ONES);
  }

  // Bit strings that agree outside a window of 32 bits leave the same register only when equal.
  lemma WindowOfBits(c: bv32, p: seq<bool>, q: seq<bool>, i: nat)
    requires |p| == |q|
    requires forall k :: 0 <= k < |p| && !(i <= k < i + 32) ==> p[k] == q[k]
    requires Serial(c, p) == Serial(c, q)
    ensures p == q
  {
    hide Serial;
    var lo := if i < |p| then i else |p|;
    var hi := if i + 32 < |p| then i + 32 else |p|;
    var before, after := p[..lo], p[hi..];
    assert q[..lo] == before && q[hi..] == after;
    assert p == before + p[lo..hi] + after && q == before + q[lo..hi] + after;
    BurstOfBits(c, before, p[lo..hi], q[lo..hi], after);
  }

  /** Messages of one length that differ only within 32 consecutive bits have different checksums. */
  lemma BurstNoticed(start: bv32, m: seq<bv8>, n: seq<bv8>, i: nat)
    requires |m| == |n|
    requires forall k :: 0 <= k < 8 * |m| && !(i <= k < i + 32) ==> MessageBits(m)[k] == MessageBits(n)[k]
    ensures Checksum(start, m) == Checksum(start, n) <==> m == n
  {
    hide Serial, MessageBits, Xor, Checksum;
    if Checksum(start, m) == Checksum(start, n) {
      SameRegister(start, m, n);
      WindowOfBits(Xor(start, ALL_ONES), MessageBits(m), MessageBits(n), i);
      MessageBitsInjective(m, n);
    }
  }

  /** In particular, when they differ only within four consecutive bytes. */
  lemma FourBytesNoticed(start: bv32, before: seq<bv8>, x: seq<bv8>, y: seq<bv8>, after: seq<bv8>)
    requires |x| == |y| <= 4
    ensures Checksum(start, before + x + after) == Checksum(start, before + y + after) <==> x == y
  {
    hide Serial, MessageBits, Xor, Checksum;
    forall z | z == x || z == y
      ensures MessageBits(before + z + after) == MessageBits(before) + MessageBits(z) + MessageBits(after)
    {
      MessageBitsJoin(before + z, after);
      MessageBitsJoin(before, z);
    }
    BurstNoticed(start, before + x + after, before + y + after, 8 * |before|);
    if before + x + after == before + y + after {
      assert x == (before + x + after)[|before|..|before| + |x|];
      assert y == (before + y + after)[|before|..|before| + |x|];
    }
  }
}
