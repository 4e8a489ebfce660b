/**
 The frame check sequence of src/dll/frame.c. The table-driven loop is proved against the bit-serial
 reflected CRC-32, and the bit-serial form carries the error-detection theorem.
 */
module Fcs {
  import opened Endian
  import opened CrcTable

  const INITIAL: bv32 := 0xFFFF_FFFF

  // ---------- The reference: one bit at a time ----------

  function BitValue(bit: bool): bv32 {
    if bit then 1 else 0
  }

  function ShiftIn(register: bv32, bit: bv32): bv32 {
    BitStep(register ^ bit)
  }

  /** Shift the bits, first bit first, into the register. */
  function Serial(register: bv32, bits: seq<bool>): bv32
    decreases |bits|
  {
    if |bits| == 0 then register
    else Serial(ShiftIn(register, BitValue(bits[0])), bits[1..])
  }

  /** The bits of a byte in the order Ethernet sends them: least significant first. */
  function BitsOfByte(b: byte): (bits: seq<bool>)
    ensures |bits| == 8
  {
    [b & 1 == 1, b & 2 == 2, b & 4 == 4, b & 8 == 8, b & 16 == 16, b & 32 == 32, b & 64 == 64, b & 128 == 128]
  }

  function Bits(data: seq<byte>): (bits: seq<bool>)
    ensures |bits| == 8 * |data|
    decreases |data|
  {
    if |data| == 0 then [] else BitsOfByte(data[0]) + Bits(data[1..])
  }

  /** The frame check sequence of data, by definition. */
  function Crc32(data: seq<byte>): bv32 {
    !Serial(INITIAL, Bits(data))
  }

  // ---------- Properties of the reference ----------

  lemma {:induction false} SerialConcat(register: bv32, a: seq<bool>, b: seq<bool>)
    ensures Serial(register, a + b) == Serial(Serial(register, a), b)
    decreases |a|
  {
    if |a| == 0 {
      assert a + b == b;
    } else {
      assert (a + b)[1..] == a[1..] + b;
      SerialConcat(ShiftIn(register, BitValue(a[0])), a[1..], b);
    }
  }

  lemma {:induction false} BitsConcat(a: seq<byte>, b: seq<byte>)
    ensures Bits(a + b) == Bits(a) + Bits(b)
    decreases |a|
  {
    if |a| == 0 {
      assert a + b == b;
    } else {
      assert (a + b)[1..] == a[1..] + b;
      BitsConcat(a[1..], b);
    }
  }

  lemma XorDistinct(x: bv32, y: bv32, bit: bv32)
    requires x != y
    ensures x ^ bit != y ^ bit
  {
  }

  lemma BitStepDistinct(x: bv32, y: bv32)
    requires x != y
    ensures BitStep(x) != BitStep(y)
  {
  }

  lemma ShiftInInjective(x: bv32, y: bv32, bit: bv32)
    requires x != y
    ensures ShiftIn(x, bit) != ShiftIn(y, bit)
  {
    XorDistinct(x, y, bit);
    BitStepDistinct(x ^ bit, y ^ bit);
  }

  lemma {:induction false} SerialInjective(x: bv32, y: bv32, bits: seq<bool>)
    requires x != y
    ensures Serial(x, bits) != Serial(y, bits)
    decreases |bits|
  {
    if |bits| > 0 {
      ShiftInInjective(x, y, BitValue(bits[0]));
      SerialInjective(ShiftIn(x, BitValue(bits[0])), ShiftIn(y, BitValue(bits[0])), bits[1..]);
    }
  }

  // ---------- Byte steps ----------

  function TwoSteps(x: bv32): bv32 { BitStep(BitStep(x)) }

  function FourSteps(x: bv32): bv32 { TwoSteps(TwoSteps(x)) }

  ghost predicate Quarter(high: bv32, part: bv32) {
    high == part << 2 && part < 0x4000_0000
  }

  lemma TwoStepsCarry(low: bv32, high: bv32, part: bv32)
    requires Quarter(high, part)
    ensures TwoSteps(low ^ high) == TwoSteps(low) ^ part
  {
  }

  lemma TwoStepsCarryAgain(low: bv32, high: bv32, part: bv32)
    requires Quarter(high, part)
    ensures TwoSteps(TwoSteps(low) ^ high) == FourSteps(low) ^ part
  {
    TwoStepsCarry(TwoSteps(low), high, part);
  }

  lemma FourStepsCarry(low: bv32, high: bv32, middle: bv32, part: bv32)
    requires Quarter(high, middle) && Quarter(middle, part)
    ensures FourSteps(low ^ high) == FourSteps(low) ^ part
  {
    TwoStepsCarry(low, high, middle);
    TwoStepsCarryAgain(low, middle, part);
  }

  lemma FourStepsCarryAgain(low: bv32, high: bv32, middle: bv32, part: bv32)
    requires Quarter(high, middle) && Quarter(middle, part)
    ensures FourSteps(FourSteps(low) ^ high) == ByteStep(low) ^ part
  {
    FourStepsCarry(FourSteps(low), high, middle, part);
  }

  lemma EightStepsCarry(low: bv32, h0: bv32, h2: bv32, h4: bv32, h6: bv32, h8: bv32)
    requires Quarter(h0, h2) && Quarter(h2, h4) && Quarter(h4, h6) && Quarter(h6, h8)
    ensures ByteStep(low ^ h0) == ByteStep(low) ^ h8
  {
    FourStepsCarry(low, h0, h2, h4);
    FourStepsCarryAgain(low, h4, h6, h8);
  }

  lemma QuarterChain(part: bv32)
    requires part < 0x100_0000
    ensures Quarter(part << 8, part << 6) && Quarter(part << 6, part << 4)
    ensures Quarter(part << 4, part << 2) && Quarter(part << 2, part)
  {
  }

  /** The high 24 bits pass through a byte step unchanged, eight places down. */
  lemma ByteStepCarries(low: bv32, part: bv32)
    requires part < 0x100_0000
    ensures ByteStep(low ^ (part << 8)) == ByteStep(low) ^ part
  {
    QuarterChain(part);
    EightStepsCarry(low, part << 8, part << 6, part << 4, part << 2, part);
  }

  /** The table's form of a byte step: look up the low byte, keep the rest. */
  lemma ByteStepSplits(x: bv32, low: bv32, high: bv32)
    requires high < 0x100_0000 && low ^ (high << 8) == x
    ensures ByteStep(x) == ByteStep(low) ^ high
  {
    ByteStepCarries(low, high);
  }

  lemma MixedParts(register: bv32, b: byte, mixed: bv32, low: bv8, high: bv32)
    requires mixed == register ^ (b as bv32) && low as bv32 == mixed & 0xFF && high == register >> 8
    ensures high < 0x100_0000 && (low as bv32) ^ (high << 8) == mixed
  {
  }

  lemma EntryStep(mixed: bv32, low: bv8, high: bv32)
    requires high < 0x100_0000 && (low as bv32) ^ (high << 8) == mixed
    ensures high ^ Entry(low) == ByteStep(mixed)
  {
    EntryIsBitSerial(low);
    ByteStepSplits(mixed, low as bv32, high);
  }

  /** One iteration of the table-driven loop is a byte step of the mixed register. */
  lemma UpdateIsByteStep(register: bv32, b: byte, mixed: bv32, low: bv8, high: bv32)
    requires mixed == register ^ (b as bv32) && low as bv32 == mixed & 0xFF && high == register >> 8
    ensures high ^ Entry(low) == ByteStep(mixed)
  {
    MixedParts(register, b, mixed, low, high);
    EntryStep(mixed, low, high);
  }

  function ShiftTwo(x: bv32, a: bv32, b: bv32): bv32 {
    ShiftIn(ShiftIn(x, a), b)
  }

  function ShiftFour(x: bv32, a: bv32, b: bv32, c: bv32, d: bv32): bv32 {
    ShiftTwo(ShiftTwo(x, a, b), c, d)
  }

  ghost predicate TwoLow(v: bv32, a: bv32, b: bv32, rest: bv32) {
    v <= 0xFF && a == v & 1 && b == (v >> 1) & 1 && rest == v >> 2
  }

  /** Two bits shifted in are two steps after mixing them in. */
  lemma ShiftTwoCarries(x: bv32, v: bv32, a: bv32, b: bv32, rest: bv32)
    requires TwoLow(v, a, b, rest)
    ensures TwoSteps(x ^ v) == ShiftTwo(x, a, b) ^ rest
  {
  }

  lemma ShiftTwoCarriesAgain(x: bv32, a: bv32, b: bv32, v: bv32, c: bv32, d: bv32, rest: bv32)
    requires TwoLow(v, c, d, rest)
    ensures TwoSteps(ShiftTwo(x, a, b) ^ v) == ShiftFour(x, a, b, c, d) ^ rest
  {
    ShiftTwoCarries(ShiftTwo(x, a, b), v, c, d, rest);
  }

  lemma ShiftFourCarries(x: bv32, v: bv32, a: bv32, b: bv32, middle: bv32, c: bv32, d: bv32, rest: bv32)
    requires TwoLow(v, a, b, middle) && TwoLow(middle, c, d, rest)
    ensures FourSteps(x ^ v) == ShiftFour(x, a, b, c, d) ^ rest
  {
    ShiftTwoCarries(x, v, a, b, middle);
    ShiftTwoCarriesAgain(x, a, b, middle, c, d, rest);
  }

  lemma ShiftFourCarriesAgain(x: bv32, a: bv32, b: bv32, c: bv32, d: bv32,
                              v: bv32, e: bv32, f: bv32, middle: bv32, g: bv32, h: bv32, rest: bv32)
    requires TwoLow(v, e, f, middle) && TwoLow(middle, g, h, rest)
    ensures FourSteps(ShiftFour(x, a, b, c, d) ^ v) == ShiftFour(ShiftFour(x, a, b, c, d), e, f, g, h) ^ rest
  {
    ShiftFourCarries(ShiftFour(x, a, b, c, d), v, e, f, middle, g, h, rest);
  }

  lemma ShiftEightCarries(x: bv32, v: bv32, a: bv32, b: bv32, v2: bv32, c: bv32, d: bv32, v4: bv32,
                          e: bv32, f: bv32, v6: bv32, g: bv32, h: bv32)
    requires TwoLow(v, a, b, v2) && TwoLow(v2, c, d, v4) && TwoLow(v4, e, f, v6) && TwoLow(v6, g, h, 0)
    ensures FourSteps(FourSteps(x ^ v)) == ShiftFour(ShiftFour(x, a, b, c, d), e, f, g, h) ^ 0
  {
    ShiftFourCarries(x, v, a, b, v2, c, d, v4);
    ShiftFourCarriesAgain(x, a, b, c, d, v4, e, f, v6, g, h, 0);
  }

  lemma XorZero(x: bv32)
    ensures x ^ 0 == x
  {
  }

  lemma SerialCons(x: bv32, bit: bool, rest: seq<bool>)
    ensures Serial(x, [bit] + rest) == Serial(ShiftIn(x, BitValue(bit)), rest)
  {
    assert ([bit] + rest)[1..] == rest;
  }

  lemma SerialTwo(x: bv32, a: bool, b: bool, rest: seq<bool>)
    ensures Serial(x, [a, b] + rest) == Serial(ShiftTwo(x, BitValue(a), BitValue(b)), rest)
  {
    assert [a, b] + rest == [a] + ([b] + rest);
    SerialCons(x, a, [b] + rest);
    SerialCons(ShiftIn(x, BitValue(a)), b, rest);
  }

  lemma SerialFour(x: bv32, a: bool, b: bool, c: bool, d: bool, rest: seq<bool>)
    ensures Serial(x, [a, b, c, d] + rest)
         == Serial(ShiftFour(x, BitValue(a), BitValue(b), BitValue(c), BitValue(d)), rest)
  {
    assert [a, b, c, d] + rest == [a, b] + ([c, d] + rest);
    SerialTwo(x, a, b, [c, d] + rest);
    SerialTwo(ShiftTwo(x, BitValue(a), BitValue(b)), c, d, rest);
  }

  lemma BitValues(b: byte)
    ensures BitValue(b & 1 == 1) == (b as bv32) & 1 && BitValue(b & 2 == 2) == ((b as bv32) >> 1) & 1
    ensures BitValue(b & 4 == 4) == ((b as bv32) >> 2) & 1 && BitValue(b & 8 == 8) == ((b as bv32) >> 3) & 1
    ensures BitValue(b & 16 == 16) == ((b as bv32) >> 4) & 1 && BitValue(b & 32 == 32) == ((b as bv32) >> 5) & 1
    ensures BitValue(b & 64 == 64) == ((b as bv32) >> 6) & 1 && BitValue(b & 128 == 128) == ((b as bv32) >> 7) & 1
  {
  }

  lemma LowPairs(v: bv32)
    requires v <= 0xFF
    ensures TwoLow(v, v & 1, (v >> 1) & 1, v >> 2)
    ensures TwoLow(v >> 2, (v >> 2) & 1, (v >> 3) & 1, v >> 4)
    ensures TwoLow(v >> 4, (v >> 4) & 1, (v >> 5) & 1, v >> 6)
    ensures TwoLow(v >> 6, (v >> 6) & 1, (v >> 7) & 1, 0)
  {
  }

  lemma ShiftByteIsSteps(x: bv32, v: bv32)
    requires v <= 0xFF
    ensures FourSteps(FourSteps(x ^ v))
         == ShiftFour(ShiftFour(x, v & 1, (v >> 1) & 1, (v >> 2) & 1, (v >> 3) & 1),
                      (v >> 4) & 1, (v >> 5) & 1, (v >> 6) & 1, (v >> 7) & 1) ^ 0
  {
    LowPairs(v);
    ShiftEightCarries(x, v, v & 1, (v >> 1) & 1, v >> 2, (v >> 2) & 1, (v >> 3) & 1, v >> 4,
                      (v >> 4) & 1, (v >> 5) & 1, v >> 6, (v >> 6) & 1, (v >> 7) & 1);
  }

  lemma FourStepsTwice(x: bv32)
    ensures FourSteps(FourSteps(x)) == ByteStep(x)
  {
  }

  /** The eight bits of a byte act like one byte step of the mixed register. */
  lemma SerialByte(x: bv32, b: byte)
    ensures Serial(x, BitsOfByte(b)) == ByteStep(x ^ (b as bv32))
  {
    var bits := BitsOfByte(b);
    var high := [b & 16 == 16, b & 32 == 32, b & 64 == 64, b & 128 == 128];
    assert bits == [b & 1 == 1, b & 2 == 2, b & 4 == 4, b & 8 == 8] + (high + []);
    var x4 := ShiftFour(x, BitValue(b & 1 == 1), BitValue(b & 2 == 2), BitValue(b & 4 == 4), BitValue(b & 8 == 8));
    SerialFour(x, b & 1 == 1, b & 2 == 2, b & 4 == 4, b & 8 == 8, high + []);
    SerialFour(x4, b & 16 == 16, b & 32 == 32, b & 64 == 64, b & 128 == 128, []);
    BitValues(b);
    ShiftByteIsSteps(x, b as bv32);
    FourStepsTwice(x ^ (b as bv32));
    XorZero(Serial(x, bits));
  }

  lemma BitsAppend(data: seq<byte>, b: byte)
    ensures Bits(data + [b]) == Bits(data) + BitsOfByte(b)
  {
    BitsConcat(data, [b]);
    assert [b][1..] == [];
    assert Bits([b]) == BitsOfByte(b) + Bits([]) == BitsOfByte(b);
  }

  lemma SerialThenByte(x: bv32, bits: seq<bool>, y: bv32, b: byte)
    requires y == Serial(x, bits)
    ensures Serial(x, bits + BitsOfByte(b)) == ByteStep(y ^ (b as bv32))
  {
    SerialConcat(x, bits, BitsOfByte(b));
    SerialByte(y, b);
  }

  lemma SerialAppendByte(x: bv32, data: seq<byte>, y: bv32, b: byte)
    requires y == Serial(x, Bits(data))
    ensures Serial(x, Bits(data + [b])) == ByteStep(y ^ (b as bv32))
  {
    BitsAppend(data, b);
    SerialThenByte(x, Bits(data), y, b);
  }

  // ---------- Windows of at most 32 bits ----------

  /** All bits set but the n lowest. */
  ghost function HighMask(n: nat): bv32 {
    if n == 0 then 0xFFFF_FFFF else HighMask(n - 1) << 1
  }

  ghost predicate AgreeAbove(x: bv32, y: bv32, mask: bv32) {
    x & mask == y & mask
  }

  lemma AgreeBefore(x: bv32, a: bv32, y: bv32, b: bv32, mask: bv32)
    requires 0x8000_0000 <= mask && a <= 1 && b <= 1
    requires AgreeAbove(ShiftIn(x, a), ShiftIn(y, b), mask)
    ensures AgreeAbove(x, y, mask << 1)
  {
  }

  lemma {:induction false} HighMaskNests(n: nat)
    ensures (HighMask(n) << 1) & !HighMask(n) == 0
  {
    if n > 0 {
      HighMaskNests(n - 1);
      WordNests(HighMask(n - 1));
    }
  }

  lemma WordNests(y: bv32)
    requires (y << 1) & !y == 0
    ensures ((y << 1) << 1) & !(y << 1) == 0
  {
  }

  lemma {:induction false} HighMaskTop(n: nat)
    requires n <= 31
    ensures 0x8000_0000 <= HighMask(n)
    decreases 31 - n
  {
    if n == 31 {
      assert HighMask(8) == 0xFFFF_FF00 && HighMask(16) == 0xFFFF_0000 && HighMask(24) == 0xFF00_0000;
    } else {
      HighMaskTop(n + 1);
      HighMaskNests(n);
      WordTop(HighMask(n));
    }
  }

  lemma WordTop(y: bv32)
    requires (y << 1) & !y == 0 && 0x8000_0000 <= y << 1
    ensures 0x8000_0000 <= y
  {
  }

  lemma {:induction false} EqualAfter(x: bv32, a: seq<bool>, y: bv32, b: seq<bool>)
    requires |a| == |b| <= 31
    requires Serial(x, a) == Serial(y, b)
    ensures AgreeAbove(x, y, HighMask(|a|))
    decreases |a|
  {
    if |a| > 0 {
      EqualAfter(ShiftIn(x, BitValue(a[0])), a[1..], ShiftIn(y, BitValue(b[0])), b[1..]);
      HighMaskTop(|a| - 1);
      AgreeBefore(x, BitValue(a[0]), y, BitValue(b[0]), HighMask(|a| - 1));
    }
  }

  lemma FirstBitMatters(x: bv32, a: bool, b: bool, mask: bv32)
    requires 0x8000_0000 <= mask && a != b
    ensures !AgreeAbove(ShiftIn(x, BitValue(a)), ShiftIn(x, BitValue(b)), mask)
  {
    if a {} else {}
  }

  /** From the same register, two different strings of at most 32 bits lead to different registers. */
  lemma {:induction false} WindowMatters(x: bv32, a: seq<bool>, b: seq<bool>)
    requires |a| == |b| <= 32 && a != b
    ensures Serial(x, a) != Serial(x, b)
    decreases |a|
  {
    assert a == [a[0]] + a[1..] && b == [b[0]] + b[1..];
    if a[0] == b[0] {
      WindowMatters(ShiftIn(x, BitValue(a[0])), a[1..], b[1..]);
    } else {
      HighMaskTop(|a| - 1);
      FirstBitMatters(x, a[0], b[0], HighMask(|a| - 1));
      if Serial(x, a) == Serial(x, b) {
        EqualAfter(ShiftIn(x, BitValue(a[0])), a[1..], ShiftIn(x, BitValue(b[0])), b[1..]);
        assert false;
      }
    }
  }

  // ---------- src/dll/frame.c ----------

  lemma LoopIteration(data: seq<byte>, crc: bv32, b: byte, mixed: bv32, index: bv8, high: bv32)
    requires crc == Serial(INITIAL, Bits(data))
    requires mixed == crc ^ (b as bv32) && index as bv32 == mixed & 0xFF && high == crc >> 8
    ensures high ^ Entry(index) == Serial(INITIAL, Bits(data + [b]))
  {
    UpdateIsByteStep(crc, b, mixed, index, high);
    SerialAppendByte(INITIAL, data, crc, b);
  }

  function LowByte(x: bv32): (b: byte)
    ensures b as bv32 == x & 0xFF
  {
    (x & 0xFF) as byte
  }

  /** ecat_calculate_fcs: the table-driven loop computes the bit-serial CRC-32. */
  method CalculateFcs(data: array<byte>, length: u16) returns (fcs: bv32)
    requires length <= data.Length
    ensures fcs == Crc32(data[..length])
  {
    var crc: bv32 := INITIAL;
    for i := 0 to length
      invariant crc == Serial(INITIAL, Bits(data[..i]))
    {
      crc := NextCrc(data[..i], crc, data[i]);
      assert data[..i + 1] == data[..i] + [data[i]];
    }
    fcs := !crc;
  }

  method NextCrc(ghost before: seq<byte>, crc: bv32, b: byte) returns (next: bv32)
    requires crc == Serial(INITIAL, Bits(before))
    ensures next == Serial(INITIAL, Bits(before + [b]))
  {
    var mixed := crc ^ (b as bv32);
    var index := LowByte(mixed);
    var high := crc >> 8;
    LoopIteration(before, crc, b, mixed, index, high);
    next := high ^ Entry(index);
  }

  /** What ecat_verify_fcs accepts: the last four bytes are the FCS of the rest. */
  ghost predicate FcsHolds(frame: seq<byte>) {
    |frame| >= 4 && ReadU32(frame, |frame| - 4) == Crc32(frame[..|frame| - 4])
  }

  /** ecat_verify_fcs; the four-byte memcpy is read on a little-endian host. */
  method VerifyFcs(frame: array<byte>, length: u16) returns (ok: bool)
    requires length <= frame.Length
    ensures ok <==> FcsHolds(frame[..length])
  {
    if length < 4 {
      return false;
    }
    var calculated := CalculateFcs(frame, length - 4);
    assert frame[..length][..length - 4] == frame[..length - 4];
    ok := calculated == ReadU32(frame[..length], length - 4);
  }

  // ---------- The residue ----------

  /** The register after any frame followed by its own FCS. */
  const RESIDUE: bv32 := 0xDEBB_20E3

  ghost predicate CancelsTo(k: bv32, next: bv32) {
    next == ByteStep((k ^ 0xFF) & 0xFF) ^ (k >> 8)
  }

  lemma CancelChain()
    ensures CancelsTo(0, 0x2D02_EF8D) && CancelsTo(0x2D02_EF8D, 0xBE26_12FF)
    ensures CancelsTo(0xBE26_12FF, 0x00BE_2612) && CancelsTo(0x00BE_2612, RESIDUE)
  {
  }

  lemma CancelParts(k: bv32, rest: bv32, b: byte, mixed: bv32, low: bv32, high: bv32)
    requires b as bv32 == !rest & 0xFF && mixed == (k ^ rest) ^ (b as bv32)
    requires low == (k ^ 0xFF) & 0xFF && high == (k >> 8) ^ (rest >> 8)
    ensures high < 0x100_0000 && low ^ (high << 8) == mixed
  {
  }

  lemma CancelStep(k: bv32, rest: bv32, b: byte, mixed: bv32, low: bv32, high: bv32)
    requires b as bv32 == !rest & 0xFF && mixed == (k ^ rest) ^ (b as bv32)
    requires low == (k ^ 0xFF) & 0xFF && high == (k >> 8) ^ (rest >> 8)
    ensures ByteStep(mixed) == ByteStep(low) ^ high
  {
    CancelParts(k, rest, b, mixed, low, high);
    ByteStepSplits(mixed, low, high);
  }

  lemma CancelJoin(stepped: bv32, k: bv32, rest: bv32, high: bv32, next: bv32, out: bv32)
    requires out == stepped ^ high && next == stepped ^ (k >> 8) && high == (k >> 8) ^ (rest >> 8)
    ensures out == next ^ (rest >> 8)
  {
  }

  /** Feeding the complement of the low byte of rest removes that byte from the register. */
  lemma CancelByte(k: bv32, next: bv32, rest: bv32, b: byte, mixed: bv32, low: bv32, high: bv32, stepped: bv32, out: bv32)
    requires b as bv32 == !rest & 0xFF && mixed == (k ^ rest) ^ (b as bv32)
    requires low == (k ^ 0xFF) & 0xFF && high == (k >> 8) ^ (rest >> 8)
    requires stepped == ByteStep(low) && next == stepped ^ (k >> 8) && out == ByteStep(mixed)
    ensures out == next ^ (rest >> 8)
  {
    CancelStep(k, rest, b, mixed, low, high);
    CancelJoin(stepped, k, rest, high, next, out);
  }

  lemma CancelNames(k: bv32, rest: bv32, b: byte)
    returns (mixed: bv32, low: bv32, high: bv32, stepped: bv32, out: bv32)
    ensures mixed == (k ^ rest) ^ (b as bv32) && low == (k ^ 0xFF) & 0xFF && high == (k >> 8) ^ (rest >> 8)
    ensures stepped == ByteStep(low) && out == ByteStep(mixed)
  {
    mixed := (k ^ rest) ^ (b as bv32);
    low := (k ^ 0xFF) & 0xFF;
    high := (k >> 8) ^ (rest >> 8);
    stepped := ByteStep(low);
    out := ByteStep(mixed);
  }

  ghost predicate Residual(register: bv32, k: bv32, rest: bv32) {
    register == k ^ rest
  }

  lemma CancelSerialByte(register: bv32, k: bv32, next: bv32, rest: bv32, b: byte)
    requires Residual(register, k, rest) && CancelsTo(k, next) && b as bv32 == !rest & 0xFF
    ensures Residual(Serial(register, BitsOfByte(b)), next, rest >> 8)
  {
    var mixed, low, high, stepped, out := CancelNames(k, rest, b);
    CancelByte(k, next, rest, b, mixed, low, high, stepped, out);
    SerialByte(register, b);
  }

  lemma ComplementBytes(x: bv32)
    ensures Complements(BytesOfU32(!x), x)
  {
  }

  lemma ShiftChain(x: bv32)
    ensures (x >> 8) >> 8 == x >> 16 && (x >> 16) >> 8 == x >> 24 && (x >> 24) >> 8 == 0
    ensures Residual(x, 0, x)
  {
  }

  lemma ResidualDone(register: bv32, k: bv32)
    requires Residual(register, k, 0)
    ensures register == k
  {
  }

  lemma SerialHead(x: bv32, data: seq<byte>, head: byte, rest: seq<byte>)
    requires data == [head] + rest
    ensures Serial(x, Bits(data)) == Serial(Serial(x, BitsOfByte(head)), Bits(rest))
  {
    assert data[0] == head && data[1..] == rest;
    SerialConcat(x, BitsOfByte(head), Bits(rest));
  }

  lemma SerialFourBytes(x0: bv32, x1: bv32, x2: bv32, x3: bv32, x4: bv32, c: seq<byte>)
    requires |c| == 4
    requires x1 == Serial(x0, BitsOfByte(c[0])) && x2 == Serial(x1, BitsOfByte(c[1]))
    requires x3 == Serial(x2, BitsOfByte(c[2])) && x4 == Serial(x3, BitsOfByte(c[3]))
    ensures Serial(x0, Bits(c)) == x4
  {
    assert c == [c[0]] + c[1..] && c[1..] == [c[1]] + c[2..] && c[2..] == [c[2]] + c[3..] && c[3..] == [c[3]] + [];
    SerialHead(x0, c, c[0], c[1..]);
    SerialHead(x1, c[1..], c[1], c[2..]);
    SerialHead(x2, c[2..], c[2], c[3..]);
    SerialHead(x3, c[3..], c[3], []);
  }

  ghost predicate Complements(c: seq<byte>, x: bv32) {
    && |c| == 4
    && c[0] as bv32 == !x & 0xFF && c[1] as bv32 == !(x >> 8) & 0xFF
    && c[2] as bv32 == !(x >> 16) & 0xFF && c[3] as bv32 == !(x >> 24) & 0xFF
  }

  lemma TwoCancelled(x: bv32, s1: bv32, s2: bv32, c: seq<byte>)
    requires Complements(c, x) && s1 == Serial(x, BitsOfByte(c[0])) && s2 == Serial(s1, BitsOfByte(c[1]))
    ensures Residual(s2, 0xBE26_12FF, x >> 16)
  {
    ShiftChain(x);
    CancelChain();
    CancelSerialByte(x, 0, 0x2D02_EF8D, x, c[0]);
    CancelSerialByte(s1, 0x2D02_EF8D, 0xBE26_12FF, x >> 8, c[1]);
  }

  lemma FourCancelled(x: bv32, s2: bv32, s3: bv32, s4: bv32, c: seq<byte>)
    requires Complements(c, x) && Residual(s2, 0xBE26_12FF, x >> 16)
    requires s3 == Serial(s2, BitsOfByte(c[2])) && s4 == Serial(s3, BitsOfByte(c[3]))
    ensures s4 == RESIDUE
  {
    ShiftChain(x);
    CancelChain();
    CancelSerialByte(s2, 0xBE26_12FF, 0x00BE_2612, x >> 16, c[2]);
    CancelSerialByte(s3, 0x00BE_2612, RESIDUE, x >> 24, c[3]);
    ResidualDone(s4, RESIDUE);
  }

  lemma StatesOver(x: bv32, c: seq<byte>) returns (s1: bv32, s2: bv32, s3: bv32, s4: bv32)
    requires |c| == 4
    ensures s1 == Serial(x, BitsOfByte(c[0])) && s2 == Serial(s1, BitsOfByte(c[1]))
    ensures s3 == Serial(s2, BitsOfByte(c[2])) && s4 == Serial(s3, BitsOfByte(c[3]))
  {
    s1 := Serial(x, BitsOfByte(c[0]));
    s2 := Serial(s1, BitsOfByte(c[1]));
    s3 := Serial(s2, BitsOfByte(c[2]));
    s4 := Serial(s3, BitsOfByte(c[3]));
  }

  /** A register followed by the four bytes of its complement always becomes the residue. */
  lemma ResidueReached(x: bv32, c: seq<byte>)
    requires Complements(c, x)
    ensures Serial(x, Bits(c)) == RESIDUE
  {
    var s1, s2, s3, s4 := StatesOver(x, c);
    TwoCancelled(x, s1, s2, c);
    FourCancelled(x, s2, s3, s4, c);
    SerialFourBytes(x, s1, s2, s3, s4, c);
  }

  lemma BitsOfByteInjective(a: byte, b: byte)
    requires BitsOfByte(a) == BitsOfByte(b)
    ensures a == b
  {
    assert forall i :: 0 <= i < 8 ==> BitsOfByte(a)[i] == BitsOfByte(b)[i];
    var x, y := BitsOfByte(a), BitsOfByte(b);
    assert x[0] == y[0] && x[1] == y[1] && x[2] == y[2] && x[3] == y[3];
    assert x[4] == y[4] && x[5] == y[5] && x[6] == y[6] && x[7] == y[7];
  }

  lemma {:induction false} BitsInjective(a: seq<byte>, b: seq<byte>)
    requires |a| == |b| && Bits(a) == Bits(b)
    ensures a == b
  {
    if |a| > 0 {
      assert Bits(a)[..8] == BitsOfByte(a[0]) && Bits(b)[..8] == BitsOfByte(b[0]);
      assert Bits(a)[8..] == Bits(a[1..]) && Bits(b)[8..] == Bits(b[1..]);
      BitsOfByteInjective(a[0], b[0]);
      BitsInjective(a[1..], b[1..]);
      assert a == [a[0]] + a[1..] && b == [b[0]] + b[1..];
    }
  }

  lemma TailDecides(x: bv32, tail: seq<byte>)
    requires |tail| == 4
    ensures ReadU32(tail, 0) == !x <==> Serial(x, Bits(tail)) == RESIDUE
  {
    var own := BytesOfU32(!x);
    ComplementBytes(x);
    ResidueReached(x, own);
    if tail != own {
      if Bits(tail) == Bits(own) {
        BitsInjective(tail, own);
      }
      WindowMatters(x, Bits(tail), Bits(own));
      if ReadU32(tail, 0) == !x {
        ReadU32Injective(tail, own);
      }
    }
  }

  lemma SerialSplit(x: bv32, y: bv32, body: seq<byte>, tail: seq<byte>)
    requires y == Serial(x, Bits(body))
    ensures Serial(x, Bits(body + tail)) == Serial(y, Bits(tail))
  {
    BitsConcat(body, tail);
    SerialConcat(x, Bits(body), Bits(tail));
  }

  lemma FcsHoldsMeans(body: seq<byte>, tail: seq<byte>)
    requires |tail| == 4
    ensures FcsHolds(body + tail) <==> ReadU32(tail, 0) == Crc32(body)
  {
    var frame := body + tail;
    var n := |frame| - 4;
    assert frame[..n] == body;
    assert frame[n] == tail[0] && frame[n + 1] == tail[1] && frame[n + 2] == tail[2] && frame[n + 3] == tail[3];
  }

  lemma FcsHoldsAfter(body: seq<byte>, tail: seq<byte>, y: bv32)
    requires |tail| == 4 && y == Serial(INITIAL, Bits(body))
    ensures FcsHolds(body + tail) <==> Serial(INITIAL, Bits(body + tail)) == RESIDUE
  {
    FcsHoldsMeans(body, tail);
    SerialSplit(INITIAL, y, body, tail);
    TailDecides(y, tail);
  }

  /** A frame's FCS holds exactly when shifting in the whole frame, FCS included, leaves the residue. */
  lemma FcsHoldsIffResidue(frame: seq<byte>)
    requires |frame| >= 4
    ensures FcsHolds(frame) <==> Serial(INITIAL, Bits(frame)) == RESIDUE
  {
    var n := |frame| - 4;
    assert frame == frame[..n] + frame[n..];
    FcsHoldsAfter(frame[..n], frame[n..], Serial(INITIAL, Bits(frame[..n])));
  }

  /** g differs from f at most in the 32 bits that start at bit position start. */
  ghost predicate DiffersInBurst(f: seq<byte>, g: seq<byte>, start: nat) {
    && |f| == |g|
    && forall i :: 0 <= i < 8 * |f| && !(start <= i < start + 32) ==> Bits(g)[i] == Bits(f)[i]
  }

  /** Every corruption confined to 32 consecutive bits, anywhere in the frame, is detected. */
  lemma BurstDetected(f: seq<byte>, g: seq<byte>, start: nat)
    requires FcsHolds(f) && DiffersInBurst(f, g, start) && g != f
    ensures !FcsHolds(g)
  {
    var u, v := Bits(f), Bits(g);
    var n := |u|;
    var lo := if start <= n then start else n;
    var hi := if lo + 32 <= n then lo + 32 else n;
    assert u[..lo] == v[..lo] && u[hi..] == v[hi..];
    assert u == u[..lo] + u[lo..hi] + u[hi..] && v == v[..lo] + v[lo..hi] + v[hi..];
    if u[lo..hi] == v[lo..hi] {
      BitsInjective(f, g);
      assert false;
    }
    var x := Serial(INITIAL, u[..lo]);
    WindowMatters(x, u[lo..hi], v[lo..hi]);
    SerialInjective(Serial(x, u[lo..hi]), Serial(x, v[lo..hi]), u[hi..]);
    SerialConcat(INITIAL, u[..lo], u[lo..hi]);
    SerialConcat(INITIAL, v[..lo], v[lo..hi]);
    SerialConcat(INITIAL, u[..lo] + u[lo..hi], u[hi..]);
    SerialConcat(INITIAL, v[..lo] + v[lo..hi], v[hi..]);
    FcsHoldsIffResidue(f);
    FcsHoldsIffResidue(g);
  }

  lemma {:induction false} BitsAt(data: seq<byte>, i: nat)
    requires i < 8 * |data|
    ensures Bits(data)[i] == BitsOfByte(data[i / 8])[i % 8]
  {
    if i >= 8 {
      BitsAt(data[1..], i - 8);
      assert data[1..][(i - 8) / 8] == data[i / 8];
    }
  }

  /** The byte form: corrupting up to four consecutive bytes is always detected. */
  lemma FourByteBurstDetected(f: seq<byte>, g: seq<byte>, at: nat)
    requires FcsHolds(f) && |g| == |f| && g != f
    requires forall i :: 0 <= i < |f| && !(at <= i < at + 4) ==> g[i] == f[i]
    ensures !FcsHolds(g)
  {
    forall i | 0 <= i < 8 * |f| && !(8 * at <= i < 8 * at + 32)
      ensures Bits(g)[i] == Bits(f)[i]
    {
      BitsAt(f, i);
      BitsAt(g, i);
      assert !(at <= i / 8 < at + 4);
    }
    BurstDetected(f, g, 8 * at);
  }

  // ---------- Zero padding after the FCS ----------

  function Zeros(n: nat): (s: seq<byte>)
    ensures |s| == n && forall i :: 0 <= i < n ==> s[i] == 0
  {
    seq(n, _ => 0)
  }

  /** The register after an FCS and n zero bytes. */
  ghost function Padded(n: nat): bv32 {
    if n == 0 then RESIDUE else ByteStep(Padded(n - 1))
  }

  lemma {:induction false} PaddedIsSerial(n: nat)
    ensures Serial(RESIDUE, Bits(Zeros(n))) == Padded(n)
  {
    if n > 0 {
      PaddedIsSerial(n - 1);
      assert Zeros(n) == Zeros(n - 1) + [0];
      SerialAppendByte(RESIDUE, Zeros(n - 1), Padded(n - 1), 0);
      XorZero(Padded(n - 1));
    }
  }

  lemma PadConstants0()
    ensures ByteStep(0xDEBB_20E3) == 0x39DD_08E2 && ByteStep(0x39DD_08E2) == 0x4E3D_5E5C && ByteStep(0x4E3D_5E5C) == 0x6293_2081 && ByteStep(0x6293_2081) == 0x9ADD_2096
    ensures ByteStep(0x9ADD_2096) == 0x19F6_EB51 && ByteStep(0x19F6_EB51) == 0x1C75_9789 && ByteStep(0x1C75_9789) == 0x9478_4E13 && ByteStep(0x9478_4E13) == 0x842A_3990
  {
  }

  lemma PadConstants1()
    ensures ByteStep(0x842A_3990) == 0xF08B_B97D && ByteStep(0xF08B_B97D) == 0x2E44_8638 && ByteStep(0x2E44_8638) == 0x282C_FC18 && ByteStep(0x282C_FC18) == 0x1344_B4AA
    ensures ByteStep(0x1344_B4AA) == 0x3610_0E42 && ByteStep(0x3610_0E42) == 0x98E4_30B2 && ByteStep(0x98E4_30B2) == 0x25F7_3690 && ByteStep(0x25F7_3690) == 0xF02A_6472
  {
  }

  lemma PadConstants2()
    ensures ByteStep(0xF02A_6472) == 0xBEFB_3A74 && ByteStep(0xBEFB_3A74) == 0x57D6_4E1F && ByteStep(0x57D6_4E1F) == 0x8D5F_DBBB && ByteStep(0x8D5F_DBBB) == 0x5C3E_35DF
    ensures ByteStep(0x5C3E_35DF) == 0x1630_F170 && ByteStep(0x1630_F170) == 0x5013_41CD && ByteStep(0x5013_41CD) == 0xE585_AD4C && ByteStep(0xE585_AD4C) == 0x7F8F_8816
  {
  }

  lemma PadConstants3()
    ensures ByteStep(0x7F8F_8816) == 0xF4AB_3AD9 && ByteStep(0xF4AB_3AD9) == 0xFFFB_C14A && ByteStep(0xFFFB_C14A) == 0x96F6_534F && ByteStep(0x96F6_534F) == 0xE6F5_AA52
    ensures ByteStep(0xE6F5_AA52) == 0x8583_C572 && ByteStep(0x8583_C572) == 0xBE8E_93D5 && ByteStep(0xBE8E_93D5) == 0xF607_A8C8 && ByteStep(0xF607_A8C8) == 0x9549_4D2A
  {
  }

  lemma PadEight(n: nat, x0: bv32, x1: bv32, x2: bv32, x3: bv32, x4: bv32, x5: bv32, x6: bv32, x7: bv32, x8: bv32)
    requires Padded(n) == x0
    requires ByteStep(x0) == x1 && ByteStep(x1) == x2 && ByteStep(x2) == x3 && ByteStep(x3) == x4
    requires ByteStep(x4) == x5 && ByteStep(x5) == x6 && ByteStep(x6) == x7 && ByteStep(x7) == x8
    ensures Padded(n + 1) == x1 && Padded(n + 2) == x2 && Padded(n + 3) == x3 && Padded(n + 4) == x4
    ensures Padded(n + 5) == x5 && Padded(n + 6) == x6 && Padded(n + 7) == x7 && Padded(n + 8) == x8
  {
  }

  lemma PadDiffers0(base: nat, n: nat)
    requires Padded(base) == 0xDEBB_20E3
    ensures base < n <= base + 8 ==> Padded(n) != RESIDUE
    ensures Padded(base + 8) == 0x842A_3990
  {
    PadConstants0();
    PadEight(base, 0xDEBB_20E3, 0x39DD_08E2, 0x4E3D_5E5C, 0x6293_2081, 0x9ADD_2096, 0x19F6_EB51, 0x1C75_9789, 0x9478_4E13, 0x842A_3990);
  }

  lemma PadDiffers1(base: nat, n: nat)
    requires Padded(base) == 0x842A_3990
    ensures base < n <= base + 8 ==> Padded(n) != RESIDUE
    ensures Padded(base + 8) == 0xF02A_6472
  {
    PadConstants1();
    PadEight(base, 0x842A_3990, 0xF08B_B97D, 0x2E44_8638, 0x282C_FC18, 0x1344_B4AA, 0x3610_0E42, 0x98E4_30B2, 0x25F7_3690, 0xF02A_6472);
  }

  lemma PadDiffers2(base: nat, n: nat)
    requires Padded(base) == 0xF02A_6472
    ensures base < n <= base + 8 ==> Padded(n) != RESIDUE
    ensures Padded(base + 8) == 0x7F8F_8816
  {
    PadConstants2();
    PadEight(base, 0xF02A_6472, 0xBEFB_3A74, 0x57D6_4E1F, 0x8D5F_DBBB, 0x5C3E_35DF, 0x1630_F170, 0x5013_41CD, 0xE585_AD4C, 0x7F8F_8816);
  }

  lemma PadDiffers3(base: nat, n: nat)
    requires Padded(base) == 0x7F8F_8816
    ensures base < n <= base + 8 ==> Padded(n) != RESIDUE
    ensures Padded(base + 8) == 0x9549_4D2A
  {
    PadConstants3();
    PadEight(base, 0x7F8F_8816, 0xF4AB_3AD9, 0xFFFB_C14A, 0x96F6_534F, 0xE6F5_AA52, 0x8583_C572, 0xBE8E_93D5, 0xF607_A8C8, 0x9549_4D2A);
  }

  lemma PaddedDiffers(base: nat, n: nat)
    requires base == 0 && 1 <= n <= 32
    ensures Padded(n) != RESIDUE
  {
    PadDiffers0(base, n);
    PadDiffers1(base + 8, n);
    PadDiffers2(base + 16, n);
    PadDiffers3(base + 24, n);
  }

  /** One to 32 zero bytes after the FCS always destroy it. */
  lemma PaddingBreaksFcs(frame: seq<byte>, n: nat)
    requires FcsHolds(frame) && 1 <= n <= 32
    ensures !FcsHolds(frame + Zeros(n))
  {
    FcsHoldsIffResidue(frame);
    SerialSplit(INITIAL, RESIDUE, frame, Zeros(n));
    PaddedIsSerial(n);
    FcsHoldsIffResidue(frame + Zeros(n));
    PaddedDiffers(0, n);
  }

  // ---------- The check value ----------

  /** One more byte, with the register spelled out. */
  lemma NextRegister(data: seq<byte>, k: nat, register: bv32, mixed: bv32, next: bv32)
    requires k < |data| && register == Serial(0xFFFF_FFFF, Bits(data[..k]))
    requires mixed == register ^ (data[k] as bv32) && ByteStep(mixed) == next
    ensures Serial(0xFFFF_FFFF, Bits(data[..k + 1])) == next
  {
    SerialAppendByte(0xFFFF_FFFF, data[..k], register, data[k]);
    assert data[..k] + [data[k]] == data[..k + 1];
  }

  lemma CheckSteps0()
    ensures 0xFFFF_FFFF ^ (0x31 as byte as bv32) == 0xFFFF_FFCE && ByteStep(0xFFFF_FFCE) == 0x7C23_1048
    ensures 0x7C23_1048 ^ (0x32 as byte as bv32) == 0x7C23_107A && ByteStep(0x7C23_107A) == 0xB0AC_BB32
    ensures 0xB0AC_BB32 ^ (0x33 as byte as bv32) == 0xB0AC_BB01 && ByteStep(0xB0AC_BB01) == 0x77B7_9C2D
  {
  }

  lemma CheckSteps1()
    ensures 0x77B7_9C2D ^ (0x34 as byte as bv32) == 0x77B7_9C19 && ByteStep(0x77B7_9C19) == 0x641C_1F5C
    ensures 0x641C_1F5C ^ (0x35 as byte as bv32) == 0x641C_1F69 && ByteStep(0x641C_1F69) == 0x340A_C5E3
    ensures 0x340A_C5E3 ^ (0x36 as byte as bv32) == 0x340A_C5D5 && ByteStep(0x340A_C5D5) == 0xF68D_2C9E
  {
  }

  lemma CheckSteps2()
    ensures 0xF68D_2C9E ^ (0x37 as byte as bv32) == 0xF68D_2CA9 && ByteStep(0xF68D_2CA9) == 0xAFFC_9660
    ensures 0xAFFC_9660 ^ (0x38 as byte as bv32) == 0xAFFC_9658 && ByteStep(0xAFFC_9658) == 0x651F_2550
    ensures 0x651F_2550 ^ (0x39 as byte as bv32) == 0x651F_2569 && ByteStep(0x651F_2569) == 0x340B_C6D9
  {
  }

  /** The check value of the CRC-32: the one of the digits 1 to 9, and that of no bytes. */
  lemma CheckValue()
    ensures Crc32([0x31, 0x32, 0x33, 0x34, 0x35, 0x36, 0x37, 0x38, 0x39]) == 0xCBF4_3926 && Crc32([]) == 0
  {
    CheckSteps0();
    CheckSteps1();
    CheckSteps2();
    NoBytes();
    hide ByteStep, Serial, Bits;
    var digits: seq<byte> := [0x31, 0x32, 0x33, 0x34, 0x35, 0x36, 0x37, 0x38, 0x39];
    assert digits[..0] == [] && digits[..9] == digits;
    NextRegister(digits, 0, 0xFFFF_FFFF, 0xFFFF_FFCE, 0x7C23_1048);
    NextRegister(digits, 1, 0x7C23_1048, 0x7C23_107A, 0xB0AC_BB32);
    NextRegister(digits, 2, 0xB0AC_BB32, 0xB0AC_BB01, 0x77B7_9C2D);
    NextRegister(digits, 3, 0x77B7_9C2D, 0x77B7_9C19, 0x641C_1F5C);
    NextRegister(digits, 4, 0x641C_1F5C, 0x641C_1F69, 0x340A_C5E3);
    NextRegister(digits, 5, 0x340A_C5E3, 0x340A_C5D5, 0xF68D_2C9E);
    NextRegister(digits, 6, 0xF68D_2C9E, 0xF68D_2CA9, 0xAFFC_9660);
    NextRegister(digits, 7, 0xAFFC_9660, 0xAFFC_9658, 0x651F_2550);
    NextRegister(digits, 8, 0x651F_2550, 0x651F_2569, 0x340B_C6D9);
  }

  lemma NoBytes()
    ensures Serial(0xFFFF_FFFF, Bits([])) == 0xFFFF_FFFF
  {
  }
}
