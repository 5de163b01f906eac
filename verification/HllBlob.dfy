/** The HLL_8 wire format: a 40-byte preamble followed by one byte per register. Doubles
    are carried as their 64-bit patterns. */
module HllBlob {
  import opened DevicePrimitives
  import opened HllReduction
  import opened LittleEndian

  const PREAMBLE_BYTES: nat := 40
  const HLL_PREINTS: byte := 10
  const SER_VER: byte := 1
  const FAMILY_ID: byte := 7
  const MIN_LG_K: nat := 4
  const MODE_HLL: nat := 2
  const TARGET_HLL_8: nat := 2

  // weights of the flag bits
  const EMPTY: nat := 4
  const COMPACT: nat := 8
  const OUT_OF_ORDER: nat := 16
  const FULL_SIZE: nat := 32

  datatype Fields = Fields(
    lgK: byte, mode: nat, target: nat, isEmpty: bool, isCompact: bool, outOfOrder: bool, fullSize: bool,
    curMin: byte, numAtCurMin: nat, kxq0: nat, kxq1: nat, hipAccum: nat, auxLgSize: byte, auxCount: nat)

  datatype Fault = ShortBlob | SerVer | Family | PreambleInts | LgK | Mode | Target | BlobSize | RegisterRange

  datatype Head = Parsed(fields: Fields) | BadHead(fault: Fault)

  // ----- the preamble -----

  function Flag(on: bool, weight: nat): nat {
    if on then weight else 0
  }

  function FlagsByte(f: Fields): byte {
    Flag(f.isEmpty, EMPTY) + Flag(f.isCompact, COMPACT) + Flag(f.outOfOrder, OUT_OF_ORDER) + Flag(f.fullSize, FULL_SIZE)
  }

  function ModeByte(f: Fields): byte {
    f.target % 4 * 4 + f.mode % 4
  }

  function Bytes8(f: Fields): (bs: seq<byte>)
    ensures |bs| == 8
  {
    [HLL_PREINTS, SER_VER, FAMILY_ID, f.lgK, f.auxLgSize, FlagsByte(f), f.curMin, ModeByte(f)]
  }

  function Preamble(f: Fields): (bs: seq<byte>)
    ensures |bs| == PREAMBLE_BYTES
  {
    Bytes8(f) + ToBytes(f.hipAccum, 8) + ToBytes(f.kxq0, 8) + ToBytes(f.kxq1, 8)
    + ToBytes(f.numAtCurMin, 4) + ToBytes(f.auxCount, 4)
  }

  method WriteFirst(bytes: array<byte>, f: Fields)
    requires bytes.Length == PREAMBLE_BYTES
    modifies bytes
    ensures bytes[..8] == Bytes8(f)
  {
    bytes[0] := HLL_PREINTS;
    bytes[1] := SER_VER;
    bytes[2] := FAMILY_ID;
    bytes[3] := f.lgK;
    bytes[4] := f.auxLgSize;
    var flags: nat := 0;
    if f.isEmpty { flags := flags + EMPTY; }
    if f.isCompact { flags := flags + COMPACT; }
    if f.outOfOrder { flags := flags + OUT_OF_ORDER; }
    if f.fullSize { flags := flags + FULL_SIZE; }
    bytes[5] := flags;
    bytes[6] := f.curMin;
    bytes[7] := f.target % 4 * 4 + f.mode % 4;
  }

  method AssemblePreamble(f: Fields) returns (b: seq<byte>)
    ensures b == Preamble(f)
  {
    var bytes := new byte[PREAMBLE_BYTES](_ => 0);
    WriteFirst(bytes, f);
    ghost var done := Bytes8(f);
    WriteField(bytes, 8, done, ToBytes(f.hipAccum, 8));
    done := done + ToBytes(f.hipAccum, 8);
    WriteField(bytes, 16, done, ToBytes(f.kxq0, 8));
    done := done + ToBytes(f.kxq0, 8);
    WriteField(bytes, 24, done, ToBytes(f.kxq1, 8));
    done := done + ToBytes(f.kxq1, 8);
    WriteField(bytes, 32, done, ToBytes(f.numAtCurMin, 4));
    done := done + ToBytes(f.numAtCurMin, 4);
    WriteField(bytes, 36, done, ToBytes(f.auxCount, 4));
    b := bytes[..];
  }

  method WriteField(bytes: array<byte>, offset: nat, ghost done: seq<byte>, value: seq<byte>)
    requires |done| == offset && offset + |value| <= bytes.Length && bytes[..offset] == done
    modifies bytes
    ensures bytes[..offset + |value|] == done + value
  {
    WriteAt(bytes, offset, value);
    assert bytes[..offset + |value|] == bytes[..][..offset + |value|];
  }

  function FieldsIn(b: seq<byte>): Fields
    requires |b| >= PREAMBLE_BYTES
  {
    Fields(b[3], b[7] % 4, b[7] / 4 % 4,
           Bit(b[5], EMPTY), Bit(b[5], COMPACT), Bit(b[5], OUT_OF_ORDER), Bit(b[5], FULL_SIZE),
           b[6], FromBytes(b[32..36]), FromBytes(b[16..24]), FromBytes(b[24..32]), FromBytes(b[8..16]),
           b[4], FromBytes(b[36..40]))
  }

  datatype Verdict = Fine | Faulty(fault: Fault)

  function Judge(b: seq<byte>): Verdict
    requires |b| >= PREAMBLE_BYTES
  {
    if b[1] != SER_VER then Faulty(SerVer)
    else if b[2] != FAMILY_ID then Faulty(Family)
    else if b[0] != HLL_PREINTS then Faulty(PreambleInts)
    else if b[3] < MIN_LG_K || b[3] > MAX_LG_CONFIG_K then Faulty(LgK)
    else if b[7] % 4 != MODE_HLL then Faulty(Mode)
    else if b[7] / 4 % 4 != TARGET_HLL_8 then Faulty(Target)
    else Fine
  }

  function ParsePreamble(b: seq<byte>): Head
    requires |b| >= PREAMBLE_BYTES
  {
    match Judge(b)
    case Fine => Parsed(FieldsIn(b))
    case Faulty(fault) => BadHead(fault)
  }

  predicate Supported(f: Fields) {
    && MIN_LG_K <= f.lgK <= MAX_LG_CONFIG_K && f.mode == MODE_HLL && f.target == TARGET_HLL_8
    && f.numAtCurMin < 0x1_0000_0000 && f.auxCount < 0x1_0000_0000
    && f.kxq0 < 0x1_0000_0000_0000_0000 && f.kxq1 < 0x1_0000_0000_0000_0000 && f.hipAccum < 0x1_0000_0000_0000_0000
  }

  lemma PreambleFields(f: Fields, rest: seq<byte>)
    ensures var b := Preamble(f) + rest;
            && b[..8] == Bytes8(f)
            && b[8..16] == ToBytes(f.hipAccum, 8) && b[16..24] == ToBytes(f.kxq0, 8) && b[24..32] == ToBytes(f.kxq1, 8)
            && b[32..36] == ToBytes(f.numAtCurMin, 4) && b[36..40] == ToBytes(f.auxCount, 4)
            && b[40..] == rest
  {
    var b := Preamble(f) + rest;
    assert b[..40] == Preamble(f) && b[40..] == rest;
    assert b[..8] == Bytes8(f);
    assert b[8..16] == ToBytes(f.hipAccum, 8);
    assert b[16..24] == ToBytes(f.kxq0, 8);
    assert b[24..32] == ToBytes(f.kxq1, 8);
    assert b[32..36] == ToBytes(f.numAtCurMin, 4);
    assert b[36..40] == ToBytes(f.auxCount, 4);
  }

  /** The bits of a byte made of four flags. */
  lemma FlagBits(f: Fields)
    ensures var b := FlagsByte(f);
            && (Bit(b, EMPTY) <==> f.isEmpty) && (Bit(b, COMPACT) <==> f.isCompact)
            && (Bit(b, OUT_OF_ORDER) <==> f.outOfOrder) && (Bit(b, FULL_SIZE) <==> f.fullSize)
  {}

  lemma ModeBits(f: Fields)
    requires f.mode < 4 && f.target < 4
    ensures ModeByte(f) % 4 == f.mode && ModeByte(f) / 4 % 4 == f.target
  {}

  lemma FirstBytes(b: seq<byte>)
    requires |b| >= 8
    ensures b[..8] == [b[0], b[1], b[2], b[3], b[4], b[5], b[6], b[7]]
  {}

  /** Parsing an assembled preamble gives its fields back, whatever follows it. */
  lemma FieldsRoundTrip(f: Fields, rest: seq<byte>)
    requires Supported(f)
    ensures ParsePreamble(Preamble(f) + rest) == Parsed(f)
  {
    var b := Preamble(f) + rest;
    Limits();
    PreambleFields(f, rest);
    FlagBits(f);
    ModeBits(f);
    FirstBytes(b);
    ReadWritten(f.hipAccum, 8);
    ReadWritten(f.kxq0, 8);
    ReadWritten(f.kxq1, 8);
    ReadWritten(f.numAtCurMin, 4);
    ReadWritten(f.auxCount, 4);
  }

  /** The bits that no field carries. */
  predicate ReservedClear(b: seq<byte>)
    requires |b| >= PREAMBLE_BYTES
  {
    b[5] % 4 == 0 && b[5] < 64 && b[7] < 16
  }

  /** Four flags read from a byte and put together again are bits 2 to 5 of that byte. */
  lemma FlagsBack(b: byte)
    ensures Flag(Bit(b, EMPTY), EMPTY) + Flag(Bit(b, COMPACT), COMPACT) + Flag(Bit(b, OUT_OF_ORDER), OUT_OF_ORDER)
            + Flag(Bit(b, FULL_SIZE), FULL_SIZE) == b / 4 % 16 * 4
  {
    var q := b / 4;
    assert b / 8 == q / 2 && b / 16 == q / 4 && b / 32 == q / 8;
    LowNibble(q);
  }

  lemma LowNibble(q: nat)
    ensures q % 16 == q % 2 + 2 * (q / 2 % 2) + 4 * (q / 4 % 2) + 8 * (q / 8 % 2)
  {
    var q1 := q / 2;
    var q2 := q1 / 2;
    var q3 := q2 / 2;
    assert q / 4 == q2 && q / 8 == q3;
    assert q == 16 * (q3 / 2) + 8 * (q3 % 2) + 4 * (q2 % 2) + 2 * (q1 % 2) + q % 2;
  }

  lemma PackedBytesBack(b: seq<byte>)
    requires |b| >= PREAMBLE_BYTES
    ensures FlagsByte(FieldsIn(b)) == b[5] / 4 % 16 * 4 && ModeByte(FieldsIn(b)) == b[7] % 16
  {
    FlagsBack(b[5]);
    Nibble(b[7]);
  }

  lemma ReservedBits(flags: byte, mode: byte)
    ensures flags / 4 % 16 * 4 == flags <==> flags % 4 == 0 && flags < 64
    ensures mode % 16 == mode <==> mode < 16
  {}

  lemma Bytes8Back(b: seq<byte>)
    requires |b| >= PREAMBLE_BYTES && Judge(b) == Fine
    ensures Bytes8(FieldsIn(b)) == b[..8] <==> ReservedClear(b)
  {
    var f := FieldsIn(b);
    PackedBytesBack(b);
    ReservedBits(b[5], b[7]);
    FirstBytes(b);
    assert Bytes8(f) == [b[0], b[1], b[2], b[3], b[4], FlagsByte(f), b[6], ModeByte(f)];
  }

  lemma TailBack(b: seq<byte>)
    requires |b| == PREAMBLE_BYTES
    ensures Preamble(FieldsIn(b)) == Bytes8(FieldsIn(b)) + b[8..]
  {
    WriteRead(b[8..16]);
    WriteRead(b[16..24]);
    WriteRead(b[24..32]);
    WriteRead(b[32..36]);
    WriteRead(b[36..40]);
    FivePieces(Bytes8(FieldsIn(b)), b);
  }

  lemma FivePieces(head: seq<byte>, b: seq<byte>)
    requires |b| == PREAMBLE_BYTES
    ensures head + b[8..16] + b[16..24] + b[24..32] + b[32..36] + b[36..40] == head + b[8..]
  {}

  /** Reassembling what was parsed from 40 bytes gives the same bytes exactly if the reserved
      bits were clear. */
  lemma PreambleRoundTripExactly(b: seq<byte>)
    requires |b| == PREAMBLE_BYTES && ParsePreamble(b).Parsed?
    ensures Preamble(ParsePreamble(b).fields) == b <==> ReservedClear(b)
  {
    Bytes8Back(b);
    TailBack(b);
    SamePrefix(Bytes8(FieldsIn(b)), b);
  }

  lemma SamePrefix(head: seq<byte>, b: seq<byte>)
    requires |head| == 8 <= |b|
    ensures head + b[8..] == b <==> head == b[..8]
  {
    assert b == b[..8] + b[8..];
    assert (head + b[8..])[..8] == head;
  }

  // ----- the blob -----

  datatype Load = Loaded(lgK: nat, registers: seq<nat>) | Refused(fault: Fault)

  /** What serialization writes in the preamble. The derived fields come from the reduction;
      `bits` is the encoding of a double. */
  function FieldsFor(lgK: byte, size: nat, compact: bool, r: Reduction, bits: real -> nat): Fields {
    Fields(lgK, MODE_HLL, TARGET_HLL_8, r.numAtCurMin == size, compact, true, true, 0, r.numAtCurMin,
           bits(r.kxq0), bits(r.kxq1), bits(0.0), 0, 0)
  }

  function FieldsOf(lgK: byte, registers: seq<nat>, compact: bool, fl: real -> real, bits: real -> nat): Fields {
    FieldsFor(lgK, |registers|, compact, Reduced(registers, fl), bits)
  }

  function RegisterBytes(registers: seq<nat>): (bs: seq<byte>) {
    seq(|registers|, i requires 0 <= i < |registers| => registers[i] % 256)
  }

  function Blob(lgK: byte, registers: seq<nat>, compact: bool, fl: real -> real, bits: real -> nat): seq<byte> {
    Preamble(FieldsOf(lgK, registers, compact, fl, bits)) + RegisterBytes(registers)
  }

  /** A register array of a supported precision. */
  ghost predicate SupportedArray(lgK: nat, registers: seq<nat>) {
    MIN_LG_K <= lgK <= MAX_LG_CONFIG_K && |registers| == Pow2(lgK) && Registers(registers)
  }

  method Serialize(lgK: byte, registers: seq<nat>, compact: bool, fl: real -> real, bits: real -> nat)
    returns (out: seq<byte>)
    requires SupportedArray(lgK, registers) && FixesUnits(fl)
    ensures out == Blob(lgK, registers, compact, fl, bits)
  {
    var r := ReduceHll8(registers, lgK, fl);
    var preamble := AssemblePreamble(FieldsFor(lgK, |registers|, compact, r, bits));
    out := preamble;
    for i := 0 to |registers|
      invariant out == preamble + RegisterBytes(registers)[..i]
    {
      out := out + [registers[i] % 256];
    }
    assert RegisterBytes(registers)[..|registers|] == RegisterBytes(registers);
  }

  function Deserialize(bytes: seq<byte>): Load {
    if |bytes| < PREAMBLE_BYTES then Refused(ShortBlob)
    else
      match ParsePreamble(bytes)
      case BadHead(fault) => Refused(fault)
      case Parsed(f) =>
        if |bytes| != PREAMBLE_BYTES + Pow2(f.lgK) then Refused(BlobSize)
        else
          var registers := Values(bytes[PREAMBLE_BYTES..]);
          if Registers(registers) then Loaded(f.lgK, registers) else Refused(RegisterRange)
  }

  function Values(bs: seq<byte>): seq<nat> {
    seq(|bs|, i requires 0 <= i < |bs| => bs[i] as nat)
  }

  method LoadBlob(bytes: seq<byte>) returns (load: Load)
    ensures load == Deserialize(bytes)
  {
    if |bytes| < PREAMBLE_BYTES { return Refused(ShortBlob); }
    var head := ParsePreamble(bytes);
    if head.BadHead? { return Refused(head.fault); }
    var configK := Pow2(head.fields.lgK);
    if |bytes| != PREAMBLE_BYTES + configK { return Refused(BlobSize); }
    var registers: seq<nat> := [];
    for i := 0 to configK
      invariant registers == Values(bytes[PREAMBLE_BYTES..])[..i]
      invariant Registers(registers)
    {
      var value := bytes[PREAMBLE_BYTES + i];
      assert Values(bytes[PREAMBLE_BYTES..])[i] == value;
      if value > MAX_RHO { return Refused(RegisterRange); }
      registers := registers + [value];
    }
    assert Values(bytes[PREAMBLE_BYTES..])[..configK] == Values(bytes[PREAMBLE_BYTES..]);
    return Loaded(head.fields.lgK, registers);
  }

  ghost predicate Encoding(bits: real -> nat) {
    forall x: real :: bits(x) < 0x1_0000_0000_0000_0000
  }

  lemma SupportedFields(lgK: byte, registers: seq<nat>, compact: bool, fl: real -> real, bits: real -> nat)
    requires SupportedArray(lgK, registers) && Encoding(bits)
    ensures Supported(FieldsOf(lgK, registers, compact, fl, bits))
  {
    ConfigRange(lgK);
    ZerosBounded(registers);
  }

  /** Loading a serialized sketch restores its registers. */
  lemma BlobRoundTrip(lgK: byte, registers: seq<nat>, compact: bool, fl: real -> real, bits: real -> nat)
    requires SupportedArray(lgK, registers) && Encoding(bits)
    ensures Deserialize(Blob(lgK, registers, compact, fl, bits)) == Loaded(lgK, registers)
  {
    SupportedFields(lgK, registers, compact, fl, bits);
    WrittenLoads(FieldsOf(lgK, registers, compact, fl, bits), registers);
  }

  lemma WrittenLoads(f: Fields, registers: seq<nat>)
    requires Supported(f) && SupportedArray(f.lgK, registers)
    ensures Deserialize(Preamble(f) + RegisterBytes(registers)) == Loaded(f.lgK, registers)
  {
    var tail := RegisterBytes(registers);
    FieldsRoundTrip(f, tail);
    assert (Preamble(f) + tail)[PREAMBLE_BYTES..] == tail;
    RegistersThere(registers);
  }

  lemma RegistersThere(registers: seq<nat>)
    requires Registers(registers)
    ensures RegisterBytes(registers) == registers && Values(RegisterBytes(registers)) == registers
  {}

  // ----- the layout, byte by byte -----

  /** Fixed bytes, flag bits, and little-endian numbers at fixed offsets. */
  lemma PreambleLayout(f: Fields, rest: seq<byte>)
    ensures var b := Preamble(f) + rest;
            && |b| == 40 + |rest| && b[40..] == rest
            && b[..5] == [10, 1, 7, f.lgK, f.auxLgSize] && b[6] == f.curMin
            && (Bit(b[5], 4) <==> f.isEmpty) && (Bit(b[5], 8) <==> f.isCompact)
            && (Bit(b[5], 16) <==> f.outOfOrder) && (Bit(b[5], 32) <==> f.fullSize)
            && b[5] % 4 == 0 && b[5] < 64
            && b[7] == f.mode % 4 + 4 * (f.target % 4)
            && DigitsAt(b, 8, 8, f.hipAccum) && DigitsAt(b, 16, 8, f.kxq0) && DigitsAt(b, 24, 8, f.kxq1)
            && DigitsAt(b, 32, 4, f.numAtCurMin) && DigitsAt(b, 36, 4, f.auxCount)
  {
    var b := Preamble(f) + rest;
    PreambleFields(f, rest);
    FirstBytes(b);
    assert b[..5] == b[..8][..5];
    FlagBits(f);
    PreambleDigits(f, rest);
  }

  lemma PreambleDigits(f: Fields, rest: seq<byte>)
    ensures var b := Preamble(f) + rest;
            && DigitsAt(b, 8, 8, f.hipAccum) && DigitsAt(b, 16, 8, f.kxq0) && DigitsAt(b, 24, 8, f.kxq1)
            && DigitsAt(b, 32, 4, f.numAtCurMin) && DigitsAt(b, 36, 4, f.auxCount)
  {
    var b := Preamble(f) + rest;
    PreambleFields(f, rest);
    DigitsThere(b, 8, 8, f.hipAccum);
    DigitsThere(b, 16, 8, f.kxq0);
    DigitsThere(b, 24, 8, f.kxq1);
    DigitsThere(b, 32, 4, f.numAtCurMin);
    DigitsThere(b, 36, 4, f.auxCount);
  }

  /** The bytes of a saved sketch: out of order, in full size, current minimum 0, and flagged
      empty exactly if every register is 0. */
  lemma SavedLayout(lgK: byte, registers: seq<nat>, compact: bool, fl: real -> real, bits: real -> nat)
    requires SupportedArray(lgK, registers)
    ensures var b := Blob(lgK, registers, compact, fl, bits);
            && |b| == 40 + |registers| && b[40..] == registers
            && b[..5] == [10, 1, 7, lgK, 0] && b[6] == 0 && b[7] == 10
            && (Bit(b[5], 4) <==> forall i :: 0 <= i < |registers| ==> registers[i] == 0)
            && (Bit(b[5], 8) <==> compact) && Bit(b[5], 16) && Bit(b[5], 32) && b[5] % 4 == 0 && b[5] < 64
  {
    var r := SavedReduction(lgK, registers, compact, fl, bits);
    ReductionLayout(lgK, |registers|, compact, r, bits, registers);
  }

  /** The numbers of a saved sketch. The first sum holds a unit for each register from 32 on
      besides the share of the others; the second is the rounded sum over the registers from
      32 on; the stored count is that of the zero registers; nothing is kept for HIP, and
      there is no auxiliary table. */
  lemma SavedNumbers(lgK: byte, registers: seq<nat>, compact: bool, fl: real -> real, bits: real -> nat)
    requires SupportedArray(lgK, registers)
    ensures var b := Blob(lgK, registers, compact, fl, bits);
            && DigitsAt(b, 8, 8, bits(0.0))
            && DigitsAt(b, 16, 8, bits(LowSum(registers) + HighCount(registers) as real))
            && DigitsAt(b, 24, 8, bits(RoundedSum(HighTerms(registers), fl)))
            && DigitsAt(b, 32, 4, multiset(registers)[0])
            && DigitsAt(b, 36, 4, 0)
  {
    var r := SavedReduction(lgK, registers, compact, fl, bits);
    ReductionLayout(lgK, |registers|, compact, r, bits, registers);
  }

  lemma SavedReduction(lgK: byte, registers: seq<nat>, compact: bool, fl: real -> real, bits: real -> nat)
    returns (r: Reduction)
    requires SupportedArray(lgK, registers)
    ensures Blob(lgK, registers, compact, fl, bits)
            == Preamble(FieldsFor(lgK, |registers|, compact, r, bits)) + registers
    ensures r.kxq0 == LowSum(registers) + HighCount(registers) as real
    ensures r.kxq1 == RoundedSum(HighTerms(registers), fl)
    ensures r.numAtCurMin == multiset(registers)[0]
    ensures r.numAtCurMin == |registers| <==> forall i :: 0 <= i < |registers| ==> registers[i] == 0
  {
    r := Reduced(registers, fl);
    ReducedExactly(registers, fl);
    RegistersThere(registers);
  }

  lemma ReductionLayout(lgK: byte, size: nat, compact: bool, r: Reduction, bits: real -> nat, rest: seq<byte>)
    ensures var b := Preamble(FieldsFor(lgK, size, compact, r, bits)) + rest;
            && |b| == 40 + |rest| && b[40..] == rest
            && b[..5] == [10, 1, 7, lgK, 0] && b[6] == 0 && b[7] == 10
            && (Bit(b[5], 4) <==> r.numAtCurMin == size)
            && (Bit(b[5], 8) <==> compact) && Bit(b[5], 16) && Bit(b[5], 32) && b[5] % 4 == 0 && b[5] < 64
            && DigitsAt(b, 8, 8, bits(0.0)) && DigitsAt(b, 16, 8, bits(r.kxq0)) && DigitsAt(b, 24, 8, bits(r.kxq1))
            && DigitsAt(b, 32, 4, r.numAtCurMin) && DigitsAt(b, 36, 4, 0)
  {
    PreambleLayout(FieldsFor(lgK, size, compact, r, bits), rest);
  }

  // ----- which fault is reported -----

  /** The position of a check among all checks. */
  function Rank(fault: Fault): nat {
    match fault
    case ShortBlob => 0
    case SerVer => 1
    case Family => 2
    case PreambleInts => 3
    case LgK => 4
    case Mode => 5
    case Target => 6
    case BlobSize => 7
    case RegisterRange => 8
  }

  /** What each check objects to. */
  ghost predicate Shows(b: seq<byte>, fault: Fault) {
    match fault
    case ShortBlob => |b| < 40
    case SerVer => |b| >= 40 && b[1] != 1
    case Family => |b| >= 40 && b[2] != 7
    case PreambleInts => |b| >= 40 && b[0] != 10
    case LgK => |b| >= 40 && !(4 <= b[3] <= 21)
    case Mode => |b| >= 40 && b[7] % 4 != 2
    case Target => |b| >= 40 && b[7] / 4 % 4 != 2
    case BlobSize => |b| >= 40 && |b| != 40 + Pow2(b[3])
    case RegisterRange => exists i :: 40 <= i < |b| && b[i] > 63
  }

  /** A blob is refused with the first fault it shows; one that shows none gives its
      precision and its registers. */
  lemma FirstFault(b: seq<byte>)
    ensures match Deserialize(b)
            case Loaded(lgK, registers) =>
              (forall g :: !Shows(b, g)) && lgK == b[3] && registers == b[40..]
            case Refused(fault) =>
              Shows(b, fault) && forall g :: Rank(g) < Rank(fault) ==> !Shows(b, g)
  {
    if |b| >= 40 {
      var values := Values(b[40..]);
      assert values == b[40..];
      assert forall i :: 40 <= i < |b| ==> b[i] == values[i - 40];
      assert forall i :: 0 <= i < |values| ==> values[i] == b[i + 40];
    }
  }

  /** An accepted blob always holds a register array. */
  lemma LoadedArray(bytes: seq<byte>)
    requires Deserialize(bytes).Loaded?
    ensures SupportedArray(Deserialize(bytes).lgK, Deserialize(bytes).registers)
  {}

  /** The stored sums, counts, minimum, auxiliary sizes and flags play no part in loading. */
  lemma DerivedFieldsIgnored(a: seq<byte>, b: seq<byte>)
    requires |a| == |b| >= PREAMBLE_BYTES
    requires a[..4] == b[..4] && a[7] % 16 == b[7] % 16 && a[PREAMBLE_BYTES..] == b[PREAMBLE_BYTES..]
    ensures Deserialize(a) == Deserialize(b)
  {
    SameVerdict(a, b);
  }

  lemma SameVerdict(a: seq<byte>, b: seq<byte>)
    requires |a| >= PREAMBLE_BYTES && |b| >= PREAMBLE_BYTES
    requires a[..4] == b[..4] && a[7] % 16 == b[7] % 16
    ensures Judge(a) == Judge(b) && a[3] == b[3]
  {
    FourBytes(a);
    FourBytes(b);
    Nibble(a[7]);
    Nibble(b[7]);
  }

  lemma FourBytes(b: seq<byte>)
    requires |b| >= 4
    ensures b[..4] == [b[0], b[1], b[2], b[3]]
  {}

  lemma Nibble(n: nat)
    ensures n % 16 % 4 == n % 4 && n % 16 / 4 == n / 4 % 4
  {}

  /** What loads is saved as a preamble of its own followed by the register bytes it had. */
  lemma SavedBlob(bytes: seq<byte>, compact: bool, fl: real -> real, bits: real -> nat) returns (f: Fields)
    requires Deserialize(bytes).Loaded? && Encoding(bits)
    ensures var load := Deserialize(bytes);
            && load.lgK < 256
            && f == FieldsOf(load.lgK, load.registers, compact, fl, bits)
            && Blob(load.lgK, load.registers, compact, fl, bits) == Preamble(f) + bytes[PREAMBLE_BYTES..]
    ensures Supported(f) && |bytes| >= PREAMBLE_BYTES && Judge(bytes) == Fine && bytes[3] == f.lgK
  {
    var load := Deserialize(bytes);
    LoadedArray(bytes);
    f := FieldsOf(load.lgK, load.registers, compact, fl, bits);
    SupportedFields(load.lgK, load.registers, compact, fl, bits);
    RegistersBack(bytes[PREAMBLE_BYTES..]);
  }

  lemma RegistersBack(bs: seq<byte>)
    ensures RegisterBytes(Values(bs)) == bs
  {}

  /** Saving a loaded blob reproduces it byte for byte exactly if its preamble says what the
      registers imply, out of order, without HIP state and with clear reserved bits. */
  lemma ReserializeExactly(bytes: seq<byte>, compact: bool, fl: real -> real, bits: real -> nat)
    requires Deserialize(bytes).Loaded? && Encoding(bits)
    ensures var load := Deserialize(bytes);
            && load.lgK < 256
            && (Blob(load.lgK, load.registers, compact, fl, bits) == bytes
                <==> ReservedClear(bytes) && FieldsIn(bytes) == FieldsOf(load.lgK, load.registers, compact, fl, bits))
  {
    var f := SavedBlob(bytes, compact, fl, bits);
    HeadStays(f, bytes);
  }

  lemma HeadStays(f: Fields, bytes: seq<byte>)
    requires |bytes| >= PREAMBLE_BYTES && Supported(f) && Judge(bytes) == Fine
    ensures Preamble(f) + bytes[PREAMBLE_BYTES..] == bytes <==> ReservedClear(bytes) && FieldsIn(bytes) == f
  {
    BlobSplits(f, bytes);
    HeadOnly(bytes);
    HeadExactly(f, bytes[..PREAMBLE_BYTES]);
  }

  lemma BlobSplits(f: Fields, bytes: seq<byte>)
    requires |bytes| >= PREAMBLE_BYTES
    ensures Preamble(f) + bytes[PREAMBLE_BYTES..] == bytes <==> Preamble(f) == bytes[..PREAMBLE_BYTES]
  {
    assert bytes == bytes[..PREAMBLE_BYTES] + bytes[PREAMBLE_BYTES..];
    assert (Preamble(f) + bytes[PREAMBLE_BYTES..])[..PREAMBLE_BYTES] == Preamble(f);
  }

  lemma HeadExactly(f: Fields, head: seq<byte>)
    requires |head| == PREAMBLE_BYTES && Supported(f) && Judge(head) == Fine
    ensures Preamble(f) == head <==> ReservedClear(head) && FieldsIn(head) == f
  {
    FieldsRoundTrip(f, []);
    assert Preamble(f) + [] == Preamble(f);
    PreambleRoundTripExactly(head);
  }

  lemma HeadOnly(bytes: seq<byte>)
    requires |bytes| >= PREAMBLE_BYTES
    ensures ParsePreamble(bytes[..PREAMBLE_BYTES]) == ParsePreamble(bytes)
    ensures ReservedClear(bytes[..PREAMBLE_BYTES]) == ReservedClear(bytes)
    ensures FieldsIn(bytes[..PREAMBLE_BYTES]) == FieldsIn(bytes)
  {
    var head := bytes[..PREAMBLE_BYTES];
    assert head[8..16] == bytes[8..16] && head[16..24] == bytes[16..24] && head[24..32] == bytes[24..32];
    assert head[32..36] == bytes[32..36] && head[36..40] == bytes[36..40];
  }

  /** Equal but for the flags byte and the HIP field. */
  predicate SameButFlagsAndHip(a: seq<byte>, b: seq<byte>) {
    |a| == |b| && forall i :: 0 <= i < |a| && i != 5 && !(8 <= i < 16) ==> a[i] == b[i]
  }

  /** The preamble agrees with f outside the flags byte and the HIP field. */
  predicate AgreesElsewhere(bytes: seq<byte>, f: Fields)
    requires |bytes| >= PREAMBLE_BYTES
  {
    && bytes[4] == f.auxLgSize && bytes[6] == f.curMin && bytes[7] == ModeByte(f)
    && FromBytes(bytes[16..24]) == f.kxq0 && FromBytes(bytes[24..32]) == f.kxq1
    && FromBytes(bytes[32..36]) == f.numAtCurMin && FromBytes(bytes[36..40]) == f.auxCount
  }

  /** The promise that a reload changes the flags byte and the HIP field only. Of the blobs
      that load, it is kept for exactly those with no auxiliary table, a zero current
      minimum, no stray mode bits, and the sums and counts that the registers imply. Such a
      blob survives whole exactly if those two fields are the saved ones as well. */
  lemma AllButFlagsAndHipSurviveExactly(bytes: seq<byte>, compact: bool, fl: real -> real, bits: real -> nat)
    requires Deserialize(bytes).Loaded? && Encoding(bits)
    ensures var load := Deserialize(bytes);
            && load.lgK < 256
            && var f := FieldsOf(load.lgK, load.registers, compact, fl, bits);
               var saved := Blob(load.lgK, load.registers, compact, fl, bits);
               && (SameButFlagsAndHip(saved, bytes) <==> AgreesElsewhere(bytes, f))
               && (SameButFlagsAndHip(saved, bytes) ==>
                     (saved == bytes <==> bytes[5] == FlagsByte(f) && FromBytes(bytes[8..16]) == f.hipAccum))
  {
    var f := SavedBlob(bytes, compact, fl, bits);
    FieldsSurvive(bytes, f);
  }

  /** The stretches of a blob that are fields of their own. */
  lemma Stretches(a: seq<byte>, b: seq<byte>)
    requires |a| == |b| >= PREAMBLE_BYTES && a[..4] == b[..4] && a[PREAMBLE_BYTES..] == b[PREAMBLE_BYTES..]
    ensures SameButFlagsAndHip(a, b) <==>
              && a[4] == b[4] && a[6] == b[6] && a[7] == b[7]
              && a[16..24] == b[16..24] && a[24..32] == b[24..32] && a[32..36] == b[32..36] && a[36..40] == b[36..40]
    ensures SameButFlagsAndHip(a, b) ==> (a == b <==> a[5] == b[5] && a[8..16] == b[8..16])
  {
    SameRange(a, b, 0, 4);
    SameRange(a, b, 8, 16);
    SameRange(a, b, 16, 24);
    SameRange(a, b, 24, 32);
    SameRange(a, b, 32, 36);
    SameRange(a, b, 36, 40);
    SameRange(a, b, PREAMBLE_BYTES, |a|);
  }

  lemma SameRange(a: seq<byte>, b: seq<byte>, lo: nat, hi: nat)
    requires |a| == |b| && lo <= hi <= |a|
    ensures a[lo..hi] == b[lo..hi] <==> forall i :: lo <= i < hi ==> a[i] == b[i]
  {
    forall i | lo <= i < hi ensures a[i] == a[lo..hi][i - lo] && b[i] == b[lo..hi][i - lo] {}
  }

  /** A field's bytes are there exactly if they decode to the field. */
  lemma FieldThere(v: nat, bs: seq<byte>)
    requires v < Limit(|bs|)
    ensures ToBytes(v, |bs|) == bs <==> FromBytes(bs) == v
  {
    ReadWritten(v, |bs|);
    WriteRead(bs);
  }

  lemma FieldsThere(bytes: seq<byte>, f: Fields)
    requires |bytes| >= PREAMBLE_BYTES && Supported(f)
    ensures ToBytes(f.hipAccum, 8) == bytes[8..16] <==> FromBytes(bytes[8..16]) == f.hipAccum
    ensures ToBytes(f.kxq0, 8) == bytes[16..24] <==> FromBytes(bytes[16..24]) == f.kxq0
    ensures ToBytes(f.kxq1, 8) == bytes[24..32] <==> FromBytes(bytes[24..32]) == f.kxq1
    ensures ToBytes(f.numAtCurMin, 4) == bytes[32..36] <==> FromBytes(bytes[32..36]) == f.numAtCurMin
    ensures ToBytes(f.auxCount, 4) == bytes[36..40] <==> FromBytes(bytes[36..40]) == f.auxCount
  {
    Limits();
    FieldThere(f.hipAccum, bytes[8..16]);
    FieldThere(f.kxq0, bytes[16..24]);
    FieldThere(f.kxq1, bytes[24..32]);
    FieldThere(f.numAtCurMin, bytes[32..36]);
    FieldThere(f.auxCount, bytes[36..40]);
  }

  lemma SavedHead(bytes: seq<byte>, f: Fields)
    requires |bytes| >= PREAMBLE_BYTES && Judge(bytes) == Fine && bytes[3] == f.lgK
    ensures var saved := Preamble(f) + bytes[PREAMBLE_BYTES..];
            && |saved| == |bytes| && saved[..4] == bytes[..4] && saved[PREAMBLE_BYTES..] == bytes[PREAMBLE_BYTES..]
            && saved[4] == f.auxLgSize && saved[5] == FlagsByte(f) && saved[6] == f.curMin && saved[7] == ModeByte(f)
  {
    var saved := Preamble(f) + bytes[PREAMBLE_BYTES..];
    PreambleFields(f, bytes[PREAMBLE_BYTES..]);
    FirstBytes(saved);
    FourBytes(saved);
    FourBytes(bytes);
  }

  lemma FieldsSurvive(bytes: seq<byte>, f: Fields)
    requires |bytes| >= PREAMBLE_BYTES && Judge(bytes) == Fine && bytes[3] == f.lgK && Supported(f)
    ensures var saved := Preamble(f) + bytes[PREAMBLE_BYTES..];
            && (SameButFlagsAndHip(saved, bytes) <==> AgreesElsewhere(bytes, f))
            && (SameButFlagsAndHip(saved, bytes) ==>
                  (saved == bytes <==> bytes[5] == FlagsByte(f) && FromBytes(bytes[8..16]) == f.hipAccum))
  {
    SavedHead(bytes, f);
    PreambleFields(f, bytes[PREAMBLE_BYTES..]);
    FieldsThere(bytes, f);
    Stretches(Preamble(f) + bytes[PREAMBLE_BYTES..], bytes);
  }

  /** Whatever loads has a neighbour that loads to the same sketch and breaks the promise: a
      stored current minimum of 1 does not survive. */
  lemma SomeOtherByteLost(bytes: seq<byte>, compact: bool, fl: real -> real, bits: real -> nat)
    requires Deserialize(bytes).Loaded? && Encoding(bits)
    ensures var load := Deserialize(bytes);
            var neighbour := bytes[6 := 1];
            && load.lgK < 256
            && Deserialize(neighbour) == load
            && !SameButFlagsAndHip(Blob(load.lgK, load.registers, compact, fl, bits), neighbour)
  {
    var neighbour := bytes[6 := 1];
    DerivedFieldsIgnored(bytes, neighbour);
    AllButFlagsAndHipSurviveExactly(neighbour, compact, fl, bits);
  }

  /** `bits` tells the values apart that the first accumulator can take. */
  ghost predicate TellsUnits(bits: real -> nat) {
    forall m: int, n: int ::
      -0x20_0000_0000_0000 <= m <= 0x20_0000_0000_0000 && -0x20_0000_0000_0000 <= n <= 0x20_0000_0000_0000 && m != n ==>
        bits(InUnits(m)) != bits(InUnits(n))
  }

  /** The blob with another value in its first sum. */
  function WithKxq0(bytes: seq<byte>, sum: nat): (blob: seq<byte>)
    requires |bytes| >= PREAMBLE_BYTES
    ensures |blob| == |bytes|
  {
    bytes[..16] + ToBytes(sum, 8) + bytes[24..]
  }

  /** A blob that stores the documented first sum, that of the registers below 32 alone, loads
      like any other. The sum survives a reload exactly if no register has reached 32. */
  lemma DocumentedSumSurvivesExactly(bytes: seq<byte>, compact: bool, fl: real -> real, bits: real -> nat)
    requires Deserialize(bytes).Loaded? && Encoding(bits) && TellsUnits(bits)
    ensures var load := Deserialize(bytes);
            var documented := WithKxq0(bytes, bits(LowSum(load.registers)));
            && load.lgK < 256
            && Deserialize(documented) == load
            && (Blob(load.lgK, load.registers, compact, fl, bits)[16..24] == documented[16..24]
                <==> forall r :: r in load.registers ==> r < LOW_LIMIT)
  {
    var load := Deserialize(bytes);
    var sum := bits(LowSum(load.registers));
    Kxq0Replaced(bytes, sum);
    var f := SavedBlob(bytes, compact, fl, bits);
    PreambleFields(f, bytes[PREAMBLE_BYTES..]);
    SameField(f.kxq0, sum);
    LoadedArray(bytes);
    SumsTold(load.lgK, load.registers, bits);
  }

  lemma Kxq0Replaced(bytes: seq<byte>, sum: nat)
    requires |bytes| >= PREAMBLE_BYTES
    ensures WithKxq0(bytes, sum)[16..24] == ToBytes(sum, 8)
    ensures Deserialize(WithKxq0(bytes, sum)) == Deserialize(bytes)
  {
    var blob := WithKxq0(bytes, sum);
    assert blob[..4] == bytes[..4] && blob[7] == bytes[7] && blob[PREAMBLE_BYTES..] == bytes[PREAMBLE_BYTES..];
    DerivedFieldsIgnored(blob, bytes);
  }

  lemma SameField(a: nat, b: nat)
    requires a < 0x1_0000_0000_0000_0000 && b < 0x1_0000_0000_0000_0000
    ensures ToBytes(a, 8) == ToBytes(b, 8) <==> a == b
  {
    Limits();
    ReadWritten(a, 8);
    ReadWritten(b, 8);
  }

  lemma SumsTold(lgK: nat, registers: seq<nat>, bits: real -> nat)
    requires SupportedArray(lgK, registers) && TellsUnits(bits)
    ensures bits(InUnits(Kxq0Units(registers, |registers|))) == bits(LowSum(registers))
            <==> forall r :: r in registers ==> r < LOW_LIMIT
  {
    var stored, high := Kxq0Units(registers, |registers|), HighCount(registers);
    AccumulatorSplit(registers);
    HighCountZero(registers);
    HighCountBounded(registers);
    Kxq0Bounded(registers, |registers|);
    ConfigRange(lgK);
    assert LowSum(registers) == InUnits(stored - high * UNIT);
  }
}
