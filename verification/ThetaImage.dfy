/** The ordered compact image of a Theta sketch, serialization version 3. */
module ThetaImage {
  import opened HashSets
  import opened LittleEndian
  import opened ThetaSpec

  const SERIAL_VERSION: byte := 3
  const SKETCH_TYPE: byte := 3

  // weights of the flag bits
  const BIG_ENDIAN: nat := 1
  const READ_ONLY: nat := 2
  const EMPTY: nat := 4
  const COMPACT: nat := 8
  const ORDERED: nat := 16

  datatype Compact = Compact(empty: bool, theta: nat, entries: seq<nat>)

  datatype Fault =
    | ShortImage | PreambleLength | TruncatedPreamble | SerialVersion | SketchType | BigEndian | NotOrderedCompact
    | SeedHash | EmptyPreamble | ThetaRange | EstimationTheta | ImageSize | HashRange | HashOrder

  datatype Parsed = Accepted(image: Compact) | Rejected(fault: Fault)

  // ----- what an image says -----

  ghost predicate Sound(image: Compact) {
    && 0 < image.theta <= MAX_THETA
    && (image.empty ==> image.theta == MAX_THETA && image.entries == [])
    && |image.entries| < 0x1_0000_0000
    && StrictlySorted(image.entries)
    && forall i :: 0 <= i < |image.entries| ==> 0 < image.entries[i] < image.theta
  }

  /** The parts of an image that its content does not determine. */
  datatype Frame = Frame(longs: byte, unused: (byte, byte), flags: byte, seedField: nat, padding: seq<byte>)

  /** The preamble lengths that can carry an image. A single exact entry may be written with
      one preamble long or with two. */
  predicate Carries(longs: byte, image: Compact) {
    match longs
    case 1 => image.theta == MAX_THETA && |image.entries| == if image.empty then 0 else 1
    case 2 => image.theta == MAX_THETA && !image.empty
    case 3 => image.theta < MAX_THETA && !image.empty
    case _ => false
  }

  predicate Fits(f: Frame, image: Compact, seedHash: nat) {
    && Carries(f.longs, image)
    && !Bit(f.flags, BIG_ENDIAN) && Bit(f.flags, COMPACT) && Bit(f.flags, ORDERED)
    && (Bit(f.flags, EMPTY) <==> image.empty)
    && f.seedField < 0x1_0000 && (!image.empty ==> f.seedField == seedHash)
    && |f.padding| == if f.longs > 1 then 4 else 0
  }

  function PreambleBytes(longs: byte): nat {
    longs as nat * 8
  }

  function Entries(entries: seq<nat>): (bs: seq<byte>)
    ensures |bs| == 8 * |entries|
  {
    if entries == [] then [] else ToBytes(entries[0], 8) + Entries(entries[1..])
  }

  function FirstLong(f: Frame): (bs: seq<byte>)
    ensures |bs| == 8
  {
    [f.longs, SERIAL_VERSION, SKETCH_TYPE, f.unused.0, f.unused.1, f.flags] + ToBytes(f.seedField, 2)
  }

  function Preamble(f: Frame, image: Compact): (bs: seq<byte>)
    ensures |bs| == 8 + (if f.longs > 1 then 4 + |f.padding| else 0) + (if f.longs == 3 then 8 else 0)
  {
    FirstLong(f)
    + (if f.longs > 1 then ToBytes(|image.entries|, 4) + f.padding else [])
    + (if f.longs == 3 then ToBytes(image.theta, 8) else [])
  }

  function Written(f: Frame, image: Compact): seq<byte> {
    Preamble(f, image) + Entries(image.entries)
  }

  function CanonicalFrame(image: Compact, seedHash: nat): Frame {
    var estimation := !image.empty && image.theta < MAX_THETA;
    var longs := if estimation then 3 else if image.empty || |image.entries| == 1 then 1 else 2;
    Frame(longs, (0, 0), READ_ONLY + COMPACT + ORDERED + (if image.empty then EMPTY else 0), seedHash,
          if longs > 1 then [0, 0, 0, 0] else [])
  }

  /** The image serialization writes. */
  function Image(image: Compact, seedHash: nat): seq<byte> {
    Written(CanonicalFrame(image, seedHash), image)
  }

  // ----- serializing -----

  function Zeros(n: nat): seq<byte> {
    seq(n, _ => 0)
  }

  method WriteFirstLong(bytes: array<byte>, longs: byte, flags: byte, seedHash: nat)
    requires bytes.Length >= 8 && bytes[..] == Zeros(bytes.Length)
    modifies bytes
    ensures bytes[..] == FirstLong(Frame(longs, (0, 0), flags, seedHash, [])) + Zeros(bytes.Length - 8)
  {
    assert bytes[3] == Zeros(bytes.Length)[3] && bytes[4] == Zeros(bytes.Length)[4];
    assert bytes[8..] == Zeros(bytes.Length)[8..] == Zeros(bytes.Length - 8);
    bytes[0] := longs;
    bytes[1] := SERIAL_VERSION;
    bytes[2] := SKETCH_TYPE;
    bytes[5] := flags;
    WriteAt(bytes, 6, ToBytes(seedHash, 2));
  }

  /** Writes a value over the first of the remaining zeros. */
  method WriteNext(bytes: array<byte>, offset: nat, ghost done: seq<byte>, value: seq<byte>)
    requires |done| == offset && offset + |value| <= bytes.Length
    requires bytes[..] == done + Zeros(bytes.Length - offset)
    modifies bytes
    ensures bytes[..] == done + value + Zeros(bytes.Length - offset - |value|)
  {
    assert bytes[..offset] == done;
    var after := offset + |value|;
    assert bytes[after..] == (done + Zeros(bytes.Length - offset))[after..] == Zeros(bytes.Length - after);
    WriteAt(bytes, offset, value);
  }

  method SerializeCompact(empty: bool, seedHash: nat, theta: nat, entries: seq<nat>) returns (image: seq<byte>)
    ensures image == Image(Compact(empty, theta, entries), seedHash)
  {
    ghost var f := CanonicalFrame(Compact(empty, theta, entries), seedHash);
    var estimation := !empty && theta < MAX_THETA;
    var longs: byte := if estimation then 3 else if empty || |entries| == 1 then 1 else 2;
    var head := PreambleBytes(longs);
    var bytes := new byte[head + 8 * |entries|](_ => 0);
    var flags: byte := READ_ONLY + COMPACT + ORDERED + (if empty then EMPTY else 0);
    assert bytes[..] == Zeros(bytes.Length);
    WriteFirstLong(bytes, longs, flags, seedHash);
    ghost var done := FirstLong(f);
    if longs > 1 {
      WriteNext(bytes, 8, done, ToBytes(|entries|, 4));
      done := done + (ToBytes(|entries|, 4) + f.padding);
      assert bytes[..] == done + Zeros(bytes.Length - 16);
    }
    if estimation {
      WriteNext(bytes, 16, done, ToBytes(theta, 8));
      done := done + ToBytes(theta, 8);
    }
    assert done == Preamble(f, Compact(empty, theta, entries));
    WriteNext(bytes, head, done, Entries(entries));
    image := bytes[..];
  }

  // ----- parsing -----

  function ReadEntries(bs: seq<byte>, count: nat): (entries: seq<nat>)
    requires |bs| == 8 * count
    ensures |entries| == count
  {
    if count == 0 then [] else [FromBytes(bs[..8])] + ReadEntries(bs[8..], count - 1)
  }

  /** The first fault among the entries from i on. */
  function EntryFault(image: Compact, i: nat): Parsed
    requires i <= |image.entries|
    decreases |image.entries| - i
  {
    if i == |image.entries| then Accepted(image)
    else if image.entries[i] == 0 || image.entries[i] >= image.theta then Rejected(HashRange)
    else if i != 0 && image.entries[i - 1] >= image.entries[i] then Rejected(HashOrder)
    else EntryFault(image, i + 1)
  }

  function ParseBody(bytes: seq<byte>, empty: bool, count: nat, theta: nat): Parsed
    requires |bytes| >= 8
  {
    var head := PreambleBytes(bytes[0]);
    if theta == 0 || theta > MAX_THETA then Rejected(ThetaRange)
    else if bytes[0] == 3 && theta == MAX_THETA then Rejected(EstimationTheta)
    else if |bytes| != head + 8 * count then Rejected(ImageSize)
    else EntryFault(Compact(empty, theta, ReadEntries(bytes[head..], count)), 0)
  }

  function Parse(bytes: seq<byte>, seedHash: nat): Parsed {
    if |bytes| < 8 then Rejected(ShortImage)
    else if bytes[0] < 1 || bytes[0] > 3 then Rejected(PreambleLength)
    else if |bytes| < PreambleBytes(bytes[0]) then Rejected(TruncatedPreamble)
    else if bytes[1] != SERIAL_VERSION then Rejected(SerialVersion)
    else if bytes[2] != SKETCH_TYPE then Rejected(SketchType)
    else if Bit(bytes[5], BIG_ENDIAN) then Rejected(BigEndian)
    else if !Bit(bytes[5], COMPACT) || !Bit(bytes[5], ORDERED) then Rejected(NotOrderedCompact)
    else
      var empty := Bit(bytes[5], EMPTY);
      if !empty && FromBytes(bytes[6..8]) != seedHash then Rejected(SeedHash)
      else if empty then
        if bytes[0] != 1 then Rejected(EmptyPreamble) else ParseBody(bytes, true, 0, MAX_THETA)
      else if bytes[0] == 1 then ParseBody(bytes, false, 1, MAX_THETA)
      else
        ParseBody(bytes, false, FromBytes(bytes[8..12]), if bytes[0] == 3 then FromBytes(bytes[16..24]) else MAX_THETA)
  }

  method ParseCompact(bytes: seq<byte>, seedHash: nat) returns (r: Parsed)
    ensures r == Parse(bytes, seedHash)
  {
    if |bytes| < 8 { return Rejected(ShortImage); }
    var longs := bytes[0];
    if longs < 1 || longs > 3 { return Rejected(PreambleLength); }
    var head := PreambleBytes(longs);
    if |bytes| < head { return Rejected(TruncatedPreamble); }
    if bytes[1] != SERIAL_VERSION { return Rejected(SerialVersion); }
    if bytes[2] != SKETCH_TYPE { return Rejected(SketchType); }
    var flags := bytes[5];
    if Bit(flags, BIG_ENDIAN) { return Rejected(BigEndian); }
    if !Bit(flags, COMPACT) || !Bit(flags, ORDERED) { return Rejected(NotOrderedCompact); }
    var empty := Bit(flags, EMPTY);
    if !empty && FromBytes(bytes[6..8]) != seedHash { return Rejected(SeedHash); }

    var count, theta := 0, MAX_THETA;
    if empty {
      if longs != 1 { return Rejected(EmptyPreamble); }
    } else if longs == 1 {
      count := 1;
    } else {
      count := FromBytes(bytes[8..12]);
      if longs == 3 { theta := FromBytes(bytes[16..24]); }
    }
    if theta == 0 || theta > MAX_THETA { return Rejected(ThetaRange); }
    if longs == 3 && theta == MAX_THETA { return Rejected(EstimationTheta); }
    if |bytes| != head + 8 * count { return Rejected(ImageSize); }

    var image := Compact(empty, theta, ReadEntries(bytes[head..], count));
    for i := 0 to |image.entries|
      invariant EntryFault(image, 0) == EntryFault(image, i)
    {
      var hash := image.entries[i];
      if hash == 0 || hash >= theta { return Rejected(HashRange); }
      if i != 0 && image.entries[i - 1] >= hash { return Rejected(HashOrder); }
    }
    return Accepted(image);
  }

  // ----- which fault is reported -----

  /** The position of a check among all checks. */
  function Rank(fault: Fault): nat {
    match fault
    case ShortImage => 0
    case PreambleLength => 1
    case TruncatedPreamble => 2
    case SerialVersion => 3
    case SketchType => 4
    case BigEndian => 5
    case NotOrderedCompact => 6
    case SeedHash => 7
    case EmptyPreamble => 8
    case ThetaRange => 9
    case EstimationTheta => 10
    case ImageSize => 11
    case HashRange => 12
    case HashOrder => 13
  }

  predicate HasPreamble(b: seq<byte>) {
    |b| >= 8 && 1 <= b[0] <= 3 && |b| >= 8 * b[0]
  }

  predicate SaysEmpty(b: seq<byte>)
    requires |b| >= 8
  {
    b[5] / 4 % 2 == 1
  }

  function StoredCount(b: seq<byte>): nat
    requires HasPreamble(b)
  {
    if SaysEmpty(b) then 0 else if b[0] == 1 then 1 else FromBytes(b[8..12])
  }

  function StoredTheta(b: seq<byte>): nat
    requires HasPreamble(b)
  {
    if SaysEmpty(b) || b[0] < 3 then 0x7fff_ffff_ffff_ffff else FromBytes(b[16..24])
  }

  predicate HasEntries(b: seq<byte>) {
    HasPreamble(b) && |b| == 8 * b[0] + 8 * StoredCount(b)
  }

  function StoredEntries(b: seq<byte>): seq<nat>
    requires HasEntries(b)
  {
    ReadEntries(b[8 * b[0]..], StoredCount(b))
  }

  predicate OutOfRange(entries: seq<nat>, theta: nat, i: nat) {
    i < |entries| && !(0 < entries[i] < theta)
  }

  predicate OutOfOrder(entries: seq<nat>, i: nat) {
    0 < i < |entries| && entries[i - 1] >= entries[i]
  }

  /** What each check objects to. */
  ghost predicate Shows(b: seq<byte>, seedHash: nat, fault: Fault) {
    match fault
    case ShortImage => |b| < 8
    case PreambleLength => |b| >= 8 && !(1 <= b[0] <= 3)
    case TruncatedPreamble => |b| >= 8 && |b| < b[0] as nat * 8
    case SerialVersion => |b| >= 8 && b[1] != 3
    case SketchType => |b| >= 8 && b[2] != 3
    case BigEndian => |b| >= 8 && b[5] % 2 == 1
    case NotOrderedCompact => |b| >= 8 && !(b[5] / 8 % 2 == 1 && b[5] / 16 % 2 == 1)
    case SeedHash => |b| >= 8 && !SaysEmpty(b) && FromBytes(b[6..8]) != seedHash
    case EmptyPreamble => |b| >= 8 && SaysEmpty(b) && b[0] != 1
    case ThetaRange => HasPreamble(b) && !(0 < StoredTheta(b) <= 0x7fff_ffff_ffff_ffff)
    case EstimationTheta => HasPreamble(b) && b[0] == 3 && StoredTheta(b) == 0x7fff_ffff_ffff_ffff
    case ImageSize => HasPreamble(b) && !HasEntries(b)
    case HashRange =>
      HasEntries(b) &&
      exists i :: OutOfRange(StoredEntries(b), StoredTheta(b), i) &&
                  forall j :: j < i ==> !OutOfOrder(StoredEntries(b), j)
    case HashOrder => HasEntries(b) && exists i :: OutOfOrder(StoredEntries(b), i)
  }

  /** The parser rejects a byte string with the first fault it shows, and accepts it if it
      shows none. */
  lemma FirstFault(b: seq<byte>, seedHash: nat)
    ensures match Parse(b, seedHash)
            case Accepted(_) => forall g :: !Shows(b, seedHash, g)
            case Rejected(fault) =>
              Shows(b, seedHash, fault) && forall g :: Rank(g) < Rank(fault) ==> !Shows(b, seedHash, g)
  {
    ReportedShows(b, seedHash);
    forall g | Parse(b, seedHash).Rejected? ==> Rank(g) < Rank(Parse(b, seedHash).fault)
      ensures !Shows(b, seedHash, g)
    {
      NotEarlier(b, seedHash, g);
    }
  }

  lemma ReportedShows(b: seq<byte>, seedHash: nat)
    ensures Parse(b, seedHash).Rejected? ==> Shows(b, seedHash, Parse(b, seedHash).fault)
  {
    if HasPreamble(b) {
      FirstBodyFault(b, seedHash);
    }
  }

  lemma NotEarlier(b: seq<byte>, seedHash: nat, g: Fault)
    requires Parse(b, seedHash).Rejected? ==> Rank(g) < Rank(Parse(b, seedHash).fault)
    ensures !Shows(b, seedHash, g)
  {
    if HasPreamble(b) {
      FirstBodyFault(b, seedHash);
    }
  }

  /** The checks after the seed hash and the preamble of an empty image. */
  lemma FirstBodyFault(b: seq<byte>, seedHash: nat)
    requires HasPreamble(b)
    ensures match ParseBody(b, SaysEmpty(b), StoredCount(b), StoredTheta(b))
            case Accepted(_) => forall g :: Rank(g) >= 9 ==> !Shows(b, seedHash, g)
            case Rejected(fault) =>
              && Rank(fault) >= 9 && Shows(b, seedHash, fault)
              && forall g :: 9 <= Rank(g) < Rank(fault) ==> !Shows(b, seedHash, g)
  {
    if HasEntries(b) {
      FirstEntryFault(Compact(SaysEmpty(b), StoredTheta(b), StoredEntries(b)), 0);
    }
  }

  lemma {:induction false} FirstEntryFault(image: Compact, i: nat)
    requires i <= |image.entries|
    ensures var es, theta := image.entries, image.theta;
            var r := EntryFault(image, i);
            && (r.Accepted? ==> forall j :: j >= i ==> !OutOfRange(es, theta, j) && !OutOfOrder(es, j))
            && (r.Rejected? ==> r.fault == HashRange || r.fault == HashOrder)
            && (r == Rejected(HashRange) ==>
                  exists j :: j >= i && OutOfRange(es, theta, j) && forall m :: i <= m < j ==> !OutOfOrder(es, m))
            && (r == Rejected(HashOrder) ==>
                  exists j :: j >= i && OutOfOrder(es, j) && forall m :: i <= m <= j ==> !OutOfRange(es, theta, m))
    decreases |image.entries| - i
  {
    if i < |image.entries| && !OutOfRange(image.entries, image.theta, i) && !OutOfOrder(image.entries, i) {
      FirstEntryFault(image, i + 1);
    }
  }

  // ----- exactly which byte strings are accepted -----

  lemma {:induction false} EntriesAccepted(image: Compact, i: nat)
    requires i <= |image.entries|
    ensures EntryFault(image, i) == Accepted(image) <==>
              forall j :: i <= j < |image.entries| ==>
                0 < image.entries[j] < image.theta && (j != 0 ==> image.entries[j - 1] < image.entries[j])
    ensures EntryFault(image, i).Accepted? ==> EntryFault(image, i).image == image
    decreases |image.entries| - i
  {
    if i < |image.entries| {
      EntriesAccepted(image, i + 1);
    }
  }

  /** Pairwise ascent of neighbours is strict order. */
  lemma {:induction false} NeighboursSort(s: seq<nat>)
    requires forall j :: 0 < j < |s| ==> s[j - 1] < s[j]
    ensures StrictlySorted(s)
  {
    if s != [] {
      var n := |s| - 1;
      NeighboursSort(s[..n]);
      if n > 0 {
        assert s[n - 1] < s[n];
        assert forall i :: 0 <= i < n ==> s[..n][i] == s[i];
      }
    }
  }

  lemma EntriesSound(image: Compact)
    ensures EntryFault(image, 0) == Accepted(image) <==>
              && StrictlySorted(image.entries)
              && forall i :: 0 <= i < |image.entries| ==> 0 < image.entries[i] < image.theta
    ensures EntryFault(image, 0).Accepted? ==> EntryFault(image, 0).image == image
  {
    EntriesAccepted(image, 0);
    if EntryFault(image, 0) == Accepted(image) {
      NeighboursSort(image.entries);
    }
  }

  lemma {:induction false} ReadEntriesWritten(entries: seq<nat>)
    requires forall i :: 0 <= i < |entries| ==> entries[i] < Limit(8)
    ensures ReadEntries(Entries(entries), |entries|) == entries
  {
    if entries != [] {
      var bs := Entries(entries);
      ReadWritten(entries[0], 8);
      ReadEntriesWritten(entries[1..]);
      assert bs[..8] == ToBytes(entries[0], 8) && bs[8..] == Entries(entries[1..]);
    }
  }

  lemma {:induction false} WriteEntriesRead(bs: seq<byte>, count: nat)
    requires |bs| == 8 * count
    ensures Entries(ReadEntries(bs, count)) == bs
    ensures forall i :: 0 <= i < count ==> ReadEntries(bs, count)[i] < Limit(8)
  {
    if count > 0 {
      WriteRead(bs[..8]);
      WriteEntriesRead(bs[8..], count - 1);
      assert ReadEntries(bs, count)[1..] == ReadEntries(bs[8..], count - 1);
      assert bs == bs[..8] + bs[8..];
    }
  }

  /** Where the fields of an image are found. */
  predicate HasFields(bytes: seq<byte>, f: Frame, image: Compact) {
    && |bytes| == PreambleBytes(f.longs) + 8 * |image.entries|
    && |bytes| >= 8 && bytes[..6] == [f.longs, SERIAL_VERSION, SKETCH_TYPE, f.unused.0, f.unused.1, f.flags]
    && bytes[6..8] == ToBytes(f.seedField, 2)
    && (f.longs > 1 ==> |bytes| >= 16 && bytes[8..12] == ToBytes(|image.entries|, 4) && bytes[12..16] == f.padding)
    && (f.longs == 3 ==> |bytes| >= 24 && bytes[16..24] == ToBytes(image.theta, 8))
    && PreambleBytes(f.longs) <= |bytes| && bytes[PreambleBytes(f.longs)..] == Entries(image.entries)
  }

  lemma WrittenFields(f: Frame, image: Compact)
    requires 1 <= f.longs <= 3 && |f.padding| == if f.longs > 1 then 4 else 0
    ensures HasFields(Written(f, image), f, image)
  {
    var bytes := Written(f, image);
    assert bytes[..8] == FirstLong(f);
    assert bytes[..6] == bytes[..8][..6] && bytes[6..8] == bytes[..8][6..];
    if f.longs > 1 {
      assert bytes[8..12] == ToBytes(|image.entries|, 4);
      assert bytes[12..16] == f.padding;
    }
    if f.longs == 3 {
      assert bytes[16..24] == ToBytes(image.theta, 8);
    }
    assert bytes[PreambleBytes(f.longs)..] == Entries(image.entries);
  }

  lemma SixBytes(bytes: seq<byte>)
    requires |bytes| >= 6
    ensures bytes[..6] == [bytes[0], bytes[1], bytes[2], bytes[3], bytes[4], bytes[5]]
  {}

  // ----- the layout, byte by byte -----

  /** An image in any frame: numbers are little-endian, at fixed offsets. */
  lemma WrittenLayout(f: Frame, image: Compact)
    requires 1 <= f.longs <= 3 && |f.padding| == if f.longs > 1 then 4 else 0
    ensures var b := Written(f, image);
            && |b| == 8 * f.longs + 8 * |image.entries|
            && b[..6] == [f.longs, 3, 3, f.unused.0, f.unused.1, f.flags]
            && DigitsAt(b, 6, 2, f.seedField)
            && (f.longs > 1 ==> DigitsAt(b, 8, 4, |image.entries|) && b[12..16] == f.padding)
            && (f.longs == 3 ==> DigitsAt(b, 16, 8, image.theta))
            && forall i :: 0 <= i < |image.entries| ==> DigitsAt(b, 8 * f.longs + 8 * i, 8, image.entries[i])
  {
    WrittenFields(f, image);
    FieldDigits(Written(f, image), f, image);
    EntriesLayout(Written(f, image), 8 * f.longs, image.entries);
  }

  lemma FieldDigits(b: seq<byte>, f: Frame, image: Compact)
    requires HasFields(b, f, image)
    ensures DigitsAt(b, 6, 2, f.seedField)
    ensures f.longs > 1 ==> DigitsAt(b, 8, 4, |image.entries|)
    ensures f.longs == 3 ==> DigitsAt(b, 16, 8, image.theta)
  {
    DigitsThere(b, 6, 2, f.seedField);
    if f.longs > 1 {
      DigitsThere(b, 8, 4, |image.entries|);
    }
    if f.longs == 3 {
      DigitsThere(b, 16, 8, image.theta);
    }
  }

  lemma EntriesLayout(b: seq<byte>, head: nat, entries: seq<nat>)
    requires head <= |b| && b[head..] == Entries(entries)
    ensures forall i :: 0 <= i < |entries| ==> DigitsAt(b, head + 8 * i, 8, entries[i])
  {
    forall i | 0 <= i < |entries| ensures DigitsAt(b, head + 8 * i, 8, entries[i]) {
      EntryDigits(entries, i);
      DigitsShift(b, head, 8 * i, 8, entries[i]);
    }
  }

  lemma {:induction false} EntryDigits(entries: seq<nat>, i: nat)
    requires i < |entries|
    ensures DigitsAt(Entries(entries), 8 * i, 8, entries[i])
  {
    var bs := Entries(entries);
    assert bs[..8] == ToBytes(entries[0], 8) && bs[8..] == Entries(entries[1..]);
    if i == 0 {
      DigitsThere(bs, 0, 8, entries[0]);
    } else {
      EntryDigits(entries[1..], i - 1);
      DigitsShift(bs, 8, 8 * (i - 1), 8, entries[i]);
    }
  }

  /** The image serialization writes. Three preamble longs if theta is below its maximum,
      otherwise one if there is at most one entry and two if there are more; the bytes no
      field uses are zero. */
  lemma ImageLayout(image: Compact, seedHash: nat)
    ensures var b, n := Image(image, seedHash), |image.entries|;
            var longs := if !image.empty && image.theta < 0x7fff_ffff_ffff_ffff then 3
                         else if image.empty || n == 1 then 1 else 2;
            && |b| == 8 * longs + 8 * n
            && b[..6] == [longs, 3, 3, 0, 0, if image.empty then 0x1e else 0x1a]
            && DigitsAt(b, 6, 2, seedHash)
            && (longs > 1 ==> DigitsAt(b, 8, 4, n) && b[12..16] == [0, 0, 0, 0])
            && (longs == 3 ==> DigitsAt(b, 16, 8, image.theta))
            && forall i :: 0 <= i < n ==> DigitsAt(b, 8 * longs + 8 * i, 8, image.entries[i])
  {
    WrittenLayout(CanonicalFrame(image, seedHash), image);
  }

  lemma AcceptWritten(f: Frame, image: Compact, seedHash: nat)
    requires Sound(image) && Fits(f, image, seedHash)
    ensures Parse(Written(f, image), seedHash) == Accepted(image)
  {
    Limits();
    WrittenFields(f, image);
    SixBytes(Written(f, image));
    ReadWritten(f.seedField, 2);
    if f.longs > 1 {
      ReadWritten(|image.entries|, 4);
    }
    if f.longs == 3 {
      ReadWritten(image.theta, 8);
    }
    ReadEntriesWritten(image.entries);
    EntriesSound(image);
  }

  function FrameOf(bytes: seq<byte>): Frame
    requires |bytes| >= 8 && |bytes| >= PreambleBytes(bytes[0])
  {
    Frame(bytes[0], (bytes[3], bytes[4]), bytes[5], FromBytes(bytes[6..8]), if bytes[0] > 1 then bytes[12..16] else [])
  }

  lemma AcceptedBody(bytes: seq<byte>, empty: bool, count: nat, theta: nat)
    requires |bytes| >= 8 && 1 <= bytes[0] <= 3
    requires ParseBody(bytes, empty, count, theta).Accepted?
    ensures var image := ParseBody(bytes, empty, count, theta).image;
            && image.empty == empty && image.theta == theta && |image.entries| == count
            && |bytes| == PreambleBytes(bytes[0]) + 8 * count
            && bytes[PreambleBytes(bytes[0])..] == Entries(image.entries)
            && 0 < theta <= MAX_THETA && (bytes[0] == 3 ==> theta < MAX_THETA)
            && StrictlySorted(image.entries) && forall i :: 0 <= i < count ==> 0 < image.entries[i] < theta
  {
    var head := PreambleBytes(bytes[0]);
    WriteEntriesRead(bytes[head..], count);
    EntriesSound(Compact(empty, theta, ReadEntries(bytes[head..], count)));
  }

  lemma AcceptedFields(bytes: seq<byte>, seedHash: nat)
    requires Parse(bytes, seedHash).Accepted?
    ensures |bytes| >= 8 && |bytes| >= PreambleBytes(bytes[0])
    ensures var image := Parse(bytes, seedHash).image;
            && Sound(image) && Fits(FrameOf(bytes), image, seedHash)
            && bytes[1] == SERIAL_VERSION && bytes[2] == SKETCH_TYPE
            && bytes[PreambleBytes(bytes[0])..] == Entries(image.entries)
            && (bytes[0] > 1 ==> FromBytes(bytes[8..12]) == |image.entries|)
            && (bytes[0] == 3 ==> FromBytes(bytes[16..24]) == image.theta)
  {
    Limits();
    if Bit(bytes[5], EMPTY) {
      AcceptedBody(bytes, true, 0, MAX_THETA);
    } else if bytes[0] == 1 {
      AcceptedBody(bytes, false, 1, MAX_THETA);
    } else {
      AcceptedBody(bytes, false, FromBytes(bytes[8..12]),
                   if bytes[0] == 3 then FromBytes(bytes[16..24]) else MAX_THETA);
    }
  }

  lemma FirstLongRead(bytes: seq<byte>)
    requires |bytes| >= 8 && |bytes| >= PreambleBytes(bytes[0]) && bytes[1] == SERIAL_VERSION && bytes[2] == SKETCH_TYPE
    requires bytes[0] <= 3
    ensures FirstLong(FrameOf(bytes)) == bytes[..8]
  {
    WriteRead(bytes[6..8]);
    assert ToBytes(FromBytes(bytes[6..8]), 2) == bytes[6..8];
  }

  lemma PrefixSplits(bytes: seq<byte>, a: nat, b: nat)
    requires a <= b <= |bytes|
    ensures bytes[..b] == bytes[..a] + bytes[a..b]
  {}

  lemma RewriteAccepted(bytes: seq<byte>, seedHash: nat)
    requires Parse(bytes, seedHash).Accepted?
    ensures |bytes| >= 8 && |bytes| >= PreambleBytes(bytes[0])
    ensures Written(FrameOf(bytes), Parse(bytes, seedHash).image) == bytes
  {
    AcceptedFields(bytes, seedHash);
    ReadBack(bytes, Parse(bytes, seedHash).image);
  }

  lemma ReadBack(bytes: seq<byte>, image: Compact)
    requires |bytes| >= 8 && |bytes| >= PreambleBytes(bytes[0]) && 1 <= bytes[0] <= 3
    requires bytes[1] == SERIAL_VERSION && bytes[2] == SKETCH_TYPE
    requires bytes[0] > 1 ==> FromBytes(bytes[8..12]) == |image.entries|
    requires bytes[0] == 3 ==> FromBytes(bytes[16..24]) == image.theta
    requires bytes[PreambleBytes(bytes[0])..] == Entries(image.entries)
    ensures Written(FrameOf(bytes), image) == bytes
  {
    PreambleRead(bytes, image);
    PrefixSplits(bytes, PreambleBytes(bytes[0]), |bytes|);
  }

  lemma PreambleRead(bytes: seq<byte>, image: Compact)
    requires |bytes| >= 8 && |bytes| >= PreambleBytes(bytes[0]) && 1 <= bytes[0] <= 3
    requires bytes[1] == SERIAL_VERSION && bytes[2] == SKETCH_TYPE
    requires bytes[0] > 1 ==> FromBytes(bytes[8..12]) == |image.entries|
    requires bytes[0] == 3 ==> FromBytes(bytes[16..24]) == image.theta
    ensures Preamble(FrameOf(bytes), image) == bytes[..PreambleBytes(bytes[0])]
  {
    FirstLongRead(bytes);
    if bytes[0] > 1 {
      WriteRead(bytes[8..12]);
      PrefixSplits(bytes, 8, 12);
      PrefixSplits(bytes, 12, 16);
      assert bytes[..16] == bytes[..8] + (bytes[8..12] + bytes[12..16]);
    }
    if bytes[0] == 3 {
      WriteRead(bytes[16..24]);
      PrefixSplits(bytes, 16, 24);
    }
  }

  /** The parser accepts a byte string as an image exactly if the string is that image,
      sound, written in some fitting frame. */
  lemma ParseExactly(bytes: seq<byte>, seedHash: nat, image: Compact)
    ensures Parse(bytes, seedHash) == Accepted(image) <==>
              Sound(image) && exists f :: Fits(f, image, seedHash) && bytes == Written(f, image)
  {
    if Parse(bytes, seedHash) == Accepted(image) {
      AcceptedFields(bytes, seedHash);
      RewriteAccepted(bytes, seedHash);
    }
    if Sound(image) && exists f :: Fits(f, image, seedHash) && bytes == Written(f, image) {
      var f :| Fits(f, image, seedHash) && bytes == Written(f, image);
      AcceptWritten(f, image, seedHash);
    }
  }

  /** Parsing what was serialized gives it back. */
  lemma RoundTrip(image: Compact, seedHash: nat)
    requires Sound(image) && seedHash < 0x1_0000
    ensures Parse(Image(image, seedHash), seedHash) == Accepted(image)
  {
    AcceptWritten(CanonicalFrame(image, seedHash), image, seedHash);
  }

  /** Different contents have different images. */
  lemma ImageInjective(a: Compact, b: Compact, seedHash: nat)
    requires Sound(a) && Sound(b) && seedHash < 0x1_0000
    ensures Image(a, seedHash) == Image(b, seedHash) ==> a == b
  {
    RoundTrip(a, seedHash);
    RoundTrip(b, seedHash);
  }

  /** Serializing an accepted image normalises it without changing what it parses to. The
      bytes themselves survive exactly if the frame was already canonical. */
  lemma Reserialize(bytes: seq<byte>, seedHash: nat)
    requires Parse(bytes, seedHash).Accepted? && seedHash < 0x1_0000
    ensures var image := Parse(bytes, seedHash).image;
            && Parse(Image(image, seedHash), seedHash) == Accepted(image)
            && |bytes| >= 8 && |bytes| >= PreambleBytes(bytes[0])
            && (Image(image, seedHash) == bytes <==> FrameOf(bytes) == CanonicalFrame(image, seedHash))
  {
    AcceptedFields(bytes, seedHash);
    RewriteAccepted(bytes, seedHash);
    var image := Parse(bytes, seedHash).image;
    RoundTrip(image, seedHash);
    var f := CanonicalFrame(image, seedHash);
    if Image(image, seedHash) == bytes {
      Limits();
      WrittenFields(f, image);
      SixBytes(bytes);
      ReadWritten(seedHash, 2);
    }
  }
}
