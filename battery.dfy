/** Optional values: the model of Swift's `T?`, as returned by a failable
    `init?(rawValue:)`, together with the `??` operator. */
module Wrappers {

  datatype Option<+T> = None | Some(value: T) {

    /** Swift's `self ?? default`. */
    function GetOr(default: T): T
    {
      match this
      case Some(v) => v
      case None => default
    }
  }
}

/** The battery status fields of the ANT+ Battery Status common data page:
    two raw-value enumerations and two structures, each packed into one byte.
    Bytes are `bv8`, so masks, shifts and ORs behave as on Swift's `UInt8`:
    a left shift silently drops the bits shifted out of the byte. */
module Battery {
  import opened Wrappers

  type byte = bv8

  function Min(a: byte, b: byte): byte
  {
    if a <= b then a else b
  }

  // ---------------------------------------------------------------------
  // BatteryStatus: a 3-bit code; code 6 has no case.
  // ---------------------------------------------------------------------

  datatype BatteryStatus = Reserved | New | Good | Ok | Low | Critical | Invalid

  /** `rawValue`: the code of each case. */
  function StatusRawValue(s: BatteryStatus): (r: byte)
    ensures r <= 7 && r != 6
  {
    match s
    case Reserved => 0
    case New => 1
    case Good => 2
    case Ok => 3
    case Low => 4
    case Critical => 5
    case Invalid => 7
  }

  /** `BatteryStatus(rawValue:)`: the case whose code is `raw`, or nothing
      when no case has that code. */
  function StatusFromRawValue(raw: byte): (r: Option<BatteryStatus>)
    ensures r.Some? <==> raw <= 7 && raw != 6
    ensures r.Some? ==> StatusRawValue(r.value) == raw
  {
    if raw == 0 then Some(Reserved)
    else if raw == 1 then Some(New)
    else if raw == 2 then Some(Good)
    else if raw == 3 then Some(Ok)
    else if raw == 4 then Some(Low)
    else if raw == 5 then Some(Critical)
    else if raw == 7 then Some(Invalid)
    else None
  }

  /** Every case is found again from its own code, so codes identify cases. */
  lemma StatusRawValueRoundTrip(s: BatteryStatus)
    ensures StatusFromRawValue(StatusRawValue(s)) == Some(s)
  {
  }

  /** `stringValue`: the display name of each case. */
  function StatusName(s: BatteryStatus): (r: string)
    ensures r != []
  {
    match s
    case Reserved => "Reserved"
    case New => "New"
    case Good => "Good"
    case Ok => "Ok"
    case Low => "Low"
    case Critical => "Critical"
    case Invalid => "Invalid"
  }

  /** No two cases share a display name. */
  lemma StatusNamesDistinct(s: BatteryStatus, t: BatteryStatus)
    ensures StatusName(s) == StatusName(t) ==> s == t
  {
  }

  // ---------------------------------------------------------------------
  // CumulativeOperatingResolution: a 1-bit code.
  // ---------------------------------------------------------------------

  datatype CumulativeOperatingResolution = SixteenSecond | TwoSecond

  /** `rawValue`: the code of each case. */
  function ResolutionRawValue(res: CumulativeOperatingResolution): (r: byte)
    ensures r <= 1
  {
    match res
    case SixteenSecond => 0
    case TwoSecond => 1
  }

  /** `CumulativeOperatingResolution(rawValue:)`. */
  function ResolutionFromRawValue(raw: byte): (r: Option<CumulativeOperatingResolution>)
    ensures r.Some? <==> raw <= 1
    ensures r.Some? ==> ResolutionRawValue(r.value) == raw
  {
    if raw == 0 then Some(SixteenSecond)
    else if raw == 1 then Some(TwoSecond)
    else None
  }

  lemma ResolutionRawValueRoundTrip(res: CumulativeOperatingResolution)
    ensures ResolutionFromRawValue(ResolutionRawValue(res)) == Some(res)
  {
  }

  /** `multiplier`: seconds per tick of the operating-time counter; every
      case other than `sixteenSecond` takes the `default` branch. */
  function Multiplier(res: CumulativeOperatingResolution): (r: byte)
    ensures ResolutionRawValue(res) == 0 ==> r == 16
    ensures ResolutionRawValue(res) != 0 ==> r == 2
  {
    match res
    case SixteenSecond => 16
    case _ => 2
  }

  // ---------------------------------------------------------------------
  // BatteryIdentifier: count in bits 0-3, identifier in bits 4-7.
  // ---------------------------------------------------------------------

  /** Both fields are `UInt8`; only `count` is clamped, so `identifier` may
      exceed 15 when built from field values. */
  datatype BatteryIdentifier = BatteryIdentifier(count: byte, identifier: byte)

  /** What both initialisers establish: `count` fits its 4-bit field. */
  predicate IdentifierInvariant(x: BatteryIdentifier)
  {
    x.count <= 15
  }

  /** `init(_ value:)`: the low nibble is the count, the high nibble the
      identifier. */
  function IdentifierFromByte(value: byte): (r: BatteryIdentifier)
    ensures r.count == value % 16 && r.identifier == value / 16
    ensures IdentifierInvariant(r) && r.identifier <= 15
  {
    BatteryIdentifier(value & 0x0F, (value & 0xF0) >> 4)
  }

  /** `init(count:identifier:)`: the count is clamped to 15, the identifier
      is stored as given. */
  function MakeIdentifier(count: byte, identifier: byte): (r: BatteryIdentifier)
    ensures IdentifierInvariant(r)
    ensures r.count <= count && (r.count == count || r.count == 15)
    ensures r.identifier == identifier
  {
    BatteryIdentifier(Min(15, count), identifier)
  }

  /** `uint8Value`: the count OR-ed with the identifier shifted left by four;
      identifier bits above bit 3 are shifted out of the byte.  Because the
      two fields occupy disjoint bits, the OR is their arithmetic sum. */
  function IdentifierToByte(x: BatteryIdentifier): (r: byte)
    ensures IdentifierInvariant(x) ==>
      r as int == x.count as int + (x.identifier as int * 16) % 256
  {
    x.count | (x.identifier << 4)
  }

  /** Decoding then re-encoding gives back every one of the 256 bytes. */
  lemma IdentifierByteRoundTrip(value: byte)
    ensures IdentifierToByte(IdentifierFromByte(value)) == value
  {
  }

  /** A value whose fields both fit a nibble survives encode then decode. */
  lemma IdentifierRoundTrip(x: BatteryIdentifier)
    requires IdentifierInvariant(x) && x.identifier <= 15
    ensures IdentifierFromByte(IdentifierToByte(x)) == x
  {
  }

  /** Encode then decode of a constructed value keeps the clamped count and
      keeps the identifier modulo 16: an identifier above 15 loses its high
      bits, one of at most 15 comes back unchanged. */
  lemma IdentifierConstructedRoundTrip(count: byte, identifier: byte)
    ensures IdentifierFromByte(IdentifierToByte(MakeIdentifier(count, identifier)))
         == MakeIdentifier(count, identifier % 16)
    ensures identifier <= 15 ==>
      IdentifierFromByte(IdentifierToByte(MakeIdentifier(count, identifier)))
         == MakeIdentifier(count, identifier)
  {
  }

  /** Every value with both fields in range is the decoding of some byte. */
  lemma {:induction false} IdentifierFromByteOnto(x: BatteryIdentifier)
    requires IdentifierInvariant(x) && x.identifier <= 15
    ensures exists value: byte :: IdentifierFromByte(value) == x
  {
    IdentifierRoundTrip(x);
    var value := IdentifierToByte(x);
    assert IdentifierFromByte(value) == x;
  }

  /** An identifier above 15 does not survive the wire: its encoding decodes
      to a different value. */
  lemma IdentifierOverflowIsLossy(count: byte, identifier: byte)
    requires identifier > 15
    ensures IdentifierFromByte(IdentifierToByte(MakeIdentifier(count, identifier)))
         != MakeIdentifier(count, identifier)
  {
  }

  lemma IdentifierExamples()
    ensures IdentifierFromByte(0x23) == BatteryIdentifier(3, 2)
    ensures IdentifierToByte(MakeIdentifier(3, 2)) == 0x23
    ensures MakeIdentifier(20, 3) == BatteryIdentifier(15, 3)
    ensures IdentifierToByte(MakeIdentifier(1, 0x12)) == 0x21
  {
  }

  // ---------------------------------------------------------------------
  // BatteryDescriptiveField: coarse voltage in bits 0-3, status in bits
  // 4-6, resolution in bit 7.
  // ---------------------------------------------------------------------

  datatype BatteryDescriptiveField = BatteryDescriptiveField(
    coarseVoltage: byte,
    status: BatteryStatus,
    resolution: CumulativeOperatingResolution)

  /** What both initialisers establish: the voltage fits its 4-bit field. */
  predicate DescriptiveInvariant(f: BatteryDescriptiveField)
  {
    f.coarseVoltage <= 15
  }

  /** The status code held in bits 4-6 of a byte. */
  function StatusBits(value: byte): byte
  {
    (value & 0x70) >> 4
  }

  /** `init(_ value:)`: status code 6 has no case and falls back to
      `invalid`; the resolution fallback `twoSecond` is never taken, because
      bit 7 alone is always 0 or 1. */
  function DescriptiveFromByte(value: byte): (r: BatteryDescriptiveField)
    ensures DescriptiveInvariant(r) && r.coarseVoltage == value % 16
    ensures (value / 16) % 8 != 6 ==> StatusRawValue(r.status) == (value / 16) % 8
    ensures (value / 16) % 8 == 6 ==> r.status == Invalid
    ensures ResolutionRawValue(r.resolution) == value / 128
  {
    BatteryDescriptiveField(
      value & 0x0F,
      StatusFromRawValue(StatusBits(value)).GetOr(Invalid),
      ResolutionFromRawValue((value & 0x80) >> 7).GetOr(TwoSecond))
  }

  /** `init(coarseVoltage:status:resolution:)`: the voltage is clamped to
      15, status and resolution are stored as given. */
  function MakeDescriptiveField(
    coarseVoltage: byte,
    status: BatteryStatus,
    resolution: CumulativeOperatingResolution): (r: BatteryDescriptiveField)
    ensures DescriptiveInvariant(r)
    ensures r.coarseVoltage <= coarseVoltage
    ensures r.coarseVoltage == coarseVoltage || r.coarseVoltage == 15
    ensures r.status == status && r.resolution == resolution
  {
    BatteryDescriptiveField(Min(15, coarseVoltage), status, resolution)
  }

  /** `uint8Value`: the voltage OR-ed with the status code shifted left by
      four and the resolution code shifted left by seven.  The three fields
      occupy disjoint bits, so the OR is their arithmetic sum. */
  function DescriptiveToByte(f: BatteryDescriptiveField): (r: byte)
    ensures DescriptiveInvariant(f) ==>
      r as int == f.coarseVoltage as int
                + 16 * StatusRawValue(f.status) as int
                + 128 * ResolutionRawValue(f.resolution) as int
  {
    f.coarseVoltage | (StatusRawValue(f.status) << 4) | (ResolutionRawValue(f.resolution) << 7)
  }

  /** The resolution bit always names a case, so its `??` fallback never
      applies: bit 7 clear is `sixteenSecond`, set is `twoSecond`. */
  lemma ResolutionBitNeverFallsBack(value: byte)
    ensures ResolutionFromRawValue((value & 0x80) >> 7).Some?
    ensures DescriptiveFromByte(value).resolution
         == if value & 0x80 == 0 then SixteenSecond else TwoSecond
  {
  }

  /** The status fallback is taken exactly when bits 4-6 hold code 6 (the
      only 3-bit code without a case). */
  lemma StatusFallbackOnlyForCodeSix(value: byte)
    ensures StatusFromRawValue(StatusBits(value)).None? <==> StatusBits(value) == 6
    ensures StatusBits(value) == 6 ==> StatusRawValue(DescriptiveFromByte(value).status) == 7
  {
  }

  /** Multiplier of the resolution read from a byte: 2 when bit 7 is set,
      16 when it is clear. */
  lemma DecodedMultiplier(value: byte)
    ensures Multiplier(DescriptiveFromByte(value).resolution)
         == if value >= 0x80 then 2 else 16
  {
  }

  /** Decode then re-encode gives back the byte, except that status code 6
      comes back as code 7 (bits 4-6 all set). */
  lemma DescriptiveByteReencode(value: byte)
    ensures DescriptiveToByte(DescriptiveFromByte(value))
         == if StatusBits(value) == 6 then value | 0x70 else value
    ensures DescriptiveToByte(DescriptiveFromByte(value)) == value <==> StatusBits(value) != 6
  {
  }

  /** Every value built by either initialiser survives encode then decode,
      for every status (`invalid` included) and both resolutions. */
  lemma DescriptiveRoundTrip(f: BatteryDescriptiveField)
    requires DescriptiveInvariant(f)
    ensures DescriptiveFromByte(DescriptiveToByte(f)) == f
  {
  }

  lemma DescriptiveConstructedRoundTrip(
    coarseVoltage: byte,
    status: BatteryStatus,
    resolution: CumulativeOperatingResolution)
    ensures var f := MakeDescriptiveField(coarseVoltage, status, resolution);
            DescriptiveFromByte(DescriptiveToByte(f)) == f
  {
    DescriptiveRoundTrip(MakeDescriptiveField(coarseVoltage, status, resolution));
  }

  /** Distinct values of the invariant have distinct encodings. */
  lemma DescriptiveToByteInjective(f: BatteryDescriptiveField, g: BatteryDescriptiveField)
    requires DescriptiveInvariant(f) && DescriptiveInvariant(g)
    ensures DescriptiveToByte(f) == DescriptiveToByte(g) ==> f == g
  {
    DescriptiveRoundTrip(f);
    DescriptiveRoundTrip(g);
  }

  /** Every value of the invariant is the decoding of some byte. */
  lemma {:induction false} DescriptiveFromByteOnto(f: BatteryDescriptiveField)
    requires DescriptiveInvariant(f)
    ensures exists value: byte :: DescriptiveFromByte(value) == f
  {
    DescriptiveRoundTrip(f);
    var value := DescriptiveToByte(f);
    assert DescriptiveFromByte(value) == f;
  }

  /** Decoding is not injective: two bytes that differ only in status code
      6 versus 7 decode to the same value. */
  lemma {:induction false} DescriptiveFromByteIsLossy()
    ensures exists a: byte, b: byte :: a != b && DescriptiveFromByte(a) == DescriptiveFromByte(b)
  {
    assert DescriptiveFromByte(0x60) == DescriptiveFromByte(0x70);
  }

  lemma DescriptiveExamples()
    ensures DescriptiveFromByte(0x85) == BatteryDescriptiveField(5, Reserved, TwoSecond)
    ensures DescriptiveToByte(DescriptiveFromByte(0xE0)) == 0xF0
    ensures DescriptiveToByte(MakeDescriptiveField(5, Good, SixteenSecond)) == 0x25
    ensures MakeDescriptiveField(255, Low, TwoSecond).coarseVoltage == 15
  {
  }
}
