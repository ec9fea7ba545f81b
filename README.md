# Battery status fields of the ANT+ Battery Status page

A Dafny model of `Battery.swift` from the AntMessageProtocol Swift package.
That file holds the bit-exact codec for the battery fields of ANT+ common data
page 82 (Battery Status). It has four parts:

- `BatteryStatus`: a 3-bit raw-value enumeration. Codes 0-5 and 7 have cases; code 6 has none.
- `CumulativeOperatingResolution`: a 1-bit raw-value enumeration with a derived `multiplier`.
- `BatteryIdentifier`: `count` sits in bits 0-3 and `identifier` in bits 4-7 of one byte.
- `BatteryDescriptiveField`: `coarseVoltage` sits in bits 0-3, `status` in bits 4-6 and `resolution` in bit 7.

Every operation is a total, stateless function, so the model is made of
datatypes, functions and lemmas (file `battery.dfy`, module `Battery`).

Modelling choices:

- Bytes are `bv8`. Masks, shifts and ORs therefore behave as they do on Swift's `UInt8`. In particular, `identifier << 4` silently drops the identifier's bits above bit 3.
- A failable `init?(rawValue:)` is a function returning `Option` (module `Wrappers`). The `??` fallback is `Option.GetOr`.
- The structures keep the source's `UInt8` fields. The bound `count <= 15` (resp. `coarseVoltage <= 15`) is the predicate `IdentifierInvariant` (resp. `DescriptiveInvariant`). Both initialisers are proved to establish it. `identifier` is not clamped by the source, so it is not bounded in the model either.
- Byte 0x85 has bits 4-6 clear and bit 7 set, so it decodes to (5, reserved, twoSecond) (`DescriptiveExamples`).

## Model

| member | source | states |
|---|---|---|
| `Battery.StatusRawValue` | Sources/ANTMessageProtocol/Types/Battery.swift:27-35 | every status code is a 3-bit value other than 6 |
| `Battery.StatusFromRawValue` | Sources/ANTMessageProtocol/Types/Battery.swift:27-35 | a case is found exactly for codes 0-5 and 7, and the case found has that code |
| `Battery.StatusName` | Sources/ANTMessageProtocol/Types/Battery.swift:39-56 | the display name of each case, never empty (distinctness in `StatusNamesDistinct`) |
| `Battery.StatusRawValueRoundTrip` | Sources/ANTMessageProtocol/Types/Battery.swift:27-35 | looking a case up by its own code gives the case back |
| `Battery.StatusNamesDistinct` | Sources/ANTMessageProtocol/Types/Battery.swift:39-56 | no two status cases share a display name |
| `Battery.ResolutionRawValue` | Sources/ANTMessageProtocol/Types/Battery.swift:59-61 | every resolution code is 0 or 1 |
| `Battery.ResolutionFromRawValue` | Sources/ANTMessageProtocol/Types/Battery.swift:59-61 | a case is found exactly for codes 0 and 1, and the case found has that code |
| `Battery.ResolutionRawValueRoundTrip` | Sources/ANTMessageProtocol/Types/Battery.swift:59-61 | looking a resolution up by its own code gives it back |
| `Battery.Multiplier` | Sources/ANTMessageProtocol/Types/Battery.swift:63-70 | the multiplier is 16 for code 0 (`sixteenSecond`) and 2 otherwise |
| `Battery.IdentifierFromByte` | Sources/ANTMessageProtocol/Types/Battery.swift:92-95 | count is the byte mod 16 and identifier the byte div 16, both at most 15 |
| `Battery.MakeIdentifier` | Sources/ANTMessageProtocol/Types/Battery.swift:98-101 | the stored count is min(15, count), so it is at most 15; the identifier is stored unchanged |
| `Battery.IdentifierToByte` | Sources/ANTMessageProtocol/Types/Battery.swift:85-90 | for count at most 15 the byte is count + (identifier * 16) mod 256: the OR of disjoint fields is their sum, and high identifier bits are lost |
| `Battery.IdentifierByteRoundTrip` | Sources/ANTMessageProtocol/Types/Battery.swift:85-95 | decoding then re-encoding returns every one of the 256 bytes |
| `Battery.IdentifierRoundTrip` | Sources/ANTMessageProtocol/Types/Battery.swift:85-95 | a value with both fields at most 15 survives encode then decode |
| `Battery.IdentifierConstructedRoundTrip` | Sources/ANTMessageProtocol/Types/Battery.swift:85-101 | encode then decode of a constructed value keeps the clamped count and keeps the identifier mod 16; identity when identifier is at most 15 |
| `Battery.IdentifierFromByteOnto` | Sources/ANTMessageProtocol/Types/Battery.swift:92-95 | every value with both fields at most 15 is the decoding of some byte |
| `Battery.IdentifierOverflowIsLossy` | Sources/ANTMessageProtocol/Types/Battery.swift:87 | a constructed identifier above 15 does not survive encode then decode |
| `Battery.IdentifierExamples` | Sources/ANTMessageProtocol/Types/Battery.swift:85-101 | 0x23 decodes to count 3, identifier 2 and back; count 20 is clamped to 15; count 1 with identifier 0x12 encodes as 0x21 (the identifier's high bits are lost) |
| `Battery.DescriptiveFromByte` | Sources/ANTMessageProtocol/Types/Battery.swift:122-126 | voltage is the byte mod 16; status has code (byte div 16) mod 8, or is `invalid` for code 6; resolution has code byte div 128 |
| `Battery.MakeDescriptiveField` | Sources/ANTMessageProtocol/Types/Battery.swift:128-132 | the stored voltage is min(15, coarseVoltage), so it is at most 15; status and resolution are stored unchanged |
| `Battery.DescriptiveToByte` | Sources/ANTMessageProtocol/Types/Battery.swift:113-119 | for voltage at most 15 the byte is voltage + 16 * status code + 128 * resolution code: the OR of disjoint fields is their sum |
| `Battery.ResolutionBitNeverFallsBack` | Sources/ANTMessageProtocol/Types/Battery.swift:125 | bit 7 always names a resolution: clear is `sixteenSecond`, set is `twoSecond`; the fallback is never taken |
| `Battery.StatusFallbackOnlyForCodeSix` | Sources/ANTMessageProtocol/Types/Battery.swift:124 | the `invalid` fallback is taken exactly for status code 6, and then re-encodes as code 7 |
| `Battery.DecodedMultiplier` | Sources/ANTMessageProtocol/Types/Battery.swift:63-70 | the multiplier of a decoded byte is 2 when bit 7 is set and 16 when it is clear |
| `Battery.DescriptiveByteReencode` | Sources/ANTMessageProtocol/Types/Battery.swift:113-126 | decode then re-encode returns the byte, or the byte OR 0x70 when status code is 6; equality holds exactly when the code is not 6 |
| `Battery.DescriptiveRoundTrip` | Sources/ANTMessageProtocol/Types/Battery.swift:113-126 | every value with voltage at most 15 survives encode then decode, for all statuses and resolutions |
| `Battery.DescriptiveConstructedRoundTrip` | Sources/ANTMessageProtocol/Types/Battery.swift:113-132 | every constructed value survives encode then decode |
| `Battery.DescriptiveToByteInjective` | Sources/ANTMessageProtocol/Types/Battery.swift:113-119 | distinct values with voltage at most 15 encode to distinct bytes |
| `Battery.DescriptiveFromByteOnto` | Sources/ANTMessageProtocol/Types/Battery.swift:122-126 | every value with voltage at most 15 is the decoding of some byte |
| `Battery.DescriptiveFromByteIsLossy` | Sources/ANTMessageProtocol/Types/Battery.swift:124 | two different bytes (status codes 6 and 7) decode to the same value |
| `Battery.DescriptiveExamples` | Sources/ANTMessageProtocol/Types/Battery.swift:113-132 | 0x85 decodes to (5, reserved, twoSecond); 0xE0 re-encodes as 0xF0; (5, good, sixteenSecond) encodes as 0x25; voltage 255 is clamped to 15 |

## Left out

- `import Foundation` and the access modifiers (`fileprivate(set)`, `let`): they only mean that no field changes after an initialiser runs, which holds of Dafny datatype values anyway.
- `Battery.StatusName`: the display strings are modelled only as a table whose entries are non-empty and pairwise distinct; nothing else is proved about them, since they serve diagnostics only.
- Turning an operating-time counter into seconds with `multiplier`: that counter and its arithmetic live outside this file, so only the constant is modelled.
- The surrounding page parser, frame-length checks, transport and checksums: they are not part of this model.
