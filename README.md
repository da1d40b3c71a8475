# Octonica ClickHouse client: column codecs and parameter binding

This project is a Dafny model of two parts of the Octonica ClickHouse client
for .NET:

- **Column codecs.** These are the type descriptors that turn rows of .NET
  values into the bytes of a ClickHouse column in the native protocol, and
  back. Each one has a reader (the `ReadNext`/`Skip`/`EndRead` cycle over a
  fragmented byte sequence) and a writer (`WriteNext` into a caller's buffer).
  - `Decimal(P, S)`, with 4-, 8- or 16-byte two's-complement elements. Its
    writer rounds, rescales by powers of ten and range-checks each .NET
    `decimal` on 32-bit words.
  - `UInt8`, `Int16`, `UUID` and `IPv6`.
- **Query parameter binding.** A `ClickHouseParameter` has a validated name
  and settings that its setters change: forced type, nullability, precision,
  scale, size, value and string encoding. It either infers the ClickHouse type
  from the value's run-time type or maps the forced type through a fixed
  switch, then chooses the column type name and the CLR type the column
  writer is dispatched on.

Modules:

| module | what it holds |
|---|---|
| `Wrappers` | `Option`, `Result` and the error kinds the client raises |
| `Bytes` | bytes, words, little-endian and two's-complement encodings |
| `HostTypes` | the .NET values involved: `decimal` (sign, 96-bit magnitude, scale), `Guid`, `IPAddress` and typed row lists |
| `ByteSequences` | a `ReadOnlySequence<byte>` as a list of segments |
| `Numbers` | `int.TryParse` with `NumberStyles.Integer` in the invariant culture, and invariant integer formatting |
| `DecimalTypeInfo` | the decimal descriptor: constructors, options, element size, reader and writer creation |
| `DecimalWriter` | `WriteElement` of the decimal writer: rounding, rescaling, negation, range check, byte layout |
| `DecimalReader` | the decimal reader as a class over a word array |
| `UInt8TypeInfo`, `Int16TypeInfo`, `UuidTypeInfo`, `IpV6TypeInfo` | the other codecs; the `UInt8` and `IPv6` writers are classes with a position |
| `ClickHouseParameters` | the parameter class, its name check, type inference and forced-type switch |

The writers whose source updates a position (`UInt8Writer`, `IpV6Writer`, the
decimal reader) are classes. Their methods are proved against functions on
sequences (`NextChunk`, `WriteSlots`, `Words`), and lemmas about those
functions carry the properties. Element encoders that write into a `Span`
are methods over an `array`.

A precision of 3 suggests that 10.00 does not fit `Decimal(3, 2)`, but the
writer checks only the element's binary width: the stored integer 1000 fits
a 4-byte element and is written. `DecimalTypeInfo.PrecisionIsNotEnforced`
states this, and the tests in `TypeTests.cs` (lines 1127-1160) write values
beyond the formal maximum of `Decimal(7, 3)` in the same way.

## Model

| member | source | states |
|---|---|---|
| `DecimalTypeInfo.NewPartial` | src/Octonica.ClickHouseClient/Types/DecimalTypeInfoBase.cs:41-46 | the partial constructor keeps the type name as both the bare and the full name, keeps the precision it is given and leaves the scale unset |
| `DecimalTypeInfo.New` | src/Octonica.ClickHouseClient/Types/DecimalTypeInfoBase.cs:48-61 | succeeds exactly when 1 ≤ precision ≤ 38 and 0 ≤ scale ≤ precision; otherwise `ArgumentOutOfRange` |
| `DecimalTypeInfo.GetElementSize` | src/Octonica.ClickHouseClient/Types/DecimalTypeInfoBase.cs:148-157 | 4 bytes exactly up to precision 9, 8 bytes exactly for 10-18, 16 bytes beyond |
| `DecimalTypeInfo.ElementSizeFitsPrecision` | src/Octonica.ClickHouseClient/Types/DecimalTypeInfoBase.cs:148-157 | every P-digit magnitude is below half the chosen width's range, and the next smaller width would not hold them all |
| `DecimalTypeInfo.PrecisionValuesFit` | src/Octonica.ClickHouseClient/Types/DecimalTypeInfoBase.cs:353-371 | a value whose stored magnitude has at most P digits passes the writer's range check |
| `DecimalTypeInfo.PrecisionIsNotEnforced` | src/Octonica.ClickHouseClient/Types/DecimalTypeInfoBase.cs:353-371 | 10.00 in `Decimal(3, 2)` is stored as 1000 ≥ 10^3 and still passes the range check |
| `DecimalTypeInfo.GetDetailedTypeInfo` | src/Octonica.ClickHouseClient/Types/DecimalTypeInfoBase.cs:100-129 | one option is the scale and two are precision and scale; any other count, a redefined precision, a precision that is not a positive number or a scale that is not a non-negative number is `InvalidTypeName`; `ArgumentOutOfRange` exactly when the completed precision and scale break the constructor's bounds; the full name is the options joined with ", " |
| `DecimalTypeInfo.DecimalOptionsRoundTrip` | src/Octonica.ClickHouseClient/Types/DecimalTypeInfoBase.cs:100-129 | `Decimal(P, S)` with valid P and S, formatted and parsed back, gives a descriptor with exactly that precision, scale and name |
| `DecimalTypeInfo.ScaleOptionRoundTrip` | src/Octonica.ClickHouseClient/Types/DecimalTypeInfoBase.cs:100-129 | a `DecimalN(S)` type completed by its scale keeps the precision it was declared with |
| `DecimalTypeInfo.CreateColumnReader` | src/Octonica.ClickHouseClient/Types/DecimalTypeInfoBase.cs:63-78 | `TypeNotFullySpecified` unless both precision and scale are set; otherwise a reader with the element size of the precision |
| `DecimalTypeInfo.CreateSpecifiedWriter` | src/Octonica.ClickHouseClient/Types/DecimalTypeInfoBase.cs:88-97 | with precision and scale known: a writer over the decimal rows with the right element size and scale, or `TypeNotSupported` for other rows |
| `DecimalTypeInfo.CreateColumnWriter` | src/Octonica.ClickHouseClient/Types/DecimalTypeInfoBase.cs:80-98 | a type with only one of precision or scale is `TypeNotFullySpecified`; a bare type writes as `Decimal128(9)`, with 16-byte elements and scale 9 |
| `DecimalWriter.AddCarry` | src/Octonica.ClickHouseClient/Types/DecimalTypeInfoBase.cs:265-326 | a nested carry chain adds carry·2^(32k) to the 128-bit value, and raises the overflow flag exactly when the sum reaches 2^128 |
| `DecimalWriter.Multiply` | src/Octonica.ClickHouseClient/Types/DecimalTypeInfoBase.cs:255-263 | the word-wise 64-bit products, split into low words and carries, add up to value·m |
| `DecimalWriter.MultiplyStep` | src/Octonica.ClickHouseClient/Types/DecimalTypeInfoBase.cs:251-333 | one loop pass multiplies the 128-bit value by the step's power of ten, or flags that the product reaches 2^128 |
| `DecimalWriter.Rescale` | src/Octonica.ClickHouseClient/Types/DecimalTypeInfoBase.cs:248-334 | the loop multiplies the value by 10^deltaScale; overflow is flagged exactly when the product reaches 2^128 |
| `DecimalWriter.SubWord` | src/Octonica.ClickHouseClient/Types/DecimalTypeInfoBase.cs:343-351 | `unchecked(max - x)` with `max` either 0 or `uint.MaxValue` |
| `DecimalWriter.Negate` | src/Octonica.ClickHouseClient/Types/DecimalTypeInfoBase.cs:338-351 | the borrow-propagating word negation is the 128-bit two's complement, (2^128 − v) mod 2^128 |
| `DecimalWriter.RangeOverflowMeaning` | src/Octonica.ClickHouseClient/Types/DecimalTypeInfoBase.cs:353-371 | the word and sign-bit tests say a positive value is not below half the element range, or a negated one is below its negative limit |
| `DecimalWriter.Round` | src/Octonica.ClickHouseClient/Types/DecimalTypeInfoBase.cs:233 | `Math.Round` with `AwayFromZero`: the sign is kept, no more than `digits` decimals remain, an exact value is unchanged and the error is at most half a unit, ties going away from zero |
| `DecimalWriter.WordBytesAreLowBytes` | src/Octonica.ClickHouseClient/Types/DecimalTypeInfoBase.cs:377-391 | writing the low words one by one, low word first, gives the low bytes of the 128-bit value |
| `DecimalWriter.SlotBytes` | src/Octonica.ClickHouseClient/Types/DecimalTypeInfoBase.cs:336-391 | once the range check passes, the written words are the two's-complement bytes of the signed magnitude |
| `DecimalWriter.Encode` | src/Octonica.ClickHouseClient/Types/DecimalTypeInfoBase.cs:233-375 | overflow exactly when the rounded, rescaled value does not fit the element; otherwise the words hold its two's-complement form |
| `DecimalWriter.WriteElement` | src/Octonica.ClickHouseClient/Types/DecimalTypeInfoBase.cs:231-392 | `Overflow` with the buffer untouched when the value does not fit; otherwise the slot holds the two's-complement bytes of value·10^scale, rounded, and nothing else changes |
| `DecimalWriter.FitsIsSignedRange` | src/Octonica.ClickHouseClient/Types/DecimalTypeInfoBase.cs:353-371 | the check accepts exactly the stored integers in [−2^(8n−1), 2^(8n−1)) |
| `DecimalWriter.WrittenSlotDecodes` | src/Octonica.ClickHouseClient/Types/DecimalTypeInfoBase.cs:377-391 | read as a signed little-endian integer, the written slot gives back the stored integer |
| `DecimalWriter.ExactWhenScaleFits` | src/Octonica.ClickHouseClient/Types/DecimalTypeInfoBase.cs:233-334 | a value with at most `scale` decimals is stored exactly, as its magnitude times 10^(scale − its scale) |
| `DecimalWriter.AsymmetricBound` | src/Octonica.ClickHouseClient/Types/DecimalTypeInfoBase.cs:353-371 | a negative magnitude may reach 2^(8n−1) but a positive one must stay below it |
| `DecimalWriter.Decimal32Limits` | src/Octonica.ClickHouseClient/Types/DecimalTypeInfoBase.cs:231-375 | for `Decimal(7, 3)` the limits are 2147483.647 and −2147483.648; 1.23456 is stored as 1235 and −1.2345 as −1235 |
| `DecimalReader.WordsRoundTrip` | src/Octonica.ClickHouseClient/Types/DecimalTypeInfoBase.cs:186-195 | the words read, written back as bytes, are the bytes that were read |
| `DecimalReader.WordsAppend` | src/Octonica.ClickHouseClient/Types/DecimalTypeInfoBase.cs:186-195 | reading two byte runs one after the other gives the words of the whole run |
| `DecimalReader.ElementValue` | src/Octonica.ClickHouseClient/Types/DecimalTypeInfoBase.cs:211-215 | an element's words, low word first, read as a signed integer within the element's range |
| `DecimalReader.ReadsWhatWasWritten` | src/Octonica.ClickHouseClient/Types/DecimalTypeInfoBase.cs:177-198 | the words of a slot the writer produced read back as the stored integer |
| `DecimalReader.DecimalReader.constructor` | src/Octonica.ClickHouseClient/Types/DecimalTypeInfoBase.cs:169-175 | a fresh word array with room for every row, the element size of the precision, position 0 |
| `DecimalReader.DecimalReader.ReadLength` | src/Octonica.ClickHouseClient/Types/DecimalTypeInfoBase.cs:183 | whole elements only, never past the remaining rows or the sequence; all remaining rows or less than one element left over |
| `DecimalReader.DecimalReader.ReadNext` | src/Octonica.ClickHouseClient/Types/DecimalTypeInfoBase.cs:177-198 | succeeds exactly while rows remain; `DataReaderError` after the last row, with nothing changed; otherwise the words of the taken bytes are appended after the words already read, whole elements only |
| `DecimalReader.DecimalReader.CopyWords` | src/Octonica.ClickHouseClient/Types/DecimalTypeInfoBase.cs:186-195 | the loop stores the slice's words, across segment boundaries, from the position on and nothing else |
| `DecimalReader.DecimalReader.Skip` | src/Octonica.ClickHouseClient/Types/DecimalTypeInfoBase.cs:200-204 | min(maxElementsCount, length / elementSize) elements, and their bytes |
| `DecimalReader.DecimalReader.EndRead` | src/Octonica.ClickHouseClient/Types/DecimalTypeInfoBase.cs:206-215 | the column holds exactly the words read so far, whole elements, the element width in words and the scale |
| `UInt8TypeInfo.WriterRows` | src/Octonica.ClickHouseClient/Types/UInt8TypeInfo.cs:38-44 | only a list of bytes is accepted; anything else is `TypeNotSupported` |
| `UInt8TypeInfo.ReadElement` | src/Octonica.ClickHouseClient/Types/UInt8TypeInfo.cs:69-72 | the element is the one byte that encodes it |
| `UInt8TypeInfo.CopyTo` | src/Octonica.ClickHouseClient/Types/UInt8TypeInfo.cs:63-67 | the whole sequence goes to the front of the target and the target length is returned; a longer sequence is refused with nothing written |
| `UInt8TypeInfo.NextChunk` | src/Octonica.ClickHouseClient/Types/UInt8TypeInfo.cs:99 | as many rows as fit, and no more than remain, from the position on |
| `UInt8TypeInfo.DrainIsPrefix` | src/Octonica.ClickHouseClient/Types/UInt8TypeInfo.cs:97-105 | successive calls write the rows in order, cut only where the buffers ran out |
| `UInt8TypeInfo.DrainWritesAllRows` | src/Octonica.ClickHouseClient/Types/UInt8TypeInfo.cs:97-105 | buffers that together hold every row write exactly the rows |
| `UInt8TypeInfo.UInt8Writer.constructor` | src/Octonica.ClickHouseClient/Types/UInt8TypeInfo.cs:90-95 | the writer keeps its name, type and rows and starts at row 0 |
| `UInt8TypeInfo.UInt8Writer.WriteNext` | src/Octonica.ClickHouseClient/Types/UInt8TypeInfo.cs:97-105 | the next chunk goes to the front of the buffer, the rest is untouched, the position advances by the chunk, and a finished writer writes nothing |
| `UInt8TypeInfo.CreateColumnWriter` | src/Octonica.ClickHouseClient/Types/UInt8TypeInfo.cs:38-44 | a fresh writer over the byte rows at row 0, or `TypeNotSupported` |
| `Int16TypeInfo.WriterRows` | src/Octonica.ClickHouseClient/Types/Int16TypeInfo.cs:38-44 | only a list of `short` is accepted; anything else is `TypeNotSupported` |
| `Int16TypeInfo.ReadElement` | src/Octonica.ClickHouseClient/Types/Int16TypeInfo.cs:63-66 | the first two bytes as a signed little-endian integer |
| `Int16TypeInfo.WriteElement` | src/Octonica.ClickHouseClient/Types/Int16TypeInfo.cs:81-85 | the slot holds the two's-complement bytes, low byte first; the rest of the buffer is unchanged |
| `Int16TypeInfo.ReadWrittenElement` | src/Octonica.ClickHouseClient/Types/Int16TypeInfo.cs:63-85 | every `short`, the limits included, reads back as itself |
| `Int16TypeInfo.WriteReadElement` | src/Octonica.ClickHouseClient/Types/Int16TypeInfo.cs:63-85 | every two-byte slot is what writing its value produces |
| `Int16TypeInfo.Int16Limits` | src/Octonica.ClickHouseClient/Types/Int16TypeInfo.cs:81-85 | −32768 is stored as `00 80` and 32767 as `FF 7F` |
| `UuidTypeInfo.WriterRows` | src/Octonica.ClickHouseClient/Types/UuidTypeInfo.cs:38-44 | only a list of `Guid` is accepted; anything else is `TypeNotSupported` |
| `UuidTypeInfo.ReadElement` | src/Octonica.ClickHouseClient/Types/UuidTypeInfo.cs:63-70 | the 16 bytes are the UUID's wire form: the high 64 bits then the low 64 bits, each little-endian |
| `UuidTypeInfo.SwapHalvesInvolution` | src/Octonica.ClickHouseClient/Types/UuidTypeInfo.cs:85-94 | reversing each 8-byte half twice gives back the bytes |
| `UuidTypeInfo.WriteElement` | src/Octonica.ClickHouseClient/Types/UuidTypeInfo.cs:80-95 | the slot holds the .NET byte layout of the `Guid` with each 8-byte half reversed; the rest of the buffer is unchanged |
| `UuidTypeInfo.ReadWrittenElement` | src/Octonica.ClickHouseClient/Types/UuidTypeInfo.cs:63-95 | reading what the writer wrote gives the `Guid` with each of `a`, `b` and `c` byte-swapped in place and `d` to `k` unchanged, not the `Guid` itself |
| `UuidTypeInfo.CorrectedWriteBytes` | src/Octonica.ClickHouseClient/Types/UuidTypeInfo.cs:80-95 | the corrected writer produces the wire form the reader expects |
| `UuidTypeInfo.CorrectedRoundTrip` | src/Octonica.ClickHouseClient/Types/UuidTypeInfo.cs:63-95 | every `Guid` written by the corrected writer reads back as itself |
| `UuidTypeInfo.KnownUuidRead` | src/Octonica.ClickHouseClient/Types/UuidTypeInfo.cs:63-70 | the wire bytes of 74D47928-2423-4FE2-AD45-82E296BF6058 read as that UUID |
| `UuidTypeInfo.KnownUuidWritten` | src/Octonica.ClickHouseClient/Types/UuidTypeInfo.cs:80-95 | the writer as written does not produce those bytes, and they do not read back as the UUID |
| `IpV6TypeInfo.ParseIpAddress` | src/Octonica.ClickHouseClient/Types/IpV6TypeInfo.cs:65-74 | a null string stays null; a string that does not parse is `InvalidCast`; otherwise the parsed address |
| `IpV6TypeInfo.PrepareRows` | src/Octonica.ClickHouseClient/Types/IpV6TypeInfo.cs:42-58 | address rows are taken as they are, string rows are parsed row by row, anything else is `TypeNotSupported` |
| `IpV6TypeInfo.MapToIPv6` | src/Octonica.ClickHouseClient/Types/IpV6TypeInfo.cs:119-120 | an IPv4 address becomes the IPv4-mapped IPv6 address `::ffff:a.b.c.d` |
| `IpV6TypeInfo.SlotContent` | src/Octonica.ClickHouseClient/Types/IpV6TypeInfo.cs:112-126 | a null row zero-fills; an IPv6 address writes its own 16 bytes; an IPv4 address writes its mapped form `::ffff:a.b.c.d`; an address of the wrong length is `InternalError`; any other family is `InvalidCast`; a parse failure passes through |
| `IpV6TypeInfo.WriteSlots` | src/Octonica.ClickHouseClient/Types/IpV6TypeInfo.cs:110-127 | the loop stops at the first failing row; otherwise every row is written |
| `IpV6TypeInfo.SlotsHoldRows` | src/Octonica.ClickHouseClient/Types/IpV6TypeInfo.cs:110-127 | when no row fails, slot j holds row j's bytes (zeros for a null row) |
| `IpV6TypeInfo.TailAfterSlots` | src/Octonica.ClickHouseClient/Types/IpV6TypeInfo.cs:113-116 | a null row's `Fill(0)` clears the buffer to its end, so after a null row the tail is zero; without one it is untouched |
| `IpV6TypeInfo.FirstFailure` | src/Octonica.ClickHouseClient/Types/IpV6TypeInfo.cs:110-127 | a write fails exactly when some row fails, with the first failing row's error, after every earlier row succeeded |
| `IpV6TypeInfo.SecondCallRewritesFirstRow` | src/Octonica.ClickHouseClient/Types/IpV6TypeInfo.cs:112 | with a one-slot buffer, the second call writes the first row again instead of the second |
| `IpV6TypeInfo.IpV6Writer.constructor` | src/Octonica.ClickHouseClient/Types/IpV6TypeInfo.cs:99-104 | the writer keeps its name, type and rows and starts at row 0 |
| `IpV6TypeInfo.IpV6Writer.ElementsCount` | src/Octonica.ClickHouseClient/Types/IpV6TypeInfo.cs:108 | min(remaining rows, buffer length / 16) |
| `IpV6TypeInfo.IpV6Writer.WriteNext` | src/Octonica.ClickHouseClient/Types/IpV6TypeInfo.cs:106-130 | as written: the buffer holds the slots of rows 0 to n−1 whatever the position; the position advances by the rows written; the first failing row's error is returned |
| `IpV6TypeInfo.IpV6Writer.WriteNextCorrected` | src/Octonica.ClickHouseClient/Types/IpV6TypeInfo.cs:106-130 | corrected: the slots of rows position to position+n−1, with the same outcomes |
| `ClickHouseParameters.StripBraces` | src/Octonica.ClickHouseClient/ClickHouseParameter.cs:115-118 | one pair of surrounding braces is removed; any other name is kept |
| `ClickHouseParameters.ParameterId` | src/Octonica.ClickHouseClient/ClickHouseParameter.cs:110-124 | a null name is `ArgumentNull`; the id is the name without braces, accepted exactly when the identifier pattern matches it (a final line feed allowed by `$`); otherwise `Argument` |
| `ClickHouseParameters.BracedNameHasSameId` | src/Octonica.ClickHouseClient/ClickHouseParameter.cs:110-124 | `name` and `{name}` give the same id |
| `ClickHouseParameters.TrailingLineFeedAccepted` | src/Octonica.ClickHouseClient/ClickHouseParameter.cs:36 | "a\n" is accepted as an id although it is not an identifier |
| `ClickHouseParameters.ParameterIdCorrected` | src/Octonica.ClickHouseClient/ClickHouseParameter.cs:110-124 | with the pattern anchored at the very end, an id is accepted exactly when it is an identifier |
| `ClickHouseParameters.TrailingLineFeedRefused` | src/Octonica.ClickHouseClient/ClickHouseParameter.cs:36 | the corrected check refuses "a\n" |
| `ClickHouseParameters.InferenceOutcomes` | src/Octonica.ClickHouseClient/ClickHouseParameter.cs:305-355 | only an unsupported run-time type or an address of another family is refused, with `InvalidQueryParameterConfiguration`; both kinds of null are `Nothing`; an address is `IPv4` or `IPv6` after its family |
| `ClickHouseParameters.ForcedColumnErrors` | src/Octonica.ClickHouseClient/ClickHouseParameter.cs:141-280 | `NotSupported` exactly for the ANSI strings, `Time`, `Xml` and a non-null value forced to `Object`; `ArgumentOutOfRange` exactly for the delimiter and unnamed codes; the fixed-string size errors exactly when size ≤ 0 or the encoded string is longer |
| `ClickHouseParameters.ForcedColumnResults` | src/Octonica.ClickHouseClient/ClickHouseParameter.cs:141-280 | only a fixed string with a string value carries a prepared value, its encoded bytes, which fit the size; binary and fixed-string names follow the size |
| `ClickHouseParameters.ForcedDecimalNames` | src/Octonica.ClickHouseClient/ClickHouseParameter.cs:141-280 | `Decimal` is `Decimal(38, 9)`, `Currency` is `Decimal(18, 4)`, and `VarNumeric` follows precision and scale |
| `ClickHouseParameters.VarNumericNameIsUnderstood` | src/Octonica.ClickHouseClient/ClickHouseParameter.cs:141-280 | the `VarNumeric` name, parsed by the decimal descriptor, gives back the parameter's precision and scale |
| `ClickHouseParameters.ULongBoundToUInt32` | src/Octonica.ClickHouseClient/ClickHouseParameter.cs:340-341 | a `ulong` is bound to `UInt32`, inferred or forced, and 2^32 does not fit it |
| `ClickHouseParameters.ForcedObjectRefusesDBNull` | src/Octonica.ClickHouseClient/ClickHouseParameter.cs:198-204 | a `DBNull` value is inferred as `Object`, yet forcing `Object` on it is `NotSupported` |
| `ClickHouseParameters.TypeFromValueCorrected` | src/Octonica.ClickHouseClient/ClickHouseParameter.cs:305-355 | as inferred, but a `ulong` is bound to `UInt64` |
| `ClickHouseParameters.ForcedColumnTypeCorrected` | src/Octonica.ClickHouseClient/ClickHouseParameter.cs:141-280 | as switched, but `UInt64` is bound to `UInt64` and `Object` accepts both kinds of null |
| `ClickHouseParameters.IntegerColumnNameFits` | src/Octonica.ClickHouseClient/ClickHouseParameter.cs:305-355 | each CLR integer type's ClickHouse name has exactly its range |
| `ClickHouseParameters.InferredIntegerColumnsFit` | src/Octonica.ClickHouseClient/ClickHouseParameter.cs:305-355 | corrected: every integer value is inferred as the column type of exactly its range |
| `ClickHouseParameters.ForcedIntegerColumnsFit` | src/Octonica.ClickHouseClient/ClickHouseParameter.cs:141-280 | corrected: every forced integer type binds a column of exactly its CLR type's range |
| `ClickHouseParameters.InferredTypeRebinds` | src/Octonica.ClickHouseClient/ClickHouseParameter.cs:141-355 | corrected: forcing the type inferred from a value binds it to the name inferred for it, except a decimal and a binary value with a positive size |
| `ClickHouseParameters.ClickHouseParameter.constructor` | src/Octonica.ClickHouseClient/ClickHouseParameter.cs:110-124 | a parameter with the checked id and nothing forced |
| `ClickHouseParameters.NewParameter` | src/Octonica.ClickHouseClient/ClickHouseParameter.cs:110-124 | a fresh parameter exactly when the name check passes; otherwise the check's error |
| `ClickHouseParameters.ClickHouseParameter.ClickHouseType` | src/Octonica.ClickHouseClient/ClickHouseParameter.cs:47-51 | the forced type, or the type inferred from the value, with inference's failure; `Object` for a null value |
| `ClickHouseParameters.ClickHouseParameter.DbType` | src/Octonica.ClickHouseClient/ClickHouseParameter.cs:53-64 | never a ClickHouse-specific member: those are reported as `Object`, every other type as itself |
| `ClickHouseParameters.ClickHouseParameter.IsNullable` | src/Octonica.ClickHouseClient/ClickHouseParameter.cs:76-80 | the forced flag, or else whether the value is null or `DBNull` |
| `ClickHouseParameters.ClickHouseParameter.Precision` | src/Octonica.ClickHouseClient/ClickHouseParameter.cs:96-100 | the forced precision, or 38 |
| `ClickHouseParameters.ClickHouseParameter.Scale` | src/Octonica.ClickHouseClient/ClickHouseParameter.cs:102-106 | the forced scale, or 9 |
| `ClickHouseParameters.ClickHouseParameter.SetClickHouseType` | src/Octonica.ClickHouseClient/ClickHouseParameter.cs:50 | forces the type and changes no other setting |
| `ClickHouseParameters.ClickHouseParameter.SetIsNullable` | src/Octonica.ClickHouseClient/ClickHouseParameter.cs:79 | forces nullability and changes no other setting |
| `ClickHouseParameters.ClickHouseParameter.SetPrecision` | src/Octonica.ClickHouseClient/ClickHouseParameter.cs:99 | forces the precision and changes no other setting |
| `ClickHouseParameters.ClickHouseParameter.SetScale` | src/Octonica.ClickHouseClient/ClickHouseParameter.cs:105 | forces the scale and changes no other setting |
| `ClickHouseParameters.ClickHouseParameter.SetSize` | src/Octonica.ClickHouseClient/ClickHouseParameter.cs:94 | sets the size and changes no other setting |
| `ClickHouseParameters.ClickHouseParameter.SetValue` | src/Octonica.ClickHouseClient/ClickHouseParameter.cs:90 | sets the value and changes no other setting |
| `ClickHouseParameters.ClickHouseParameter.SetStringEncoding` | src/Octonica.ClickHouseClient/ClickHouseParameter.cs:108 | sets the encoding and changes no other setting |
| `ClickHouseParameters.ClickHouseParameter.ResetDbType` | src/Octonica.ClickHouseClient/ClickHouseParameter.cs:126-134 | clears every forced setting, the size and the encoding and keeps the value; afterwards precision and scale are 38 and 9, nullability follows the value and the type is inferred again |
| `ClickHouseParameters.ClickHouseParameter.BaseColumn` | src/Octonica.ClickHouseClient/ClickHouseParameter.cs:141-280 | with no forced type, the inferred name and the value's own CLR type; otherwise the forced type's column |
| `ClickHouseParameters.ClickHouseParameter.CreateParameterColumnWriter` | src/Octonica.ClickHouseClient/ClickHouseParameter.cs:136-303 | a null value of a parameter forced non-nullable is `InvalidQueryParameterConfiguration`; the name is wrapped in `Nullable(...)` exactly when the parameter is nullable; a non-null value is handed over as it is, with its own CLR type, except a string for a fixed-string column, which is handed over as its encoded bytes; a null one is passed as null with a value-type column type made `Nullable<>` |

## Left out

- `StructureReaderBase` and `StructureWriterBase` are not part of this model. They cut the `Int16` and `UUID` columns, the `UInt8` reader and the decimal writer into elements, so for those the model covers one element (`ReadElement`, `WriteElement`).
- `IpColumnReaderBase` is not part of this model, so the `IPv6` reader is left out. The `IPv6` and `UInt8` readers' `EndRead` and the table columns they build are left out with it.
- `DecimalTableColumn` is not part of this model. `DecimalReader.ElementValue` says what it decodes; its conversion back to `decimal` is not modelled.
- `CloneWithOptions` is abstract, and the concrete decimal types are not part of this model. `DecimalTypeInfo.CloneWithOptions` assumes that each of them calls the full constructor with the type's own name: a missing precision is the type's own, or 38 for a type without one, and the bounds of `New` apply. `DecimalTypeInfo.ScaleOptionRoundTrip` and the `ArgumentOutOfRange` case of `DecimalTypeInfo.GetDetailedTypeInfo` rest on this assumption.
- Type lookup (`GetTypeInfo` of the type-info provider) and `TypeDispatcher` are not part of this model. `CreateParameterColumnWriter` stops at the type name, CLR type and value it would hand to them, so a failing lookup is not modelled.
- `Encoding.GetBytes` and `IPAddress.TryParse` are parameters of the model (`getBytes`, `tryParse`). Their results are not constrained beyond what the code checks.
- `ClickHouseDbType.cs` is not part of this model. The members are the ones the code names; `Undefined` stands for every other code, with a flag for codes above the delimiter. The `DbType` setter stores its value through the `ClickHouseDbType` setter, modelled as `SetClickHouseType`.
- The `Direction` property (only `Input` is allowed) and the `ParameterName` setter, which always throws, are left out. `SourceColumn` and `SourceColumnNullMapping` are plain stored properties that the binding never reads, and they are left out too.
- `Size` is a 32-bit `int`, and `ClickHouseParameter.SetSize` requires its range. Other 32-bit overflows (`_elementSize / 4 * rowCount`, the `(int)` casts of sequence lengths) are not modelled: lengths are unbounded naturals.
- `DecimalWriter.Round`: the model takes values with a scale of at most 28, as .NET `decimal` guarantees. The `deltaScale < 0` internal error (DecimalTypeInfoBase.cs:244-246) cannot occur, because rounding never raises the scale, so it is not modelled.
- `ByteSequences` models a `ReadOnlySequence<byte>` as a list of segments, empty segments allowed. Segment memory ownership and limits on segment size are left out.
- Asynchronous I/O, the protocol framing around columns, and `Debug.Assert` are left out.

## Findings

| source | as written | input that shows it | evidently intended | confidence | as-written member | corrected member |
|---|---|---|---|---|---|---|
| src/Octonica.ClickHouseClient/Types/UuidTypeInfo.cs:80-95 | the writer reverses each 8-byte half of the .NET `Guid` layout, which is not the layout the reader decodes | 74D47928-2423-4FE2-AD45-82E296BF6058 is written as bytes that read back as a different UUID | write the high 64 bits then the low 64 bits, little-endian, so every UUID reads back as itself | not executed | `UuidTypeInfo.KnownUuidWritten`, `UuidTypeInfo.ReadWrittenElement` | `UuidTypeInfo.CorrectedWriteBytes`, `UuidTypeInfo.CorrectedRoundTrip` |
| src/Octonica.ClickHouseClient/Types/IpV6TypeInfo.cs:112 | `WriteNext` fills slot `i` from `_rows[i]` while `_position` advances | two IPv6 rows and a 16-byte buffer: the second call writes the first row again | read `_rows[_position]`, so each call continues where the last one stopped | not executed | `IpV6TypeInfo.SecondCallRewritesFirstRow`, `IpV6TypeInfo.IpV6Writer.WriteNext` | `IpV6TypeInfo.IpV6Writer.WriteNextCorrected` |
| src/Octonica.ClickHouseClient/ClickHouseParameter.cs:340-341 | a `ulong` value, and a forced `UInt64`, are bound to the ClickHouse type `UInt32` | the `ulong` value 4294967296 (2^32) | bind to `UInt64`, whose range is the range of `ulong` | not executed | `ClickHouseParameters.ULongBoundToUInt32` | `ClickHouseParameters.TypeFromValueCorrected`, `ClickHouseParameters.InferredIntegerColumnsFit`, `ClickHouseParameters.ForcedIntegerColumnsFit` |
| src/Octonica.ClickHouseClient/ClickHouseParameter.cs:198-204 | forced `Object` refuses every value that is not a C# `null`, `DBNull.Value` included | a parameter with value `DBNull.Value` and type `Object`, which is the type it reports for itself | accept both kinds of null, as `IsNullable` and the null check of the same method do | not executed | `ClickHouseParameters.ForcedObjectRefusesDBNull` | `ClickHouseParameters.ForcedColumnTypeCorrected`, `ClickHouseParameters.InferredTypeRebinds` |
| src/Octonica.ClickHouseClient/ClickHouseParameter.cs:36 | the pattern `^[a-zA-Z_][0-9a-zA-Z_]*$` without `RegexOptions.Multiline` also matches before a final line feed | the parameter name "a\n" | accept only ClickHouse identifiers | not executed | `ClickHouseParameters.TrailingLineFeedAccepted` | `ClickHouseParameters.ParameterIdCorrected`, `ClickHouseParameters.TrailingLineFeedRefused` |
