/** `ClickHouseParameter`: a named query parameter. Its name is checked once
    when it is created; its type settings change through property setters;
    when a query is sent it is bound to a ClickHouse column type, chosen
    from the forced type or, when none is forced, from the run-time type of
    its value. */
module ClickHouseParameters {
  import opened Wrappers
  import opened Numbers
  import Bytes
  import HostTypes
  import DecimalTypeInfo

  /** The members of `ClickHouseDbType`. The first 27 carry the codes of the
      `System.Data.DbType` members of the same name, so a `DbType` converts
      to the member of the same name; `IpV4` and `IpV6` lie above
      `ClickHouseSpecificTypeDelimiterCode`. Any other integer cast to the
      enumeration is `Undefined`, which records only on which side of the
      delimiter its code lies. */
  datatype ClickHouseDbType =
    | AnsiString | Binary | Byte | Boolean | Currency | Date | DateTime | Decimal
    | Double | Guid | Int16 | Int32 | Int64 | Object | SByte | Single | String | Time
    | UInt16 | UInt32 | UInt64 | VarNumeric | AnsiStringFixedLength | StringFixedLength
    | Xml | DateTime2 | DateTimeOffset
    | ClickHouseSpecificTypeDelimiterCode | IpV4 | IpV6
    | Undefined(aboveDelimiter: bool)
  {
    /** Whether the code is greater than the delimiter's. */
    predicate AboveDelimiter() {
      IpV4? || IpV6? || (Undefined? && aboveDelimiter)
    }
  }

  /** The .NET integer types, by their ranges. */
  type NetByte = n: int | 0 <= n < 0x100
  type NetSByte = n: int | -0x80 <= n < 0x80
  type NetShort = n: int | -0x8000 <= n < 0x8000
  type NetUShort = n: int | 0 <= n < 0x1_0000
  type NetInt = n: int | -0x8000_0000 <= n < 0x8000_0000
  type NetUInt = n: int | 0 <= n < 0x1_0000_0000
  type NetLong = n: int | -0x8000_0000_0000_0000 <= n < 0x8000_0000_0000_0000
  type NetULong = n: int | 0 <= n < 0x1_0000_0000_0000_0000

  /** The value of a parameter, by its run-time type. Only the payloads the
      binding looks at are kept; the integer payloads are the values of the
      CLR integer types. */
  datatype ParamValue =
    | Null
    | DBNull
    | StringValue(s: string)
    | BytesValue(bytes: seq<Bytes.Byte>)
    | BoolValue(b: bool)
    | ByteValue(u8: NetByte)
    | SByteValue(i8: NetSByte)
    | ShortValue(i16: NetShort)
    | UShortValue(u16: NetUShort)
    | IntValue(i32: NetInt)
    | UIntValue(u32: NetUInt)
    | LongValue(i64: NetLong)
    | ULongValue(u64: NetULong)
    | DecimalValue(d: HostTypes.NetDecimal)
    | DateTimeValue
    | DateTimeOffsetValue
    | DoubleValue
    | SingleValue
    | GuidValue(g: HostTypes.Guid)
    | IpAddressValue(address: HostTypes.IpAddress)
    | OtherValue(typeName: string)
  {
    /** `Value == DBNull.Value || Value == null`. */
    predicate IsNull() {
      Null? || DBNull?
    }
  }

  /** The CLR type the column writer is dispatched on. */
  datatype ClrType =
    | ClrString | ClrByteArray | ClrBool
    | ClrByte | ClrSByte | ClrShort | ClrUShort | ClrInt | ClrUInt | ClrLong | ClrULong
    | ClrDecimal | ClrDateTime | ClrDateTimeOffset | ClrDouble | ClrSingle | ClrGuid
    | ClrIpAddress | ClrDBNull
    | ClrOther(name: string)
    | ClrNullable(underlying: ClrType)
  {
    /** Structs are value types; strings, arrays, `IPAddress` and `DBNull`
        are classes. An unsupported type counts as a class: the binding
        never asks about it. */
    predicate IsValueType() {
      !(ClrString? || ClrByteArray? || ClrIpAddress? || ClrDBNull? || ClrOther?)
    }
  }

  /** `Value?.GetType() ?? typeof(DBNull)`. */
  function ValueClrType(value: ParamValue): ClrType {
    match value
    case Null => ClrDBNull
    case DBNull => ClrDBNull
    case StringValue(_) => ClrString
    case BytesValue(_) => ClrByteArray
    case BoolValue(_) => ClrBool
    case ByteValue(_) => ClrByte
    case SByteValue(_) => ClrSByte
    case ShortValue(_) => ClrShort
    case UShortValue(_) => ClrUShort
    case IntValue(_) => ClrInt
    case UIntValue(_) => ClrUInt
    case LongValue(_) => ClrLong
    case ULongValue(_) => ClrULong
    case DecimalValue(_) => ClrDecimal
    case DateTimeValue => ClrDateTime
    case DateTimeOffsetValue => ClrDateTimeOffset
    case DoubleValue => ClrDouble
    case SingleValue => ClrSingle
    case GuidValue(_) => ClrGuid
    case IpAddressValue(_) => ClrIpAddress
    case OtherValue(name) => ClrOther(name)
  }

  /** A text encoding, known by name; its `GetBytes` is a parameter of the
      binding. */
  datatype Encoding = Encoding(name: string)

  const Utf8: Encoding := Encoding("utf-8")

  // ----- the parameter name -----

  predicate IsLetter(c: char) {
    'a' <= c <= 'z' || 'A' <= c <= 'Z'
  }

  /** A ClickHouse identifier: a letter or `_`, then letters, digits and
      `_`. */
  predicate IsIdentifier(s: string) {
    |s| > 0 && (IsLetter(s[0]) || s[0] == '_')
    && forall t :: 1 <= t < |s| ==> IsLetter(s[t]) || IsDigit(s[t]) || s[t] == '_'
  }

  /** `ParameterNameRegex.IsMatch`: without the multi-line option `$` matches
      at the end of the input and also just before a final line feed. */
  predicate NameRegexMatches(s: string) {
    IsIdentifier(s) || (|s| > 1 && s[|s| - 1] == '\n' && IsIdentifier(s[..|s| - 1]))
  }

  /** The name with one pair of surrounding braces removed. */
  function StripBraces(name: string): (id: string)
    ensures |name| >= 2 && name[0] == '{' && name[|name| - 1] == '}' ==> name == "{" + id + "}"
    ensures !(|name| >= 2 && name[0] == '{' && name[|name| - 1] == '}') ==> id == name
  {
    if |name| > 0 && name[0] == '{' && name[|name| - 1] == '}' then
      // a single '{' does not end with '}', so the name has two characters
      name[1..|name| - 1]
    else name
  }

  /** The constructor's check (lines 110-124): a null name is refused with
      `ArgumentNull`, surrounding braces are removed, and what remains must
      match the identifier pattern or the name is refused with `Argument`. */
  function ParameterId(parameterName: Option<string>): (r: Result<string>)
    ensures parameterName.None? ==> r == Err(ArgumentNull)
    ensures parameterName.Some? ==> (r.Ok? <==> NameRegexMatches(StripBraces(parameterName.value)))
    ensures r.Ok? ==> r.value == StripBraces(parameterName.value)
    ensures r.Err? && parameterName.Some? ==> r.error == Argument
  {
    match parameterName
    case None => Err(ArgumentNull)
    case Some(name) =>
      var id := StripBraces(name);
      if NameRegexMatches(id) then Ok(id) else Err(Argument)
  }

  /** A name and the same name in braces denote the same parameter. */
  lemma BracedNameHasSameId(name: string)
    requires IsIdentifier(name)
    ensures ParameterId(Some(name)) == Ok(name)
    ensures ParameterId(Some("{" + name + "}")) == Ok(name)
  {
    var braced := "{" + name + "}";
    assert braced[1..|braced| - 1] == name;
    assert name[0] != '{';
  }

  /** The pattern as written lets a name ending in a line feed through. */
  lemma TrailingLineFeedAccepted()
    ensures ParameterId(Some("a\n")) == Ok("a\n")
    ensures !IsIdentifier("a\n")
  {
    assert "a\n"[..1] == "a";
  }

  /** The check with the pattern anchored at the very end of the input, as
      the identifier rule means: every accepted id is an identifier. */
  function ParameterIdCorrected(parameterName: Option<string>): (r: Result<string>)
    ensures parameterName.None? ==> r == Err(ArgumentNull)
    ensures r.Ok? ==> IsIdentifier(r.value) && r.value == StripBraces(parameterName.value)
    ensures parameterName.Some? && IsIdentifier(StripBraces(parameterName.value)) ==> r.Ok?
    ensures r.Err? && parameterName.Some? ==> r.error == Argument
  {
    match parameterName
    case None => Err(ArgumentNull)
    case Some(name) =>
      var id := StripBraces(name);
      if IsIdentifier(id) then Ok(id) else Err(Argument)
  }

  lemma TrailingLineFeedRefused()
    ensures ParameterIdCorrected(Some("a\n")).Err?
  {
    assert !IsIdentifier("a\n") by {
      assert "a\n"[1] == '\n';
    }
  }

  // ----- the type tables -----

  /** `GetTypeFromValue` (lines 305-355): the member and the ClickHouse type
      name inferred from the value's run-time type. */
  function TypeFromValue(value: ParamValue): Result<(ClickHouseDbType, string)>
  {
    match value
    case StringValue(_) => Ok((String, "String"))
    case BytesValue(_) => Ok((Binary, "Array(UInt8)"))
    case ByteValue(_) => Ok((Byte, "UInt8"))
    case BoolValue(_) => Ok((Boolean, "UInt8"))
    case DecimalValue(_) => Ok((Decimal, "Decimal"))
    case DateTimeValue => Ok((DateTime, "DateTime"))
    case DateTimeOffsetValue => Ok((DateTime, "DateTime"))
    case DoubleValue => Ok((Double, "Float64"))
    case GuidValue(_) => Ok((Guid, "UUID"))
    case ShortValue(_) => Ok((Int16, "Int16"))
    case IntValue(_) => Ok((Int32, "Int32"))
    case LongValue(_) => Ok((Int64, "Int64"))
    case SByteValue(_) => Ok((SByte, "Int8"))
    case SingleValue => Ok((Single, "Float32"))
    case UShortValue(_) => Ok((UInt16, "UInt16"))
    case UIntValue(_) => Ok((UInt32, "UInt32"))
    case ULongValue(_) => Ok((UInt64, "UInt32"))
    case IpAddressValue(address) =>
      if address.family.InterNetwork? then Ok((IpV4, "IPv4"))
      else if address.family.InterNetworkV6? then Ok((IpV6, "IPv6"))
      else Err(InvalidQueryParameterConfiguration)
    case DBNull => Ok((Object, "Nothing"))
    case Null => Ok((Object, "Nothing"))
    case OtherValue(_) => Err(InvalidQueryParameterConfiguration)
  }

  /** The outcomes of the inference: only an unsupported run-time type or
      an address of another family is refused, always as a configuration
      error; both kinds of null are `Nothing`; an address is `IPv4` or
      `IPv6` after its family; and the inferred member is always a named
      one. */
  lemma InferenceOutcomes(value: ParamValue)
    ensures var r := TypeFromValue(value);
            && (r.Err? <==> value.OtherValue?
                            || (value.IpAddressValue? && value.address.family.OtherFamily?))
            && (r.Err? ==> r.error == InvalidQueryParameterConfiguration)
            && (value.IsNull() ==> r == Ok((Object, "Nothing")))
            && (value.IpAddressValue? && value.address.family.InterNetwork? ==> r == Ok((IpV4, "IPv4")))
            && (value.IpAddressValue? && value.address.family.InterNetworkV6? ==> r == Ok((IpV6, "IPv6")))
            && (r.Ok? ==> !r.value.0.Undefined? && !r.value.0.ClickHouseSpecificTypeDelimiterCode?)
  {
  }

  /** What the forced-type switch settles: the type name, the CLR type of
      the column and, for a fixed string, the encoded value. */
  datatype ForcedColumn = ForcedColumn(typeName: string, clrType: ClrType, prepared: Option<seq<Bytes.Byte>>)

  /** `Decimal(P, S)` as `string.Format` writes it in the invariant
      culture. */
  function DecimalName(precision: nat, scale: nat): string {
    "Decimal(" + NatToString(precision) + ", " + NatToString(scale) + ")"
  }

  function FixedStringName(size: nat): string {
    "FixedString(" + NatToString(size) + ")"
  }

  /** The types the binder refuses outright: ANSI strings (an encoding is
      set with a property instead), `Time` and `Xml`. */
  predicate IsUnsupportedForcedType(forced: ClickHouseDbType) {
    forced.AnsiString? || forced.AnsiStringFixedLength? || forced.Time? || forced.Xml?
  }

  /** The forced types whose column depends on nothing but the type: a
      fixed name and CLR type. The others are refused, depend on the size,
      the precision and scale or the value, or fall to the default case. */
  function FixedColumn(forced: ClickHouseDbType): Option<ForcedColumn>
  {
    match forced
    case Byte => Some(ForcedColumn("UInt8", ClrByte, None))
    case Boolean => Some(ForcedColumn("UInt8", ClrByte, None))
    case Currency => Some(ForcedColumn("Decimal(18, 4)", ClrDecimal, None))
    case Date => Some(ForcedColumn("Date", ClrDateTime, None))
    case DateTime => Some(ForcedColumn("DateTime", ClrDateTime, None))
    case Decimal =>
      Some(ForcedColumn(DecimalName(DecimalTypeInfo.DefaultPrecision, DecimalTypeInfo.DefaultScale), ClrDecimal, None))
    case Double => Some(ForcedColumn("Float64", ClrDouble, None))
    case Guid => Some(ForcedColumn("UUID", ClrGuid, None))
    case Int16 => Some(ForcedColumn("Int16", ClrShort, None))
    case Int32 => Some(ForcedColumn("Int32", ClrInt, None))
    case Int64 => Some(ForcedColumn("Int64", ClrLong, None))
    case SByte => Some(ForcedColumn("Int8", ClrSByte, None))
    case Single => Some(ForcedColumn("Float32", ClrSingle, None))
    case String => Some(ForcedColumn("String", ClrString, None))
    case UInt16 => Some(ForcedColumn("UInt16", ClrUShort, None))
    case UInt32 => Some(ForcedColumn("UInt32", ClrUInt, None))
    case UInt64 => Some(ForcedColumn("UInt32", ClrULong, None))
    case DateTime2 => Some(ForcedColumn("DateTime", ClrDateTime, None))
    case DateTimeOffset => Some(ForcedColumn("DateTime", ClrDateTime, None))
    case IpV4 => Some(ForcedColumn("IPv4", ClrIpAddress, None))
    case IpV6 => Some(ForcedColumn("IPv6", ClrIpAddress, None))
    case _ => None
  }

  /** The `_forcedType` switch of `CreateParameterColumnWriter` (lines
      141-280) for a forced type. `getBytes` is `Encoding.GetBytes`.
      `ForcedColumnErrors` and `ForcedColumnResults` state what it does. */
  function ForcedColumnType(forced: ClickHouseDbType, value: ParamValue, size: int,
                            precision: Bytes.Byte, scale: Bytes.Byte,
                            encoding: Encoding, getBytes: (Encoding, string) -> seq<Bytes.Byte>)
    : Result<ForcedColumn>
  {
    var fixed := FixedColumn(forced);
    if fixed.Some? then Ok(fixed.value)
    else if IsUnsupportedForcedType(forced) then Err(NotSupported)
    else if forced.Binary? then
      var typeName := if size <= 0 then "Array(UInt8)" else FixedStringName(size);
      Ok(ForcedColumn(typeName, ClrByteArray, None))
    else if forced.Object? then
      if !value.Null? then Err(NotSupported)
      else Ok(ForcedColumn("Nothing", ClrDBNull, None))
    else if forced.VarNumeric? then Ok(ForcedColumn(DecimalName(precision, scale), ClrDecimal, None))
    else if forced.StringFixedLength? then
      if size <= 0 then Err(InvalidQueryParameterConfiguration)
      else if value.StringValue? then
        var bytes := getBytes(encoding, value.s);
        if |bytes| > size then Err(InvalidQueryParameterConfiguration)
        else Ok(ForcedColumn(FixedStringName(size), ClrByteArray, Some(bytes)))
      else Ok(ForcedColumn(FixedStringName(size), ClrByteArray, None))
    else
      // the delimiter code and any code that names no member
      Err(ArgumentOutOfRange)
  }

  /** The errors of the forced-type switch: which types are refused and
      with which error, including the fixed-string size checks. */
  lemma ForcedColumnErrors(forced: ClickHouseDbType, value: ParamValue, size: int,
                           precision: Bytes.Byte, scale: Bytes.Byte,
                           encoding: Encoding, getBytes: (Encoding, string) -> seq<Bytes.Byte>)
    ensures var r := ForcedColumnType(forced, value, size, precision, scale, encoding, getBytes);
            && (r.Err? && r.error == NotSupported
                <==> IsUnsupportedForcedType(forced) || (forced.Object? && !value.Null?))
            && (r.Err? && r.error == ArgumentOutOfRange
                <==> forced.ClickHouseSpecificTypeDelimiterCode? || forced.Undefined?)
            && (r.Err? && r.error == InvalidQueryParameterConfiguration
                <==> forced.StringFixedLength?
                     && (size <= 0 || (value.StringValue? && |getBytes(encoding, value.s)| > size)))
            && (r.Err? ==> r.error == NotSupported || r.error == ArgumentOutOfRange
                           || r.error == InvalidQueryParameterConfiguration)
  {
  }

  /** What the forced-type switch binds: only a fixed string with a string
      value carries a prepared value, the encoded string, which fits the
      size; binary and fixed-string names depend on the size. */
  lemma ForcedColumnResults(forced: ClickHouseDbType, value: ParamValue, size: int,
                            precision: Bytes.Byte, scale: Bytes.Byte,
                            encoding: Encoding, getBytes: (Encoding, string) -> seq<Bytes.Byte>)
    ensures var r := ForcedColumnType(forced, value, size, precision, scale, encoding, getBytes);
            && (r.Ok? ==> (r.value.prepared.Some? <==> forced.StringFixedLength? && value.StringValue?))
            && (r.Ok? && r.value.prepared.Some?
                ==> r.value.prepared.value == getBytes(encoding, value.s) && |r.value.prepared.value| <= size)
            && (r.Ok? && (forced.Binary? || forced.StringFixedLength?) && size > 0
                ==> r.value.typeName == FixedStringName(size) && r.value.clrType == ClrByteArray)
            && (r.Ok? && forced.Binary? && size <= 0 ==> r.value.typeName == "Array(UInt8)")
  {
  }

  /** The three decimal names: `Decimal` is always `Decimal(38, 9)`,
      `Currency` is `Decimal(18, 4)`, and `VarNumeric` follows the
      parameter's precision and scale, which give the same name as `Decimal`
      when left at their defaults. */
  lemma ForcedDecimalNames(value: ParamValue, size: int, precision: Bytes.Byte, scale: Bytes.Byte,
                           encoding: Encoding, getBytes: (Encoding, string) -> seq<Bytes.Byte>)
    ensures ForcedColumnType(Decimal, value, size, precision, scale, encoding, getBytes)
            == Ok(ForcedColumn("Decimal(38, 9)", ClrDecimal, None))
    ensures ForcedColumnType(Currency, value, size, precision, scale, encoding, getBytes)
            == Ok(ForcedColumn("Decimal(18, 4)", ClrDecimal, None))
    ensures ForcedColumnType(VarNumeric, value, size, 38, 9, encoding, getBytes)
            == ForcedColumnType(Decimal, value, size, precision, scale, encoding, getBytes)
    ensures ForcedColumnType(VarNumeric, value, size, 3, 2, encoding, getBytes)
            == Ok(ForcedColumn("Decimal(3, 2)", ClrDecimal, None))
  {
    assert DecimalName(38, 9) == "Decimal(38, 9)" by {
      assert NatToString(38) == NatToString(3) + "8";
    }
    assert DecimalName(3, 2) == "Decimal(3, 2)";
  }

  /** The name a `VarNumeric` parameter is bound to is one the decimal type
      descriptor accepts, with the parameter's own precision and scale, as
      long as they form a valid decimal type. */
  lemma VarNumericNameIsUnderstood(value: ParamValue, size: int, precision: Bytes.Byte, scale: Bytes.Byte,
                                   encoding: Encoding, getBytes: (Encoding, string) -> seq<Bytes.Byte>)
    requires 1 <= precision <= DecimalTypeInfo.MaxPrecision && scale <= precision
    ensures ForcedColumnType(VarNumeric, value, size, precision, scale, encoding, getBytes)
            == Ok(ForcedColumn(DecimalName(precision, scale), ClrDecimal, None))
    ensures DecimalTypeInfo.GetDetailedTypeInfo(DecimalTypeInfo.NewPartial("Decimal", None),
                                                [NatToString(precision), NatToString(scale)])
            == Ok(DecimalTypeInfo.DecimalTypeInfo("Decimal", DecimalName(precision, scale), Some(precision), Some(scale)))
  {
    assert ForcedColumnType(VarNumeric, value, size, precision, scale, encoding, getBytes)
           == Ok(ForcedColumn(DecimalName(precision, scale), ClrDecimal, None));
    DecimalTypeInfo.DecimalOptionsRoundTrip(precision, scale);
  }

  // ----- corrected type tables -----

  /** The range of values a ClickHouse integer column holds, by type name. */
  function ColumnRange(typeName: string): Option<(int, int)> {
    if typeName == "UInt8" then Some((0, 0x100))
    else if typeName == "Int8" then Some((-0x80, 0x80))
    else if typeName == "UInt16" then Some((0, 0x1_0000))
    else if typeName == "Int16" then Some((-0x8000, 0x8000))
    else if typeName == "UInt32" then Some((0, 0x1_0000_0000))
    else if typeName == "Int32" then Some((-0x8000_0000, 0x8000_0000))
    else if typeName == "UInt64" then Some((0, 0x1_0000_0000_0000_0000))
    else if typeName == "Int64" then Some((-0x8000_0000_0000_0000, 0x8000_0000_0000_0000))
    else None
  }

  /** The range of a CLR integer type. */
  function ClrRange(clrType: ClrType): Option<(int, int)> {
    match clrType
    case ClrByte => Some((0, 0x100))
    case ClrSByte => Some((-0x80, 0x80))
    case ClrUShort => Some((0, 0x1_0000))
    case ClrShort => Some((-0x8000, 0x8000))
    case ClrUInt => Some((0, 0x1_0000_0000))
    case ClrInt => Some((-0x8000_0000, 0x8000_0000))
    case ClrULong => Some((0, 0x1_0000_0000_0000_0000))
    case ClrLong => Some((-0x8000_0000_0000_0000, 0x8000_0000_0000_0000))
    case _ => None
  }

  /** As written, a `ulong` is bound to a `UInt32` column, inferred or
      forced, although its values go up to 2^64 - 1: 2^32 already does not
      fit. */
  lemma ULongBoundToUInt32(precision: Bytes.Byte, scale: Bytes.Byte,
                           encoding: Encoding, getBytes: (Encoding, string) -> seq<Bytes.Byte>)
    ensures var value := ULongValue(0x1_0000_0000);
            && TypeFromValue(value) == Ok((UInt64, "UInt32"))
            && ForcedColumnType(UInt64, value, 0, precision, scale, encoding, getBytes)
               == Ok(ForcedColumn("UInt32", ClrULong, None))
            && ClrRange(ClrULong).value.0 <= value.u64 < ClrRange(ClrULong).value.1
            && !(ColumnRange("UInt32").value.0 <= value.u64 < ColumnRange("UInt32").value.1)
  {
  }

  /** As written, a parameter whose value is `DBNull` reports the type
      `Object`, yet forcing `Object` on it makes the binding fail. */
  lemma ForcedObjectRefusesDBNull(size: int, precision: Bytes.Byte, scale: Bytes.Byte,
                                  encoding: Encoding, getBytes: (Encoding, string) -> seq<Bytes.Byte>)
    ensures TypeFromValue(DBNull) == Ok((Object, "Nothing"))
    ensures ForcedColumnType(Object, DBNull, size, precision, scale, encoding, getBytes) == Err(NotSupported)
  {
  }

  /** `GetTypeFromValue` with `ulong` bound to `UInt64`. */
  function TypeFromValueCorrected(value: ParamValue): (r: Result<(ClickHouseDbType, string)>)
    ensures value.ULongValue? ==> r == Ok((UInt64, "UInt64"))
    ensures !value.ULongValue? ==> r == TypeFromValue(value)
  {
    if value.ULongValue? then Ok((UInt64, "UInt64")) else TypeFromValue(value)
  }

  /** The forced-type switch with `UInt64` bound to `UInt64` and `Object`
      accepting both kinds of null. */
  function ForcedColumnTypeCorrected(forced: ClickHouseDbType, value: ParamValue, size: int,
                                     precision: Bytes.Byte, scale: Bytes.Byte,
                                     encoding: Encoding, getBytes: (Encoding, string) -> seq<Bytes.Byte>)
    : (r: Result<ForcedColumn>)
    ensures forced.UInt64? ==> r == Ok(ForcedColumn("UInt64", ClrULong, None))
    ensures forced.Object? ==> (r.Ok? <==> value.IsNull())
    ensures !forced.UInt64? && !forced.Object?
            ==> r == ForcedColumnType(forced, value, size, precision, scale, encoding, getBytes)
  {
    if forced.UInt64? then Ok(ForcedColumn("UInt64", ClrULong, None))
    else if forced.Object? then
      if value.IsNull() then Ok(ForcedColumn("Nothing", ClrDBNull, None)) else Err(NotSupported)
    else ForcedColumnType(forced, value, size, precision, scale, encoding, getBytes)
  }

  /** The ClickHouse integer type of the same range as a CLR integer
      type. */
  function IntegerColumnName(clrType: ClrType): (name: Option<string>)
    ensures name.Some? <==> ClrRange(clrType).Some?
  {
    match clrType
    case ClrByte => Some("UInt8")
    case ClrSByte => Some("Int8")
    case ClrUShort => Some("UInt16")
    case ClrShort => Some("Int16")
    case ClrUInt => Some("UInt32")
    case ClrInt => Some("Int32")
    case ClrULong => Some("UInt64")
    case ClrLong => Some("Int64")
    case _ => None
  }

  lemma IntegerColumnNameFits(clrType: ClrType)
    requires ClrRange(clrType).Some?
    ensures ColumnRange(IntegerColumnName(clrType).value) == ClrRange(clrType)
  {
  }

  /** With the correction every integer value is inferred as the
      ClickHouse integer type of exactly its own range. */
  lemma InferredIntegerColumnsFit(value: ParamValue)
    requires ClrRange(ValueClrType(value)).Some?
    ensures TypeFromValueCorrected(value).Ok?
    ensures ColumnRange(TypeFromValueCorrected(value).value.1) == ClrRange(ValueClrType(value))
  {
    IntegerColumnNameFits(ValueClrType(value));
    assert TypeFromValueCorrected(value).value.1 == IntegerColumnName(ValueClrType(value)).value;
  }

  /** And every forced integer type binds a column of exactly the range of
      the CLR type its values are written from. */
  lemma ForcedIntegerColumnsFit(forced: ClickHouseDbType, value: ParamValue, size: int,
                                precision: Bytes.Byte, scale: Bytes.Byte,
                                encoding: Encoding, getBytes: (Encoding, string) -> seq<Bytes.Byte>)
    requires var r := ForcedColumnTypeCorrected(forced, value, size, precision, scale, encoding, getBytes);
             r.Ok? && ClrRange(r.value.clrType).Some?
    ensures var r := ForcedColumnTypeCorrected(forced, value, size, precision, scale, encoding, getBytes);
            ColumnRange(r.value.typeName) == ClrRange(r.value.clrType)
  {
    var r := ForcedColumnTypeCorrected(forced, value, size, precision, scale, encoding, getBytes);
    ForcedIntegerName(forced, value, size, precision, scale, encoding, getBytes);
    IntegerColumnNameFits(r.value.clrType);
  }

  /** A corrected forced column of an integer CLR type is named after it. */
  lemma ForcedIntegerName(forced: ClickHouseDbType, value: ParamValue, size: int,
                          precision: Bytes.Byte, scale: Bytes.Byte,
                          encoding: Encoding, getBytes: (Encoding, string) -> seq<Bytes.Byte>)
    ensures var r := ForcedColumnTypeCorrected(forced, value, size, precision, scale, encoding, getBytes);
            r.Ok? && ClrRange(r.value.clrType).Some? ==> r.value.typeName == IntegerColumnName(r.value.clrType).value
  {
    if !forced.UInt64? && !forced.Object? {
      var r := ForcedColumnType(forced, value, size, precision, scale, encoding, getBytes);
      if FixedColumn(forced).Some? {
        assert r == Ok(FixedColumn(forced).value);
        FixedIntegerName(forced);
      } else {
        assert r.Ok? ==> r.value.clrType.ClrByteArray? || r.value.clrType.ClrDBNull? || r.value.clrType.ClrDecimal?;
      }
    }
  }

  /** The fixed table names each integer CLR type after it, `UInt64` aside. */
  lemma FixedIntegerName(forced: ClickHouseDbType)
    requires FixedColumn(forced).Some? && !forced.UInt64?
    ensures var c := FixedColumn(forced).value;
            ClrRange(c.clrType).Some? ==> c.typeName == IntegerColumnName(c.clrType).value
  {
  }

  /** Forcing the type inferred from `value` binds it to the name inferred
      for it. */
  ghost predicate RebindsToInferredName(value: ParamValue, size: int, encoding: Encoding,
                                        getBytes: (Encoding, string) -> seq<Bytes.Byte>)
    requires TypeFromValueCorrected(value).Ok?
  {
    var inferred := TypeFromValueCorrected(value).value;
    var forced := ForcedColumnTypeCorrected(inferred.0, value, size, 38, 9, encoding, getBytes);
    forced.Ok? && forced.value.typeName == inferred.1
  }

  /** With the corrections, the two tables agree: forcing the type inferred
      from a value binds the value to the very name inferred for it (a
      decimal aside, which is inferred as the bare `Decimal`, and a binary
      value forced with a positive size, which becomes a fixed string). */
  lemma InferredTypeRebinds(value: ParamValue, size: int, encoding: Encoding,
                            getBytes: (Encoding, string) -> seq<Bytes.Byte>)
    requires TypeFromValueCorrected(value).Ok?
    requires TypeFromValueCorrected(value).value.0 != Decimal
    requires TypeFromValueCorrected(value).value.0 == Binary ==> size <= 0
    ensures RebindsToInferredName(value, size, encoding, getBytes)
  {
    match value
    case SByteValue(_) => SignedRebinds(value, size, encoding, getBytes);
    case ShortValue(_) => SignedRebinds(value, size, encoding, getBytes);
    case IntValue(_) => SignedRebinds(value, size, encoding, getBytes);
    case LongValue(_) => SignedRebinds(value, size, encoding, getBytes);
    case ByteValue(_) => UnsignedRebinds(value, size, encoding, getBytes);
    case UShortValue(_) => UnsignedRebinds(value, size, encoding, getBytes);
    case UIntValue(_) => UnsignedRebinds(value, size, encoding, getBytes);
    case ULongValue(_) => UnsignedRebinds(value, size, encoding, getBytes);
    case StringValue(_) => TextRebinds(value, size, encoding, getBytes);
    case BytesValue(_) => TextRebinds(value, size, encoding, getBytes);
    case BoolValue(_) => TextRebinds(value, size, encoding, getBytes);
    case GuidValue(_) => TextRebinds(value, size, encoding, getBytes);
    case DateTimeValue => TimeRebinds(value, size, encoding, getBytes);
    case DateTimeOffsetValue => TimeRebinds(value, size, encoding, getBytes);
    case DoubleValue => TimeRebinds(value, size, encoding, getBytes);
    case SingleValue => TimeRebinds(value, size, encoding, getBytes);
    case IpAddressValue(_) => NullOrAddressRebinds(value, size, encoding, getBytes);
    case Null => NullOrAddressRebinds(value, size, encoding, getBytes);
    case DBNull => NullOrAddressRebinds(value, size, encoding, getBytes);
  }

  lemma SignedRebinds(value: ParamValue, size: int, encoding: Encoding,
                      getBytes: (Encoding, string) -> seq<Bytes.Byte>)
    requires value.SByteValue? || value.ShortValue? || value.IntValue? || value.LongValue?
    ensures TypeFromValueCorrected(value).Ok? && RebindsToInferredName(value, size, encoding, getBytes)
  {
  }

  lemma UnsignedRebinds(value: ParamValue, size: int, encoding: Encoding,
                        getBytes: (Encoding, string) -> seq<Bytes.Byte>)
    requires value.ByteValue? || value.UShortValue? || value.UIntValue? || value.ULongValue?
    ensures TypeFromValueCorrected(value).Ok? && RebindsToInferredName(value, size, encoding, getBytes)
  {
  }

  lemma TextRebinds(value: ParamValue, size: int, encoding: Encoding,
                    getBytes: (Encoding, string) -> seq<Bytes.Byte>)
    requires value.StringValue? || value.BytesValue? || value.BoolValue? || value.GuidValue?
    requires value.BytesValue? ==> size <= 0
    ensures TypeFromValueCorrected(value).Ok? && RebindsToInferredName(value, size, encoding, getBytes)
  {
  }

  lemma TimeRebinds(value: ParamValue, size: int, encoding: Encoding,
                    getBytes: (Encoding, string) -> seq<Bytes.Byte>)
    requires value.DateTimeValue? || value.DateTimeOffsetValue? || value.DoubleValue? || value.SingleValue?
    ensures TypeFromValueCorrected(value).Ok? && RebindsToInferredName(value, size, encoding, getBytes)
  {
  }

  lemma NullOrAddressRebinds(value: ParamValue, size: int, encoding: Encoding,
                             getBytes: (Encoding, string) -> seq<Bytes.Byte>)
    requires value.IpAddressValue? || value.IsNull()
    requires TypeFromValueCorrected(value).Ok?
    ensures RebindsToInferredName(value, size, encoding, getBytes)
  {
  }

  // ----- the parameter -----

  /** The settings a parameter's setters change, taken together. */
  datatype Settings = Settings(forcedNullable: Option<bool>, forcedType: Option<ClickHouseDbType>,
                               forcedScale: Option<Bytes.Byte>, forcedPrecision: Option<Bytes.Byte>,
                               size: int, value: ParamValue, stringEncoding: Option<Encoding>)

  /** What the column writer for a parameter is built from: the parameter's
      id, the type name looked up in the type provider, the CLR type the
      writer is dispatched on, the value (`Null` for a null value) and the
      column's string encoding. */
  datatype ParameterColumn = ParameterColumn(id: string, typeName: string, clrType: ClrType,
                                             value: ParamValue, encoding: Option<Encoding>)

  class ClickHouseParameter {
    const parameterName: string
    const id: string
    var forcedNullable: Option<bool>
    var forcedType: Option<ClickHouseDbType>
    var forcedScale: Option<Bytes.Byte>
    var forcedPrecision: Option<Bytes.Byte>
    /** `Size`, a 32-bit signed integer. */
    var size: int
    var value: ParamValue
    var stringEncoding: Option<Encoding>

    ghost predicate Valid()
      reads this
    {
      ParameterId(Some(parameterName)) == Ok(id) && Int32Min <= size <= Int32Max
    }

    ghost function CurrentSettings(): Settings
      reads this
    {
      Settings(forcedNullable, forcedType, forcedScale, forcedPrecision, size, value, stringEncoding)
    }

    /** Lines 110-124, for a name the check accepts; `NewParameter` covers
        the names it refuses. */
    constructor(parameterName: string)
      requires ParameterId(Some(parameterName)).Ok?
      ensures Valid() && this.parameterName == parameterName
      ensures CurrentSettings() == Settings(None, None, None, None, 0, Null, None)
    {
      this.parameterName := parameterName;
      this.id := StripBraces(parameterName);
      forcedNullable, forcedType, forcedScale, forcedPrecision := None, None, None, None;
      size, value, stringEncoding := 0, Null, None;
    }

    /** The `ClickHouseDbType` getter (lines 47-51): the forced type, or the
        type inferred from the value, which may fail. */
    function ClickHouseType(): (r: Result<ClickHouseDbType>)
      reads this
      ensures forcedType.Some? ==> r == Ok(forcedType.value)
      ensures forcedType.None? ==> (r.Ok? <==> TypeFromValue(value).Ok?)
      ensures forcedType.None? && r.Ok? ==> r.value == TypeFromValue(value).value.0
      ensures forcedType.None? && value.IsNull() ==> r == Ok(Object)
    {
      if forcedType.Some? then Ok(forcedType.value)
      else
        var inferred := TypeFromValue(value);
        if inferred.Err? then Err(inferred.error) else Ok(inferred.value.0)
    }

    /** The `DbType` getter (lines 53-64): a ClickHouse-specific type is
        reported as `Object`; every other member keeps its code. */
    function DbType(): (r: Result<ClickHouseDbType>)
      reads this
      ensures r.Ok? <==> ClickHouseType().Ok?
      ensures r.Ok? ==> !r.value.AboveDelimiter()
      ensures r.Ok? && !ClickHouseType().value.AboveDelimiter() ==> r.value == ClickHouseType().value
      ensures r.Ok? && ClickHouseType().value.AboveDelimiter() ==> r.value == Object
    {
      var chType := ClickHouseType();
      if chType.Err? then chType
      else if chType.value.AboveDelimiter() then Ok(Object)
      else chType
    }

    /** The `IsNullable` getter (lines 76-80): the forced flag, or else
        whether the value is null. */
    function IsNullable(): (b: bool)
      reads this
      ensures forcedNullable.Some? ==> b == forcedNullable.value
      ensures forcedNullable.None? ==> (b <==> value.IsNull())
    {
      if forcedNullable.Some? then forcedNullable.value else value.IsNull()
    }

    /** The `Precision` getter (lines 96-100): 38 unless one was set. */
    function Precision(): (p: Bytes.Byte)
      reads this
      ensures forcedPrecision.Some? ==> p == forcedPrecision.value
      ensures forcedPrecision.None? ==> p == DecimalTypeInfo.DefaultPrecision
    {
      if forcedPrecision.Some? then forcedPrecision.value else DecimalTypeInfo.DefaultPrecision
    }

    /** The `Scale` getter (lines 102-106): 9 unless one was set. */
    function Scale(): (s: Bytes.Byte)
      reads this
      ensures forcedScale.Some? ==> s == forcedScale.value
      ensures forcedScale.None? ==> s == DecimalTypeInfo.DefaultScale
    {
      if forcedScale.Some? then forcedScale.value else DecimalTypeInfo.DefaultScale
    }

    /** The `ClickHouseDbType` setter; the `DbType` setter stores a `DbType`
        through it, the codes being shared. */
    method SetClickHouseType(t: ClickHouseDbType)
      requires Valid()
      modifies this
      ensures Valid()
      ensures CurrentSettings() == old(CurrentSettings()).(forcedType := Some(t))
    {
      forcedType := Some(t);
    }

    /** The `IsNullable` setter. */
    method SetIsNullable(b: bool)
      requires Valid()
      modifies this
      ensures Valid()
      ensures CurrentSettings() == old(CurrentSettings()).(forcedNullable := Some(b))
    {
      forcedNullable := Some(b);
    }

    /** The `Precision` setter. */
    method SetPrecision(p: Bytes.Byte)
      requires Valid()
      modifies this
      ensures Valid()
      ensures CurrentSettings() == old(CurrentSettings()).(forcedPrecision := Some(p))
    {
      forcedPrecision := Some(p);
    }

    /** The `Scale` setter. */
    method SetScale(s: Bytes.Byte)
      requires Valid()
      modifies this
      ensures Valid()
      ensures CurrentSettings() == old(CurrentSettings()).(forcedScale := Some(s))
    {
      forcedScale := Some(s);
    }

    /** The `Size` setter. */
    method SetSize(n: int)
      requires Valid() && Int32Min <= n <= Int32Max
      modifies this
      ensures Valid()
      ensures CurrentSettings() == old(CurrentSettings()).(size := n)
    {
      size := n;
    }

    /** The `Value` setter. */
    method SetValue(v: ParamValue)
      requires Valid()
      modifies this
      ensures Valid()
      ensures CurrentSettings() == old(CurrentSettings()).(value := v)
    {
      value := v;
    }

    /** The `StringEncoding` setter. */
    method SetStringEncoding(e: Option<Encoding>)
      requires Valid()
      modifies this
      ensures Valid()
      ensures CurrentSettings() == old(CurrentSettings()).(stringEncoding := e)
    {
      stringEncoding := e;
    }

    /** `ResetDbType` (lines 126-134): every forced setting is cleared, the
        size is zero and the encoding unset; only the value stays. Afterwards
        precision and scale read their defaults, nullability follows the
        value, and the type is inferred from the value again. */
    method ResetDbType()
      requires Valid()
      modifies this
      ensures Valid()
      ensures CurrentSettings() == Settings(None, None, None, None, 0, old(value), None)
      ensures Precision() == 38 && Scale() == 9
      ensures IsNullable() <==> value.IsNull()
      ensures ClickHouseType().Ok? <==> TypeFromValue(value).Ok?
      ensures ClickHouseType().Ok? ==> ClickHouseType().value == TypeFromValue(value).value.0
    {
      forcedType := None;
      forcedNullable := None;
      forcedPrecision := None;
      forcedScale := None;
      size := 0;
      stringEncoding := None;
    }

    /** The type switch of `CreateParameterColumnWriter` (lines 141-280):
        the forced type's column, or with no forced type the inferred name
        and the value's own CLR type. */
    function BaseColumn(getBytes: (Encoding, string) -> seq<Bytes.Byte>): (r: Result<ForcedColumn>)
      reads this
      ensures forcedType.None? ==> (r.Ok? <==> TypeFromValue(value).Ok?)
      ensures forcedType.None? && r.Ok?
              ==> r.value == ForcedColumn(TypeFromValue(value).value.1, ValueClrType(value), None)
      ensures forcedType.Some? ==> r == ForcedColumnType(forcedType.value, value, size, Precision(), Scale(),
                                                         stringEncoding.GetOr(Utf8), getBytes)
    {
      if forcedType.None? then
        var inferred := TypeFromValue(value);
        if inferred.Err? then Err(inferred.error)
        else Ok(ForcedColumn(inferred.value.1, ValueClrType(value), None))
      else
        ForcedColumnType(forcedType.value, value, size, Precision(), Scale(),
                         stringEncoding.GetOr(Utf8), getBytes)
    }

    /** `CreateParameterColumnWriter` (lines 136-303) up to the type lookup
        and the dispatch: a null value is refused when the parameter is
        declared non-nullable; the name is wrapped in `Nullable(...)` exactly
        when the parameter is nullable; a non-null value is handed over
        (as its encoded bytes for a fixed string) with its own CLR type, and
        a null one as `Null` with the column's type made nullable. */
    function CreateParameterColumnWriter(getBytes: (Encoding, string) -> seq<Bytes.Byte>): (r: Result<ParameterColumn>)
      reads this
      ensures r.Ok? <==> BaseColumn(getBytes).Ok? && !(value.IsNull() && forcedNullable == Some(false))
      ensures r.Err? && BaseColumn(getBytes).Ok? ==> r.error == InvalidQueryParameterConfiguration
      ensures r.Ok? ==> r.value.id == id && r.value.encoding == stringEncoding
      ensures r.Ok? ==> var baseName := BaseColumn(getBytes).value.typeName;
                        r.value.typeName == if IsNullable() then "Nullable(" + baseName + ")" else baseName
      ensures r.Ok? ==> (r.value.value.IsNull() <==> value.IsNull())
      ensures r.Ok? && !value.IsNull() ==> r.value.clrType == ValueClrType(r.value.value)
      ensures r.Ok? && value.IsNull() ==> r.value.value == Null
      ensures r.Ok? && BaseColumn(getBytes).value.prepared.None? && !value.IsNull() ==> r.value.value == value
      ensures r.Ok? && BaseColumn(getBytes).value.prepared.Some?
              ==> r.value.value == BytesValue(BaseColumn(getBytes).value.prepared.value)
      ensures r.Ok? && forcedType == Some(StringFixedLength) && value.StringValue?
              ==> r.value.value == BytesValue(getBytes(stringEncoding.GetOr(Utf8), value.s))
      ensures r.Ok? && value.IsNull()
              ==> var baseType := BaseColumn(getBytes).value.clrType;
                  r.value.clrType == if baseType.IsValueType() then ClrNullable(baseType) else baseType
    {
      var column :- BaseColumn(getBytes);
      var isNull := value.IsNull();
      if isNull && forcedNullable == Some(false) then Err(InvalidQueryParameterConfiguration)
      else
        var typeName := if forcedNullable == Some(true) || isNull then "Nullable(" + column.typeName + ")"
                        else column.typeName;
        var passed := if isNull then Null
                      else if column.prepared.Some? then BytesValue(column.prepared.value)
                      else value;
        var clrType := if !isNull then ValueClrType(passed)
                       else if column.clrType.IsValueType() then ClrNullable(column.clrType)
                       else column.clrType;
        Ok(ParameterColumn(id, typeName, clrType, passed, stringEncoding))
    }
  }

  /** `new ClickHouseParameter(parameterName)`: a parameter with nothing
      forced, or the constructor's error. */
  method NewParameter(parameterName: Option<string>) returns (r: Result<ClickHouseParameter>)
    ensures r.Err? <==> ParameterId(parameterName).Err?
    ensures r.Err? ==> r.error == ParameterId(parameterName).error
    ensures r.Ok? ==> fresh(r.value) && r.value.Valid() && r.value.id == ParameterId(parameterName).value
    ensures r.Ok? ==> r.value.CurrentSettings() == Settings(None, None, None, None, 0, Null, None)
  {
    var checked := ParameterId(parameterName);
    if checked.Err? {
      return Err(checked.error);
    }
    var parameter := new ClickHouseParameter(parameterName.value);
    r := Ok(parameter);
  }
}
