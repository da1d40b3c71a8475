/** `DecimalTypeInfoBase`: the descriptor of the ClickHouse types `Decimal(P, S)`,
    `Decimal32(S)`, `Decimal64(S)` and `Decimal128(S)`. It validates precision and
    scale, completes a partial type from its option list, picks the wire width
    of one element and checks what readers and writers can be created. */
module DecimalTypeInfo {
  import opened Wrappers
  import opened Bytes
  import opened HostTypes
  import opened Numbers
  import DecimalWriter

  const DefaultPrecision: int := 38
  const DefaultScale: int := 9
  const MaxPrecision: int := 38

  /** A descriptor: the bare type name (`Decimal`, `Decimal32`, ...), the full
      name with its options, and the precision and scale when known. */
  datatype DecimalTypeInfo = DecimalTypeInfo(typeName: string, complexTypeName: string,
                                             precision: Option<int>, scale: Option<int>)
  {
    /** Every descriptor the constructors build: a scale is only ever set
        together with a precision in `[1, 38]` that it does not exceed. */
    predicate Valid() {
      scale.Some? ==> precision.Some? && 1 <= precision.value <= MaxPrecision && 0 <= scale.value <= precision.value
    }
  }

  /** The partial constructor (lines 41-46): a type such as `Decimal64`
      whose scale is still to come. */
  function NewPartial(typeName: string, precision: Option<int>): (info: DecimalTypeInfo)
    ensures info.Valid() && info.scale.None?
    ensures info.typeName == typeName && info.complexTypeName == typeName && info.precision == precision
  {
    DecimalTypeInfo(typeName, typeName, precision, None)
  }

  /** The full constructor (lines 48-61): precision in `[1, 38]`, scale
      non-negative and not above the precision, otherwise
      `ArgumentOutOfRangeException`. */
  function New(typeName: string, complexTypeName: string, precision: int, scale: int): (r: Result<DecimalTypeInfo>)
    ensures r.Ok? <==> 1 <= precision <= MaxPrecision && 0 <= scale <= precision
    ensures r.Err? ==> r.error == ArgumentOutOfRange
    ensures r.Ok? ==> r.value.Valid() && r.value.precision == Some(precision) && r.value.scale == Some(scale)
    ensures r.Ok? ==> r.value.typeName == typeName && r.value.complexTypeName == complexTypeName
  {
    if precision < 1 || precision > MaxPrecision then Err(ArgumentOutOfRange)
    else if scale < 0 then Err(ArgumentOutOfRange)
    else if scale > precision then Err(ArgumentOutOfRange)
    else Ok(DecimalTypeInfo(typeName, complexTypeName, Some(precision), Some(scale)))
  }

  /** `CloneWithOptions`, which every concrete decimal type implements by
      calling the full constructor; a missing precision is the type's own
      (38 for a type that has none). */
  function CloneWithOptions(info: DecimalTypeInfo, complexTypeName: string, precision: Option<int>, scale: int)
    : Result<DecimalTypeInfo>
  {
    New(info.typeName, complexTypeName, precision.GetOr(info.precision.GetOr(DefaultPrecision)), scale)
  }

  /** `GetElementSize` (lines 148-157): 4 bytes up to precision 9, 8 bytes up
      to 18, 16 bytes beyond. */
  function GetElementSize(precision: int): (size: nat)
    ensures size == 4 <==> precision <= 9
    ensures size == 8 <==> 9 < precision <= 18
    ensures size == 16 <==> 18 < precision
  {
    if precision <= 9 then 4
    else if precision <= 18 then 8
    else 16
  }

  /** Every value with at most `precision` digits fits the chosen width, and
      the next smaller width would not hold all of them. */
  lemma ElementSizeFitsPrecision(precision: int)
    requires 1 <= precision <= MaxPrecision
    ensures Pow(10, precision) <= DecimalWriter.HalfRange(GetElementSize(precision))
    ensures GetElementSize(precision) > 4 ==> Pow(10, precision) > DecimalWriter.HalfRange(GetElementSize(precision) / 2)
  {
    PowersOfTen();
    var size := GetElementSize(precision);
    if size == 4 {
      DecimalWriter.PowMonotone(10, precision, 9);
    } else if size == 8 {
      DecimalWriter.PowMonotone(10, precision, 18);
      DecimalWriter.PowMonotone(10, 10, precision);
    } else {
      DecimalWriter.PowMonotone(10, precision, 38);
      DecimalWriter.PowMonotone(10, 19, precision);
    }
  }

  lemma PowersOfTen()
    ensures Pow(10, 9) == 1_000_000_000 && Pow(10, 10) == 10_000_000_000
    ensures Pow(10, 18) == 1_000_000_000_000_000_000 && Pow(10, 19) == 10_000_000_000_000_000_000
    ensures Pow(10, 38) == 100_000_000_000_000_000_000_000_000_000_000_000_000
  {
    assert Pow(10, 9) == 1_000_000_000;
    assert Pow(10, 10) == 10 * Pow(10, 9);
    PowAdd(10, 9, 9);
    PowAdd(10, 9, 10);
    PowAdd(10, 19, 19);
  }

  /** Hence a decimal whose stored magnitude has at most `precision` digits
      never overflows the column. */
  lemma PrecisionValuesFit(value: NetDecimal, scale: nat, precision: int)
    requires 1 <= precision <= MaxPrecision
    requires DecimalWriter.WireMagnitude(value, scale) < Pow(10, precision)
    ensures DecimalWriter.Fits(value, scale, GetElementSize(precision))
  {
    ElementSizeFitsPrecision(precision);
  }

  /** The converse does not hold: the writer checks the element's binary
      width, not the declared precision. `10.00` has four digits, one more
      than `Decimal(3, 2)` allows, and is still written, as 1000. */
  lemma PrecisionIsNotEnforced()
    ensures GetElementSize(3) == 4
    ensures DecimalWriter.WireValue(DecimalBits(false, 1000, 2), 2) == 1000 >= Pow(10, 3)
    ensures DecimalWriter.Fits(DecimalBits(false, 1000, 2), 2, GetElementSize(3))
  {
    DecimalWriter.ExactWhenScaleFits(DecimalBits(false, 1000, 2), 2);
    assert Pow(10, 3) == 1000;
    assert Pow(10, 0) == 1;
  }

  /** `string.Join(", ", options)`. */
  function Join(separator: string, parts: seq<string>): (s: string)
    ensures |parts| == 1 ==> s == parts[0]
  {
    if parts == [] then ""
    else if |parts| == 1 then parts[0]
    else parts[0] + separator + Join(separator, parts[1..])
  }

  /** A non-negative 32-bit integer in the invariant culture, or `None`. */
  function ParseNonNegative(text: string): (r: Option<int>)
    ensures r.Some? ==> 0 <= r.value <= Int32Max && ParseInt32(text) == r
  {
    var v := ParseInt32(text);
    if v.None? || v.value < 0 then None else v
  }

  /** `GetDetailedTypeInfo` (lines 100-129): one option is the scale, two are
      the precision and the scale; anything else, an unparsable or negative
      number, a non-positive precision, or a precision given to a type that
      already has one, is `InvalidTypeName`. The clone is named after the
      options as they were written. */
  function GetDetailedTypeInfo(info: DecimalTypeInfo, options: seq<string>): (r: Result<DecimalTypeInfo>)
    ensures |options| != 1 && |options| != 2 ==> r == Err(InvalidTypeName)
    ensures |options| == 1 && ParseNonNegative(options[0]).None? ==> r == Err(InvalidTypeName)
    ensures |options| == 2 && (ParseInt32(options[0]).None? || ParseInt32(options[0]).value <= 0) ==> r == Err(InvalidTypeName)
    ensures |options| == 2 && ParseNonNegative(options[1]).None? ==> r == Err(InvalidTypeName)
    ensures |options| == 2 && info.precision.Some? ==> r == Err(InvalidTypeName)
    ensures r == Err(ArgumentOutOfRange) <==>
              || (&& |options| == 1 && ParseNonNegative(options[0]).Some?
                  && !(1 <= info.precision.GetOr(DefaultPrecision) <= MaxPrecision
                       && ParseNonNegative(options[0]).value <= info.precision.GetOr(DefaultPrecision)))
              || (&& |options| == 2 && info.precision.None?
                  && ParseInt32(options[0]).Some? && ParseInt32(options[0]).value > 0
                  && ParseNonNegative(options[1]).Some?
                  && !(ParseInt32(options[0]).value <= MaxPrecision
                       && ParseNonNegative(options[1]).value <= ParseInt32(options[0]).value))
    ensures r.Err? ==> r.error == InvalidTypeName || r.error == ArgumentOutOfRange
    ensures r.Ok? ==> r.value.Valid() && r.value.typeName == info.typeName
    ensures r.Ok? ==> r.value.complexTypeName == info.typeName + "(" + Join(", ", options) + ")"
    ensures r.Ok? ==> ParseInt32(options[|options| - 1]) == r.value.scale
    ensures r.Ok? && |options| == 2 ==> ParseInt32(options[0]) == r.value.precision
    ensures r.Ok? && |options| == 1 && info.precision.Some? ==> r.value.precision == info.precision
  {
    var complexTypeName := info.typeName + "(" + Join(", ", options) + ")";
    if |options| == 1 then
      var scale := ParseNonNegative(options[0]);
      if scale.None? then Err(InvalidTypeName)
      else CloneWithOptions(info, complexTypeName, None, scale.value)
    else if |options| == 2 then
      var first := ParseInt32(options[0]);
      if first.None? || first.value <= 0 then Err(InvalidTypeName)
      else
        var scale := ParseNonNegative(options[1]);
        if scale.None? then Err(InvalidTypeName)
        else if info.precision.Some? then Err(InvalidTypeName)
        else CloneWithOptions(info, complexTypeName, first, scale.value)
    else Err(InvalidTypeName)
  }

  /** The options `Decimal(P, S)` is written with: `P` and `S` formatted in the
      invariant culture. */
  lemma DecimalOptionsRoundTrip(precision: nat, scale: nat)
    requires 1 <= precision <= MaxPrecision && scale <= precision
    ensures GetDetailedTypeInfo(NewPartial("Decimal", None), [NatToString(precision), NatToString(scale)])
            == Ok(DecimalTypeInfo("Decimal", "Decimal(" + NatToString(precision) + ", " + NatToString(scale) + ")",
                                  Some(precision), Some(scale)))
  {
    var p, q := NatToString(precision), NatToString(scale);
    var info := NewPartial("Decimal", None);
    ParseFormattedNat(precision);
    ParseFormattedNat(scale);
    TwoOptions(info, p, q, precision, scale);
    DecimalNameOfOptions(p, q);
  }

  /** With two options that parse, the descriptor is the clone named after
      them. */
  lemma TwoOptions(info: DecimalTypeInfo, first: string, second: string, precision: int, scale: int)
    requires info.precision.None? && precision > 0 && scale >= 0
    requires ParseInt32(first) == Some(precision) && ParseInt32(second) == Some(scale)
    ensures GetDetailedTypeInfo(info, [first, second])
            == CloneWithOptions(info, info.typeName + "(" + Join(", ", [first, second]) + ")", Some(precision), scale)
  {
    assert ParseNonNegative(second) == Some(scale);
  }

  lemma DecimalNameOfOptions(p: string, q: string)
    ensures "Decimal" + "(" + Join(", ", [p, q]) + ")" == "Decimal(" + p + ", " + q + ")"
  {
    assert [p, q][1..] == [q];
    assert Join(", ", [p, q]) == p + ", " + q;
    assert "Decimal" + "(" == "Decimal(";
    assert "Decimal(" + (p + ", " + q) == "Decimal(" + p + ", " + q;
  }

  /** A `DecimalN(S)` type completed by its single option keeps its precision. */
  lemma ScaleOptionRoundTrip(typeName: string, precision: int, scale: nat)
    requires 1 <= precision <= MaxPrecision && scale <= precision
    ensures GetDetailedTypeInfo(NewPartial(typeName, Some(precision)), [NatToString(scale)])
            == Ok(DecimalTypeInfo(typeName, typeName + "(" + NatToString(scale) + ")", Some(precision), Some(scale)))
  {
    ParseFormattedNat(scale);
  }

  /** What `CreateColumnReader` builds: the element width and scale of a fully
      specified type. */
  datatype ReaderSpec = ReaderSpec(elementSize: nat, scale: nat, rowCount: nat)

  /** `CreateColumnReader` (lines 63-78): `TypeNotFullySpecified` unless both
      precision and scale are known. */
  function CreateColumnReader(info: DecimalTypeInfo, rowCount: nat): (r: Result<ReaderSpec>)
    requires info.Valid()
    ensures r.Ok? <==> info.precision.Some? && info.scale.Some?
    ensures r.Err? ==> r.error == TypeNotFullySpecified
    ensures r.Ok? ==> r.value.elementSize == GetElementSize(info.precision.value) && r.value.scale == info.scale.value
    ensures r.Ok? ==> r.value.scale <= MaxPrecision && r.value.rowCount == rowCount
  {
    if info.precision.None? || info.scale.None? then Err(TypeNotFullySpecified)
    else Ok(ReaderSpec(GetElementSize(info.precision.value), info.scale.value, rowCount))
  }

  /** A `DecimalWriter` over the rows, with the column's element width and
      scale. */
  datatype DecimalColumnWriter = DecimalColumnWriter(columnName: string, columnType: string, elementSize: nat,
                                                     scale: nat, rows: seq<NetDecimal>)

  /** `CreateColumnWriter` once precision and scale are both known. */
  function CreateSpecifiedWriter(info: DecimalTypeInfo, columnName: string, rows: HostRows): (r: Result<DecimalColumnWriter>)
    requires info.Valid() && info.precision.Some? && info.scale.Some?
    ensures r.Ok? <==> rows.DecimalRows?
    ensures r.Err? ==> r.error == TypeNotSupported
    ensures r.Ok? ==> r.value.rows == rows.decimals && r.value.columnType == info.complexTypeName
    ensures r.Ok? ==> r.value.elementSize == GetElementSize(info.precision.value) && r.value.scale == info.scale.value
  {
    if !rows.DecimalRows? then Err(TypeNotSupported)
    else Ok(DecimalColumnWriter(columnName, info.complexTypeName, GetElementSize(info.precision.value),
                                info.scale.value, rows.decimals))
  }

  /** `CreateColumnWriter` (lines 80-98): a type with neither precision nor
      scale writes as `Decimal128(9)` with precision 38; a type with only one
      of them is `TypeNotFullySpecified`; rows that are not decimals are
      `TypeNotSupported`. */
  function CreateColumnWriter(info: DecimalTypeInfo, columnName: string, rows: HostRows): (r: Result<DecimalColumnWriter>)
    requires info.Valid()
    ensures info.precision.Some? != info.scale.Some? ==> r == Err(TypeNotFullySpecified)
    ensures info.precision.Some? == info.scale.Some? ==> (r.Ok? <==> rows.DecimalRows?)
    ensures r.Err? ==> r.error == TypeNotFullySpecified || r.error == TypeNotSupported
    ensures r.Ok? && info.precision.None? ==>
              r.value.columnType == "Decimal128(9)" && r.value.elementSize == 16 && r.value.scale == 9
    ensures r.Ok? ==> r.value.rows == rows.decimals
  {
    if info.precision.None? && info.scale.None? then
      var specified := CloneWithOptions(info, "Decimal128(" + NatToString(DefaultScale) + ")",
                                        Some(DefaultPrecision), DefaultScale);
      assert NatToString(DefaultScale) == "9";
      CreateSpecifiedWriter(specified.value, columnName, rows)
    else if info.scale.None? then Err(TypeNotFullySpecified)
    else if info.precision.None? then Err(TypeNotFullySpecified)
    else CreateSpecifiedWriter(info, columnName, rows)
  }
}
