/** The .NET values the codecs accept from callers: `decimal`, `Guid`,
    `IPAddress`, and the run-time element type of the row list a column
    writer is created for. */
module HostTypes {
  import opened Wrappers
  import opened Bytes

  const DecimalMagnitudeBound: nat := 0x1_0000_0000_0000_0000_0000_0000
  const MaxDecimalScale: nat := 28

  /** A .NET `decimal` as `decimal.GetBits` exposes it: a sign bit, a 96-bit
      magnitude and a power-of-ten scale of at most 28. Its value is
      `(negative ? -1 : 1) * magnitude / 10^scale`. */
  datatype DecimalBits = DecimalBits(negative: bool, magnitude: nat, scale: nat) {
    predicate Valid() {
      magnitude < DecimalMagnitudeBound && scale <= MaxDecimalScale
    }
  }

  type NetDecimal = d: DecimalBits | d.Valid() witness DecimalBits(false, 0, 0)

  /** A `System.Guid` by its constructor arguments `(a, b, c, d, ..., k)`. */
  datatype Guid = Guid(a: Word, b: UInt16, c: UInt16,
                       d: Byte, e: Byte, f: Byte, g: Byte, h: Byte, i: Byte, j: Byte, k: Byte)

  datatype AddressFamily = InterNetwork | InterNetworkV6 | OtherFamily(code: int)

  /** An `IPAddress`: its family and its address bytes in network order
      (4 for IPv4, 16 for IPv6). */
  datatype IpAddress = IpAddress(family: AddressFamily, bytes: seq<Byte>) {
    predicate Valid() {
      (family == InterNetwork ==> |bytes| == 4) && (family == InterNetworkV6 ==> |bytes| == 16)
    }
  }

  /** The `IReadOnlyList<T>` handed to `CreateColumnWriter<T>`, tagged by the
      run-time type the writer tests it against. */
  datatype HostRows =
    | ByteRows(bytes: seq<Byte>)
    | Int16Rows(shorts: seq<Int16>)
    | GuidRows(guids: seq<Guid>)
    | DecimalRows(decimals: seq<NetDecimal>)
    | IpAddressRows(addresses: seq<Option<IpAddress>>)
    | StringRows(strings: seq<Option<string>>)
    | OtherRows(elementType: string)
}
