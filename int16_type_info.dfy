/** `Int16TypeInfo`: the two-byte signed column, stored as a little-endian
    two's-complement integer. */
module Int16TypeInfo {
  import opened Wrappers
  import opened Bytes
  import opened HostTypes

  const TypeName: string := "Int16"
  /** `sizeof(short)`, the element size of the reader and of the writer. */
  const ElementSize: nat := 2

  /** The row check of `CreateColumnWriter` (lines 38-44): only a list of
      `short`. */
  function WriterRows(rows: HostRows): (r: Result<seq<Int16>>)
    ensures r.Ok? <==> rows.Int16Rows?
    ensures r.Ok? ==> r.value == rows.shorts
    ensures r.Err? ==> r.error == TypeNotSupported
  {
    if rows.Int16Rows? then Ok(rows.shorts) else Err(TypeNotSupported)
  }

  /** `Int16Reader.ReadElement`: the first two bytes as a signed
      little-endian integer. */
  function ReadElement(source: seq<Byte>): (v: Int16)
    requires |source| >= ElementSize
    ensures v == LeSigned(source[..ElementSize])
  {
    ToInt16(source)
  }

  /** `Int16Writer.WriteElement`: `BitConverter.TryWriteBytes` puts the low
      byte of the two's-complement form first and the high byte second; the
      caller always passes a slot of at least two bytes. */
  method WriteElement(writeTo: array<Byte>, value: Int16)
    requires writeTo.Length >= ElementSize
    modifies writeTo
    ensures writeTo[..ElementSize] == TwosComplementBytes(value, ElementSize)
    ensures writeTo[ElementSize..] == old(writeTo[ElementSize..])
  {
    var bits := if value < 0 then value + 0x1_0000 else value;
    writeTo[0] := bits % 0x100;
    writeTo[1] := bits / 0x100;
    assert writeTo[..ElementSize] == TwosComplementBytes(value, ElementSize) by {
      ElementBytes(value, bits);
    }
  }

  lemma ElementBytes(value: Int16, bits: nat)
    requires bits == if value < 0 then value + 0x1_0000 else value
    ensures TwosComplementBytes(value, ElementSize) == [bits % 0x100, bits / 0x100]
  {
    PowOf256();
    if value < 0 {
      DivModUnique(value, 0x1_0000, -1, bits);
    } else {
      DivModUnique(value, 0x1_0000, 0, bits);
    }
    assert LeBytes(bits, 2) == [bits % 0x100] + LeBytes(bits / 0x100, 1);
    assert LeBytes(bits / 0x100, 1) == [bits / 0x100 % 0x100] + LeBytes(bits / 0x100 / 0x100, 0);
  }

  /** Every `short`, the two limits included, reads back as itself. */
  lemma ReadWrittenElement(value: Int16)
    ensures ReadElement(TwosComplementBytes(value, ElementSize)) == value
  {
    PowOf256();
    TwosComplementRoundTrip(value, ElementSize);
    var slot := TwosComplementBytes(value, ElementSize);
    assert slot[..ElementSize] == slot;
  }

  /** And every two-byte slot is what writing its value produces. */
  lemma WriteReadElement(source: seq<Byte>)
    requires |source| >= ElementSize
    ensures TwosComplementBytes(ReadElement(source), ElementSize) == source[..ElementSize]
  {
    var slot := source[..ElementSize];
    var v := ReadElement(source);
    PowOf256();
    LeBytesOfLeValue(slot);
    var u := LeValue(slot);
    assert (v as int) % 0x1_0000 == u by {
      if u >= 0x8000 {
        DivModUnique(v, 0x1_0000, -1, u);
      } else {
        DivModUnique(v, 0x1_0000, 0, u);
      }
    }
  }

  /** The limits the column accepts: -32768 is stored as `00 80` and
      32767 as `FF 7F`. */
  lemma Int16Limits()
    ensures TwosComplementBytes(-0x8000, ElementSize) == [0x00, 0x80]
    ensures TwosComplementBytes(0x7FFF, ElementSize) == [0xFF, 0x7F]
  {
    ElementBytes(-0x8000, 0x8000);
    ElementBytes(0x7FFF, 0x7FFF);
  }
}
