/** `UInt8TypeInfo`: the one-byte unsigned column. Its writer copies rows
    straight into the caller's buffer, as many as fit, and remembers where
    it stopped. */
module UInt8TypeInfo {
  import opened Wrappers
  import opened Bytes
  import opened HostTypes
  import opened ByteSequences

  const TypeName: string := "UInt8"
  const ElementSize: nat := 1

  /** The row check of `CreateColumnWriter`: only a list of bytes. */
  function WriterRows(rows: HostRows): (r: Result<seq<Byte>>)
    ensures r.Ok? <==> rows.ByteRows?
    ensures r.Ok? ==> r.value == rows.bytes
    ensures r.Err? ==> r.error == TypeNotSupported
  {
    if rows.ByteRows? then Ok(rows.bytes) else Err(TypeNotSupported)
  }

  /** `UInt8Reader.ReadElement`: the first byte is the element. */
  function ReadElement(source: seq<Byte>): (v: Byte)
    requires |source| >= ElementSize
    ensures LeBytes(v, ElementSize) == source[..ElementSize]
  {
    source[0]
  }

  /** `UInt8Reader.CopyTo`: the whole source goes to the front of the
      target and the target's length is returned; a source longer than the
      target is refused, as `ReadOnlySequence.CopyTo` refuses it. */
  method CopyTo(source: ByteSequence, target: array<Byte>) returns (r: Result<int>)
    modifies target
    ensures r.Err? <==> source.Length() > target.Length
    ensures r.Err? ==> r.error == Argument && target[..] == old(target[..])
    ensures r.Ok? ==> r.value == target.Length
    ensures r.Ok? ==> target[..] == source.Content() + old(target[..])[source.Length()..]
  {
    var content := source.Content();
    if |content| > target.Length {
      return Err(Argument);
    }
    ghost var before := target[..];
    for i := 0 to |content|
      invariant forall k :: 0 <= k < i ==> target[k] == content[k]
      invariant forall k :: i <= k < target.Length ==> target[k] == before[k]
    {
      target[i] := content[i];
    }
    assert target[..] == content + before[|content|..];
    r := Ok(target.Length);
  }

  /** The rows one `WriteNext` call copies from `position` into a buffer of
      `length` bytes: as many as fit, and no more than remain. */
  function NextChunk(rows: seq<Byte>, position: nat, length: nat): (chunk: seq<Byte>)
    requires position <= |rows|
    ensures |chunk| == Min(length, |rows| - position)
    ensures chunk == rows[position..position + |chunk|]
  {
    rows[position..position + Min(length, |rows| - position)]
  }

  /** Everything a series of `WriteNext` calls with buffers of the given
      lengths copies, starting at `position`, chunk after chunk. */
  function Drain(rows: seq<Byte>, position: nat, lengths: seq<nat>): seq<Byte>
    requires position <= |rows|
    decreases |lengths|
  {
    if lengths == [] then []
    else
      var chunk := NextChunk(rows, position, lengths[0]);
      chunk + Drain(rows, position + |chunk|, lengths[1..])
  }

  function Sum(lengths: seq<nat>): nat {
    if lengths == [] then 0 else lengths[0] + Sum(lengths[1..])
  }

  /** Whatever the buffer lengths, the chunks put together are the rows from
      `position` on, cut only where the buffers ran out. */
  lemma {:induction false} DrainIsPrefix(rows: seq<Byte>, position: nat, lengths: seq<nat>)
    requires position <= |rows|
    ensures Drain(rows, position, lengths) == rows[position..position + Min(Sum(lengths), |rows| - position)]
    decreases |lengths|
  {
    if lengths != [] {
      var chunk := NextChunk(rows, position, lengths[0]);
      var next := position + |chunk|;
      DrainIsPrefix(rows, next, lengths[1..]);
      var end := next + Min(Sum(lengths[1..]), |rows| - next);
      assert end == position + Min(Sum(lengths), |rows| - position);
      assert rows[position..end] == rows[position..next] + rows[next..end];
    }
  }

  /** Buffers that together hold every row write the rows exactly. */
  lemma DrainWritesAllRows(rows: seq<Byte>, lengths: seq<nat>)
    requires Sum(lengths) >= |rows|
    ensures Drain(rows, 0, lengths) == rows
  {
    DrainIsPrefix(rows, 0, lengths);
  }

  class UInt8Writer {
    const columnName: string
    const columnType: string
    const rows: seq<Byte>
    /** `_position`: the number of rows already written. */
    var position: nat

    ghost predicate Valid()
      reads this
    {
      position <= |rows|
    }

    /** Lines 90-95. */
    constructor(columnName: string, columnType: string, rows: seq<Byte>)
      ensures Valid() && position == 0
      ensures this.columnName == columnName && this.columnType == columnType && this.rows == rows
    {
      this.columnName := columnName;
      this.columnType := columnType;
      this.rows := rows;
      this.position := 0;
    }

    /** `WriteNext`: copies the next chunk of rows to the front of `writeTo`,
        leaves the rest of the buffer alone and reports the chunk's length
        both as bytes and as elements; when every row is written it writes
        nothing. */
    method WriteNext(writeTo: array<Byte>) returns (r: SequenceSize)
      requires Valid()
      modifies this, writeTo
      ensures Valid()
      ensures var chunk := NextChunk(rows, old(position), writeTo.Length);
              && r == SequenceSize(|chunk|, |chunk|)
              && position == old(position) + |chunk|
              && writeTo[..] == chunk + old(writeTo[..])[|chunk|..]
      ensures old(position) == |rows| ==> r == SequenceSize(0, 0)
    {
      var size := Min(writeTo.Length, |rows| - position);
      ghost var start := position;
      ghost var before := writeTo[..];
      var i := 0;
      while i < size
        invariant 0 <= i <= size && position == start + i
        invariant forall k :: 0 <= k < i ==> writeTo[k] == rows[start + k]
        invariant forall k :: i <= k < writeTo.Length ==> writeTo[k] == before[k]
      {
        writeTo[i] := rows[position];
        i, position := i + 1, position + 1;
      }
      assert writeTo[..] == rows[start..position] + before[size..];
      r := SequenceSize(size, size);
    }
  }

  /** `CreateColumnWriter` (lines 38-44): a writer over the byte rows, or
      `TypeNotSupported` for any other row type. */
  method CreateColumnWriter(columnName: string, complexTypeName: string, rows: HostRows) returns (r: Result<UInt8Writer>)
    ensures r.Ok? <==> rows.ByteRows?
    ensures r.Err? ==> r.error == TypeNotSupported
    ensures r.Ok? ==> fresh(r.value) && r.value.Valid() && r.value.position == 0
    ensures r.Ok? ==> r.value.rows == rows.bytes && r.value.columnType == complexTypeName
  {
    var byteRows := WriterRows(rows);
    if byteRows.Err? {
      return Err(byteRows.error);
    }
    var writer := new UInt8Writer(columnName, complexTypeName, byteRows.value);
    r := Ok(writer);
  }
}
