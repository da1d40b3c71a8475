/** `IpV6TypeInfo`: the 16-byte IPv6 column. Its writer takes addresses or
    text to be parsed, writes IPv4 addresses in their IPv4-mapped form
    (section 2.5.5.2 of RFC 4291) and a null row as sixteen zero bytes. */
module IpV6TypeInfo {
  import opened Wrappers
  import opened Bytes
  import opened HostTypes

  const TypeName: string := "IPv6"
  const AddressSize: nat := 16

  /** `ParseIpAddress` (lines 65-74): null stays null, text that
      `IPAddress.TryParse` (here `tryParse`) refuses is an invalid cast. */
  function ParseIpAddress(address: Option<string>, tryParse: string -> Option<IpAddress>): (r: Result<Option<IpAddress>>)
    ensures address.None? ==> r == Ok(None)
    ensures address.Some? ==> (r.Err? <==> tryParse(address.value).None?)
    ensures r.Err? ==> r.error == InvalidCast
    ensures address.Some? && r.Ok? ==> r.value == tryParse(address.value)
  {
    match address
    case None => Ok(None)
    case Some(text) =>
      match tryParse(text)
      case None => Err(InvalidCast)
      case Some(ip) => Ok(Some(ip))
  }

  /** A row as the writer sees it. Text rows are parsed one at a time as
      the writer reaches them, so a row can be a parse failure that only
      surfaces when it is written. */
  type Row = Result<Option<IpAddress>>

  /** `CreateColumnWriter` (lines 42-58): address rows as they are, text
      rows through `ParseIpAddress`, anything else `TypeNotSupported`. */
  function PrepareRows(rows: HostRows, tryParse: string -> Option<IpAddress>): (r: Result<seq<Row>>)
    ensures r.Ok? <==> rows.IpAddressRows? || rows.StringRows?
    ensures r.Err? ==> r.error == TypeNotSupported
    ensures r.Ok? && rows.IpAddressRows? ==>
              |r.value| == |rows.addresses| && forall i :: 0 <= i < |r.value| ==> r.value[i] == Ok(rows.addresses[i])
    ensures r.Ok? && rows.StringRows? ==>
              |r.value| == |rows.strings| &&
              forall i :: 0 <= i < |r.value| ==> r.value[i] == ParseIpAddress(rows.strings[i], tryParse)
  {
    match rows
    case IpAddressRows(addresses) => Ok(seq(|addresses|, i requires 0 <= i < |addresses| => Ok(addresses[i])))
    case StringRows(strings) =>
      Ok(seq(|strings|, i requires 0 <= i < |strings| => ParseIpAddress(strings[i], tryParse)))
    case _ => Err(TypeNotSupported)
  }

  function Zeros(n: nat): (z: seq<Byte>)
    ensures |z| == n && forall i :: 0 <= i < n ==> z[i] == 0
  {
    seq(n, i => 0)
  }

  /** `IPAddress.MapToIPv6`: eighty zero bits, sixteen one bits, then the
      IPv4 address. */
  function MapToIPv6(ip: IpAddress): (r: IpAddress)
    requires ip.family == InterNetwork
    ensures r.family == InterNetworkV6 && |r.bytes| == 12 + |ip.bytes|
    ensures r.bytes[..12] == Zeros(10) + [0xFF, 0xFF] && r.bytes[12..] == ip.bytes
  {
    IpAddress(InterNetworkV6, Zeros(10) + [0xFF, 0xFF] + ip.bytes)
  }

  /** What one row puts in its slot (lines 112-126): `None` for a null row,
      whose slot is zero-filled, otherwise the sixteen address bytes, IPv4
      mapped first; any other family is an invalid cast, and an address
      that does not write sixteen bytes an internal error. */
  function SlotContent(row: Row): (r: Result<Option<seq<Byte>>>)
    ensures r.Ok? && r.value.Some? ==> |r.value.value| == AddressSize
    ensures row == Ok(None) ==> r == Ok(None)
    ensures row.Err? ==> r == Err(row.error)
    ensures row.Ok? && row.value.Some? && row.value.value.family.OtherFamily? ==> r == Err(InvalidCast)
    ensures row.Ok? && row.value.Some? && row.value.value.family == InterNetworkV6 ==>
              r == if |row.value.value.bytes| == AddressSize then Ok(Some(row.value.value.bytes)) else Err(InternalError)
    ensures row.Ok? && row.value.Some? && row.value.value.family == InterNetwork ==>
              r == if |row.value.value.bytes| == 4 then Ok(Some(MapToIPv6(row.value.value).bytes)) else Err(InternalError)
  {
    match row
    case Err(e) => Err(e)
    case Ok(None) => Ok(None)
    case Ok(Some(address)) =>
      var ip := if address.family == InterNetwork then MapToIPv6(address) else address;
      if ip.family != InterNetworkV6 then Err(InvalidCast)
      else if |ip.bytes| != AddressSize then Err(InternalError)
      else Ok(Some(ip.bytes))
  }

  /** The buffer with slot `i` filled: zero from the slot to the end of the
      buffer for a null row, the address bytes in the slot otherwise. */
  function PutSlot(buffer: seq<Byte>, i: nat, content: Option<seq<Byte>>): (r: seq<Byte>)
    requires AddressSize * (i + 1) <= |buffer|
    requires content.Some? ==> |content.value| == AddressSize
    ensures |r| == |buffer| && r[..AddressSize * i] == buffer[..AddressSize * i]
  {
    match content
    case None => buffer[..AddressSize * i] + Zeros(|buffer| - AddressSize * i)
    case Some(bytes) => buffer[..AddressSize * i] + bytes + buffer[AddressSize * (i + 1)..]
  }

  /** Where a call of `WriteNext` ends: the buffer, how many rows it got
      through and the error that stopped it, if any. */
  datatype Progress = Progress(buffer: seq<Byte>, written: nat, error: Option<Error>)

  /** Writing the slots `i` onwards of `chunk` into `buffer`, stopping at the
      first row that fails. */
  function WriteSlots(chunk: seq<Row>, buffer: seq<Byte>, i: nat): (p: Progress)
    requires i <= |chunk| && AddressSize * |chunk| <= |buffer|
    ensures |p.buffer| == |buffer| && i <= p.written <= |chunk|
    ensures p.error.None? ==> p.written == |chunk|
    ensures p.error.Some? ==> p.written < |chunk|
    decreases |chunk| - i
  {
    if i == |chunk| then Progress(buffer, i, None)
    else
      match SlotContent(chunk[i])
      case Err(e) => Progress(buffer, i, Some(e))
      case Ok(content) => WriteSlots(chunk, PutSlot(buffer, i, content), i + 1)
  }

  /** Slots already written are never touched again. */
  lemma {:induction false} EarlierSlotsKept(chunk: seq<Row>, buffer: seq<Byte>, i: nat)
    requires i <= |chunk| && AddressSize * |chunk| <= |buffer|
    ensures WriteSlots(chunk, buffer, i).buffer[..AddressSize * i] == buffer[..AddressSize * i]
    decreases |chunk| - i
  {
    if i < |chunk| && SlotContent(chunk[i]).Ok? {
      var next := PutSlot(buffer, i, SlotContent(chunk[i]).value);
      EarlierSlotsKept(chunk, next, i + 1);
      assert next[..AddressSize * i] == buffer[..AddressSize * i];
      assert WriteSlots(chunk, next, i + 1).buffer[..AddressSize * i] == WriteSlots(chunk, next, i + 1).buffer[..AddressSize * (i + 1)][..AddressSize * i];
    }
  }

  /** After a call that fails nowhere, every slot holds its row: the
      address bytes, or zeros for a null row. */
  lemma {:induction false} SlotsHoldRows(chunk: seq<Row>, buffer: seq<Byte>, i: nat, j: nat)
    requires i <= j < |chunk| && AddressSize * |chunk| <= |buffer|
    requires WriteSlots(chunk, buffer, i).error.None?
    ensures SlotContent(chunk[j]).Ok?
    ensures WriteSlots(chunk, buffer, i).buffer[AddressSize * j..AddressSize * (j + 1)]
            == SlotContent(chunk[j]).value.GetOr(Zeros(AddressSize))
    decreases |chunk| - i
  {
    assert SlotContent(chunk[i]).Ok?;
    if j == i {
      FirstSlotHoldsRow(chunk, buffer, i);
    } else {
      var next := PutSlot(buffer, i, SlotContent(chunk[i]).value);
      WriteStep(chunk, buffer, i);
      SlotsHoldRows(chunk, next, i + 1, j);
    }
  }

  /** The slot a row writes is left alone by the rows after it. */
  lemma FirstSlotHoldsRow(chunk: seq<Row>, buffer: seq<Byte>, i: nat)
    requires i < |chunk| && AddressSize * |chunk| <= |buffer| && SlotContent(chunk[i]).Ok?
    ensures WriteSlots(chunk, buffer, i).buffer[AddressSize * i..AddressSize * (i + 1)]
            == SlotContent(chunk[i]).value.GetOr(Zeros(AddressSize))
  {
    var content := SlotContent(chunk[i]).value;
    var next := PutSlot(buffer, i, content);
    WriteStep(chunk, buffer, i);
    EarlierSlotsKept(chunk, next, i + 1);
    SliceOfPrefix(WriteSlots(chunk, next, i + 1).buffer, next, AddressSize * i, AddressSize * (i + 1));
    PutSlotSlot(buffer, i, content);
  }

  lemma SliceOfPrefix(s: seq<Byte>, t: seq<Byte>, a: nat, b: nat)
    requires a <= b <= |s| && b <= |t| && s[..b] == t[..b]
    ensures s[a..b] == t[a..b]
  {
    assert s[a..b] == s[..b][a..];
    assert t[a..b] == t[..b][a..];
  }

  lemma PutSlotSlot(buffer: seq<Byte>, i: nat, content: Option<seq<Byte>>)
    requires AddressSize * (i + 1) <= |buffer|
    requires content.Some? ==> |content.value| == AddressSize
    ensures PutSlot(buffer, i, content)[AddressSize * i..AddressSize * (i + 1)] == content.GetOr(Zeros(AddressSize))
  {
  }

  /** Some row from `i` on is null. */
  predicate AnyNull(chunk: seq<Row>, i: nat)
    decreases |chunk| - i
  {
    i < |chunk| && (chunk[i] == Ok(None) || AnyNull(chunk, i + 1))
  }

  /** After a call that fails nowhere, the buffer past the last slot is zero
      when some row was null and untouched otherwise. */
  lemma {:induction false} TailAfterSlots(chunk: seq<Row>, buffer: seq<Byte>, i: nat)
    requires i <= |chunk| && AddressSize * |chunk| <= |buffer|
    requires WriteSlots(chunk, buffer, i).error.None?
    ensures AnyNull(chunk, i) ==>
              WriteSlots(chunk, buffer, i).buffer[AddressSize * |chunk|..] == Zeros(|buffer| - AddressSize * |chunk|)
    ensures !AnyNull(chunk, i) ==>
              WriteSlots(chunk, buffer, i).buffer[AddressSize * |chunk|..] == buffer[AddressSize * |chunk|..]
  {
    if AnyNull(chunk, i) {
      TailZeroed(chunk, buffer, i);
    } else {
      TailKept(chunk, buffer, i);
    }
  }

  lemma {:induction false} TailZeroed(chunk: seq<Row>, buffer: seq<Byte>, i: nat)
    requires i <= |chunk| && AddressSize * |chunk| <= |buffer|
    requires WriteSlots(chunk, buffer, i).error.None? && AnyNull(chunk, i)
    ensures WriteSlots(chunk, buffer, i).buffer[AddressSize * |chunk|..] == Zeros(|buffer| - AddressSize * |chunk|)
    decreases |chunk| - i
  {
    var next := PutSlot(buffer, i, SlotContent(chunk[i]).value);
    TailStep(chunk, buffer, i);
    if chunk[i] == Ok(None) {
      TailZeroedFrom(chunk, next, i + 1);
    } else {
      TailZeroed(chunk, next, i + 1);
    }
  }

  /** Once the tail is zero, it stays zero. */
  lemma {:induction false} TailZeroedFrom(chunk: seq<Row>, buffer: seq<Byte>, i: nat)
    requires i <= |chunk| && AddressSize * |chunk| <= |buffer|
    requires WriteSlots(chunk, buffer, i).error.None?
    requires buffer[AddressSize * |chunk|..] == Zeros(|buffer| - AddressSize * |chunk|)
    ensures WriteSlots(chunk, buffer, i).buffer[AddressSize * |chunk|..] == Zeros(|buffer| - AddressSize * |chunk|)
    decreases |chunk| - i
  {
    if i < |chunk| {
      var next := PutSlot(buffer, i, SlotContent(chunk[i]).value);
      TailStep(chunk, buffer, i);
      TailZeroedFrom(chunk, next, i + 1);
    }
  }

  lemma {:induction false} TailKept(chunk: seq<Row>, buffer: seq<Byte>, i: nat)
    requires i <= |chunk| && AddressSize * |chunk| <= |buffer|
    requires WriteSlots(chunk, buffer, i).error.None? && !AnyNull(chunk, i)
    ensures WriteSlots(chunk, buffer, i).buffer[AddressSize * |chunk|..] == buffer[AddressSize * |chunk|..]
    decreases |chunk| - i
  {
    if i < |chunk| {
      var next := PutSlot(buffer, i, SlotContent(chunk[i]).value);
      TailStep(chunk, buffer, i);
      TailKept(chunk, next, i + 1);
    }
  }

  /** The step of `TailAfterSlots`: how slot `i` changes the tail and
      whether a null row has been seen. */
  lemma TailStep(chunk: seq<Row>, buffer: seq<Byte>, i: nat)
    requires i < |chunk| && AddressSize * |chunk| <= |buffer| && SlotContent(chunk[i]).Ok?
    ensures var next := PutSlot(buffer, i, SlotContent(chunk[i]).value);
            var n := AddressSize * |chunk|;
            && WriteSlots(chunk, buffer, i) == WriteSlots(chunk, next, i + 1)
            && (chunk[i] == Ok(None) ==> AnyNull(chunk, i) && next[n..] == Zeros(|buffer| - n))
            && (chunk[i] != Ok(None) ==> AnyNull(chunk, i) == AnyNull(chunk, i + 1) && next[n..] == buffer[n..])
            && (buffer[n..] == Zeros(|buffer| - n) ==> next[n..] == Zeros(|buffer| - n))
  {
    var content := SlotContent(chunk[i]).value;
    WriteStep(chunk, buffer, i);
    PutSlotTail(buffer, i, content, AddressSize * |chunk|);
    if content.None? {
      NullSlot(chunk[i]);
    }
  }

  lemma PutSlotTail(buffer: seq<Byte>, i: nat, content: Option<seq<Byte>>, n: nat)
    requires AddressSize * (i + 1) <= n <= |buffer|
    requires content.Some? ==> |content.value| == AddressSize
    ensures PutSlot(buffer, i, content)[n..] == if content.None? then Zeros(|buffer| - n) else buffer[n..]
  {
  }

  lemma NullSlot(row: Row)
    requires SlotContent(row) == Ok(None)
    ensures row == Ok(None)
  {
  }

  /** A call fails exactly when one of its rows cannot be written, and then
      it stops at the first such row. */
  lemma {:induction false} FirstFailure(chunk: seq<Row>, buffer: seq<Byte>, i: nat)
    requires i <= |chunk| && AddressSize * |chunk| <= |buffer|
    ensures var p := WriteSlots(chunk, buffer, i);
            && (p.error.Some? <==> exists j :: i <= j < |chunk| && SlotContent(chunk[j]).Err?)
            && (p.error.Some? ==> SlotContent(chunk[p.written]) == Err(p.error.value))
            && forall j :: i <= j < p.written ==> SlotContent(chunk[j]).Ok?
    decreases |chunk| - i
  {
    if i < |chunk| {
      var content := SlotContent(chunk[i]);
      if content.Ok? {
        var next := PutSlot(buffer, i, content.value);
        WriteStep(chunk, buffer, i);
        assert WriteSlots(chunk, buffer, i) == WriteSlots(chunk, next, i + 1);
        FirstFailure(chunk, next, i + 1);
        FailuresAfter(chunk, i);
      } else {
        StopAt(chunk, buffer, i);
      }
    }
  }

  /** A row that writes does not change whether a later row fails. */
  lemma FailuresAfter(chunk: seq<Row>, i: nat)
    requires i < |chunk| && SlotContent(chunk[i]).Ok?
    ensures (exists j :: i <= j < |chunk| && SlotContent(chunk[j]).Err?)
            <==> (exists j :: i + 1 <= j < |chunk| && SlotContent(chunk[j]).Err?)
  {
    if exists j :: i <= j < |chunk| && SlotContent(chunk[j]).Err? {
      var j :| i <= j < |chunk| && SlotContent(chunk[j]).Err?;
      assert i + 1 <= j;
    }
  }

  /** What a call of `WriteNext` over `chunk` promises: the buffer and the
      number of rows written are those of `WriteSlots`, and the call fails
      exactly when a row fails, with that row's error. */
  predicate WroteChunk(chunk: seq<Row>, before: seq<Byte>, after: seq<Byte>, written: int, r: Result<SequenceSize>)
    requires AddressSize * |chunk| <= |before|
  {
    var p := WriteSlots(chunk, before, 0);
    && after == p.buffer
    && written == p.written
    && (r.Ok? <==> p.error.None?)
    && (r.Ok? ==> r.value == SequenceSize(AddressSize * |chunk|, |chunk|))
    && (r.Err? ==> r.error == p.error.value)
  }

  class IpV6Writer {
    const columnName: string
    const columnType: string
    const rows: seq<Row>
    /** `_position`: the number of rows already written. */
    var position: nat

    ghost predicate Valid()
      reads this
    {
      position <= |rows|
    }

    /** Lines 99-104. */
    constructor(columnName: string, columnType: string, rows: seq<Row>)
      ensures Valid() && position == 0
      ensures this.columnName == columnName && this.columnType == columnType && this.rows == rows
    {
      this.columnName := columnName;
      this.columnType := columnType;
      this.rows := rows;
      this.position := 0;
    }

    /** The number of whole elements a call writes into a buffer of
        `length` bytes (line 108). */
    function ElementsCount(length: nat): (n: nat)
      reads this
      requires Valid()
      ensures n <= |rows| - position && AddressSize * n <= length
      ensures n == |rows| - position || n == length / AddressSize
    {
      Min(|rows| - position, length / AddressSize)
    }

    /** `WriteNext` as written (lines 106-130): slot `i` is filled from row
        `i`, counted from the first row of the column rather than from the
        position, while the position advances row by row. */
    method WriteNext(writeTo: array<Byte>) returns (r: Result<SequenceSize>)
      requires Valid()
      modifies this, writeTo
      ensures Valid()
      ensures var n := old(ElementsCount(writeTo.Length));
              WroteChunk(rows[..n], old(writeTo[..]), writeTo[..], position - old(position), r)
    {
      var elementsCount := ElementsCount(writeTo.Length);
      r := WriteElements(writeTo, 0, elementsCount);
    }

    /** `WriteNext` as evidently intended: slot `i` is filled from row
        `position + i`. */
    method WriteNextCorrected(writeTo: array<Byte>) returns (r: Result<SequenceSize>)
      requires Valid()
      modifies this, writeTo
      ensures Valid()
      ensures var n := old(ElementsCount(writeTo.Length));
              WroteChunk(rows[old(position)..old(position) + n], old(writeTo[..]), writeTo[..], position - old(position), r)
    {
      var elementsCount := ElementsCount(writeTo.Length);
      r := WriteElements(writeTo, position, elementsCount);
    }

    /** The loop of `WriteNext`, reading rows from `first` on. */
    method WriteElements(writeTo: array<Byte>, first: nat, elementsCount: nat) returns (r: Result<SequenceSize>)
      requires Valid()
      requires first + elementsCount <= |rows| && position + elementsCount <= |rows|
      requires AddressSize * elementsCount <= writeTo.Length
      modifies this, writeTo
      ensures Valid()
      ensures WroteChunk(rows[first..first + elementsCount], old(writeTo[..]), writeTo[..], position - old(position), r)
    {
      ghost var chunk := rows[first..first + elementsCount];
      ghost var goal := WriteSlots(chunk, writeTo[..], 0);
      ghost var start := position;
      var i := 0;
      while i < elementsCount
        invariant 0 <= i <= elementsCount && position == start + i
        invariant WriteSlots(chunk, writeTo[..], i) == goal
      {
        assert rows[first + i] == chunk[i];
        var failed := WriteRow(writeTo, chunk, i, rows[first + i]);
        if failed.Some? {
          return Err(failed.value);
        }
        i, position := i + 1, position + 1;
      }
      Finished(chunk, writeTo[..]);
      r := Ok(SequenceSize(AddressSize * elementsCount, elementsCount));
    }
  }

  /** One pass of the loop of `WriteNext`: the slot of row `i` is written,
      or the row's error is reported with the buffer untouched. */
  method WriteRow(writeTo: array<Byte>, ghost chunk: seq<Row>, i: nat, row: Row) returns (failed: Option<Error>)
    requires i < |chunk| && row == chunk[i] && AddressSize * |chunk| <= writeTo.Length
    modifies writeTo
    ensures failed.None? ==> WriteSlots(chunk, old(writeTo[..]), i) == WriteSlots(chunk, writeTo[..], i + 1)
    ensures failed.Some? ==> writeTo[..] == old(writeTo[..])
                             && WriteSlots(chunk, old(writeTo[..]), i) == Progress(writeTo[..], i, failed)
  {
    var content := SlotContent(row);
    if content.Err? {
      StopAt(chunk, writeTo[..], i);
      return Some(content.error);
    }
    WriteStep(chunk, writeTo[..], i);
    WriteSlot(writeTo, i, content.value);
    failed := None;
  }

  lemma Finished(chunk: seq<Row>, buffer: seq<Byte>)
    requires AddressSize * |chunk| <= |buffer|
    ensures WriteSlots(chunk, buffer, |chunk|) == Progress(buffer, |chunk|, None)
  {
  }

  lemma WriteStep(chunk: seq<Row>, buffer: seq<Byte>, i: nat)
    requires i < |chunk| && AddressSize * |chunk| <= |buffer| && SlotContent(chunk[i]).Ok?
    ensures WriteSlots(chunk, buffer, i) == WriteSlots(chunk, PutSlot(buffer, i, SlotContent(chunk[i]).value), i + 1)
  {
  }

  lemma StopAt(chunk: seq<Row>, buffer: seq<Byte>, i: nat)
    requires i < |chunk| && AddressSize * |chunk| <= |buffer| && SlotContent(chunk[i]).Err?
    ensures WriteSlots(chunk, buffer, i) == Progress(buffer, i, Some(SlotContent(chunk[i]).error))
  {
  }

  /** One slot of the loop: `Fill(0)` from the slot on for a null row,
      `TryWriteBytes` into the slot otherwise. */
  method WriteSlot(writeTo: array<Byte>, i: nat, content: Option<seq<Byte>>)
    requires AddressSize * (i + 1) <= writeTo.Length
    requires content.Some? ==> |content.value| == AddressSize
    modifies writeTo
    ensures writeTo[..] == PutSlot(old(writeTo[..]), i, content)
  {
    if content.None? {
      Fill(writeTo, AddressSize * i);
    } else {
      CopySlot(writeTo, AddressSize * i, content.value);
    }
  }

  /** `Span.Fill(0)` on the buffer from `start` to its end. */
  method Fill(writeTo: array<Byte>, start: nat)
    requires start <= writeTo.Length
    modifies writeTo
    ensures writeTo[..] == old(writeTo[..start]) + Zeros(writeTo.Length - start)
  {
    for k := start to writeTo.Length
      invariant writeTo[..start] == old(writeTo[..start])
      invariant forall t :: start <= t < k ==> writeTo[t] == 0
    {
      writeTo[k] := 0;
    }
    assert writeTo[..] == writeTo[..start] + writeTo[start..];
  }

  /** `IPAddress.TryWriteBytes` into the slot at `offset`. */
  method CopySlot(writeTo: array<Byte>, offset: nat, bytes: seq<Byte>)
    requires offset + |bytes| <= writeTo.Length
    modifies writeTo
    ensures writeTo[..] == old(writeTo[..offset]) + bytes + old(writeTo[offset + |bytes|..])
  {
    ghost var before := writeTo[..];
    for k := 0 to |bytes|
      invariant forall t :: 0 <= t < writeTo.Length ==>
                  writeTo[t] == if offset <= t < offset + k then bytes[t - offset] else before[t]
    {
      writeTo[offset + k] := bytes[k];
    }
    assert writeTo[..] == before[..offset] + bytes + before[offset + |bytes|..];
  }

  lemma OneRow(address: IpAddress, buffer: seq<Byte>)
    requires address.family == InterNetworkV6 && |address.bytes| == AddressSize && |buffer| == AddressSize
    ensures WriteSlots([Ok(Some(address))], buffer, 0).buffer == address.bytes
  {
    var rows: seq<Row> := [Ok(Some(address))];
    assert SlotContent(rows[0]) == Ok(Some(address.bytes));
    assert PutSlot(buffer, 0, Some(address.bytes)) == address.bytes by {
      assert buffer[..0] == [] && buffer[AddressSize..] == [];
    }
    assert WriteSlots(rows, address.bytes, 1).buffer == address.bytes;
  }

  /** Two rows written by two calls of one address each: the corrected
      writer sends both rows, the writer as written sends the first row
      twice. */
  lemma SecondCallRewritesFirstRow(first: IpAddress, second: IpAddress, buffer: seq<Byte>)
    requires first.family == InterNetworkV6 && second.family == InterNetworkV6
    requires |first.bytes| == AddressSize && |second.bytes| == AddressSize && first.bytes != second.bytes
    requires |buffer| == AddressSize
    ensures var rows: seq<Row> := [Ok(Some(first)), Ok(Some(second))];
            && WriteSlots(rows[..1], buffer, 0).buffer == first.bytes
            && WriteSlots(rows[1..2], buffer, 0).buffer == second.bytes
            && WriteSlots(rows[..1], buffer, 0).buffer != second.bytes
  {
    var rows: seq<Row> := [Ok(Some(first)), Ok(Some(second))];
    assert rows[..1] == [Ok(Some(first))] && rows[1..2] == [Ok(Some(second))];
    OneRow(first, buffer);
    OneRow(second, buffer);
  }
}
