/** `DecimalTypeInfoBase.DecimalReader`: collects the elements of a decimal
    column as 32-bit little-endian words, whatever the segments the bytes
    arrive in, and hands them to the table column at the end. */
module DecimalReader {
  import opened Wrappers
  import opened Bytes
  import opened ByteSequences
  import DecimalTypeInfo
  import DecimalWriter
  import HostTypes

  /** The little-endian words of `bytes`, four bytes each. */
  function Words(bytes: seq<Byte>): (ws: seq<Word>)
    requires |bytes| % 4 == 0
    ensures |ws| == |bytes| / 4
  {
    if bytes == [] then [] else [ToUInt32(bytes)] + Words(bytes[4..])
  }

  /** The bytes of `words`, each little-endian: the inverse of `Words`. */
  function WordBytes(words: seq<Word>): (bytes: seq<Byte>)
    ensures |bytes| == 4 * |words|
  {
    if words == [] then [] else LeBytes(words[0], 4) + WordBytes(words[1..])
  }

  lemma {:induction false} WordsAppend(a: seq<Byte>, b: seq<Byte>)
    requires |a| % 4 == 0 && |b| % 4 == 0
    ensures Words(a + b) == Words(a) + Words(b)
    decreases |a|
  {
    if a != [] {
      assert (a + b)[4..] == a[4..] + b;
      assert (a + b)[..4] == a[..4];
      WordsAppend(a[4..], b);
    } else {
      assert a + b == b;
    }
  }

  /** Reading the words back to bytes gives the bytes that were read. */
  lemma {:induction false} WordsRoundTrip(bytes: seq<Byte>)
    requires |bytes| % 4 == 0
    ensures WordBytes(Words(bytes)) == bytes
    decreases |bytes|
  {
    if bytes != [] {
      WordsRoundTrip(bytes[4..]);
      PowOf256();
      LeBytesOfLeValue(bytes[..4]);
      assert bytes == bytes[..4] + bytes[4..];
    }
  }

  /** The table column `EndRead` creates: the words read so far, the number
      of words per element and the scale. */
  datatype DecimalTableColumn = DecimalTableColumn(words: seq<Word>, wordsPerElement: nat, scale: nat)

  /** The signed value of one element from its words, least significant
      first, as a two's-complement integer of the element's width. */
  function ElementValue(words: seq<Word>): (v: int)
    requires |words| > 0
    ensures -SignedBound(4 * |words|) <= v < SignedBound(4 * |words|)
  {
    LeSigned(WordBytes(words))
  }

  /** Reading back what `WriteElement` wrote for a value that fits gives the
      value's stored integer. */
  lemma ReadsWhatWasWritten(value: HostTypes.NetDecimal, scale: nat, elementSize: nat)
    requires elementSize == 4 || elementSize == 8 || elementSize == 16
    requires DecimalWriter.Fits(value, scale, elementSize)
    ensures ElementValue(Words(TwosComplementBytes(DecimalWriter.WireValue(value, scale), elementSize)))
            == DecimalWriter.WireValue(value, scale)
  {
    var bytes := TwosComplementBytes(DecimalWriter.WireValue(value, scale), elementSize);
    WordsRoundTrip(bytes);
    DecimalWriter.WrittenSlotDecodes(value, scale, elementSize);
  }

  class DecimalReader {
    const rowCount: nat
    const elementSize: nat
    const scale: nat
    /** `_values`: room for every word of every row. */
    const values: array<Word>
    /** `_position`: the number of words read so far. */
    var position: nat

    ghost predicate Valid()
      reads this
    {
      && (elementSize == 4 || elementSize == 8 || elementSize == 16)
      && values.Length == elementSize / 4 * rowCount
      && position <= values.Length
      && position % (elementSize / 4) == 0
    }

    /** Lines 169-175. */
    constructor(precision: int, scale: nat, rowCount: nat)
      ensures Valid() && fresh(values) && position == 0
      ensures this.rowCount == rowCount && this.scale == scale
      ensures elementSize == DecimalTypeInfo.GetElementSize(precision)
    {
      this.rowCount := rowCount;
      this.elementSize := DecimalTypeInfo.GetElementSize(precision);
      this.values := new Word[DecimalTypeInfo.GetElementSize(precision) / 4 * rowCount];
      this.scale := scale;
      this.position := 0;
    }

    /** The number of whole elements read so far. */
    function ElementPosition(): (e: nat)
      reads this
      requires Valid()
      ensures e * (elementSize / 4) == position && e <= rowCount
    {
      position * 4 / elementSize
    }

    /** How many bytes one `ReadNext` takes: the remaining rows, or the whole
        elements the sequence holds, whichever is less. */
    static function ReadLength(remainingRows: nat, elementSize: nat, length: nat): (n: nat)
      requires elementSize == 4 || elementSize == 8 || elementSize == 16
      ensures n % elementSize == 0 && n % 4 == 0
      ensures n <= length && n <= remainingRows * elementSize
      ensures n == remainingRows * elementSize || length - n < elementSize
    {
      DivMod(length, elementSize);
      WholeElements(remainingRows, elementSize);
      WholeElements(length / elementSize, elementSize);
      Wrappers.Min(remainingRows * elementSize, length - length % elementSize)
    }

    /** A whole number of elements is a whole number of words. */
    static lemma WholeElements(count: nat, elementSize: nat)
      requires elementSize == 4 || elementSize == 8 || elementSize == 16
      ensures (count * elementSize) % elementSize == 0 && (count * elementSize) % 4 == 0
      ensures elementSize * count == count * elementSize
    {
      DivModUnique(count * elementSize, elementSize, count, 0);
      var k := elementSize / 4;
      assert count * elementSize == 4 * (count * k);
      DivModUnique(count * elementSize, 4, count * k, 0);
    }

    /** `ReadNext` (lines 177-198): once every row is read it fails with
        `DataReaderError`; otherwise it takes only whole elements, stores each
        four-byte group as a little-endian word after the words already read,
        and leaves the rest of the array as it was. */
    method ReadNext(sequence: ByteSequence) returns (r: Result<SequenceSize>)
      requires Valid()
      modifies this, values
      ensures Valid()
      ensures r.Ok? <==> old(ElementPosition()) < rowCount
      ensures old(ElementPosition()) >= rowCount ==> r == Err(DataReaderError)
      ensures r.Err? ==> position == old(position) && values[..] == old(values[..])
      ensures r.Ok? ==>
                var n := ReadLength(rowCount - old(ElementPosition()), elementSize, sequence.Length());
                && r.value == SequenceSize(n, n / elementSize)
                && position == old(position) + n / 4
                && values[..] == old(values[..position]) + Words(sequence.Content()[..n]) + old(values[..])[position..]
    {
      var elementPosition := ElementPosition();
      if elementPosition >= rowCount {
        return Err(DataReaderError);
      }
      var byteLength := ReadLength(rowCount - elementPosition, elementSize, sequence.Length());
      assert position + byteLength / 4 <= values.Length by {
        ReadLengthFits(rowCount, elementSize, elementPosition, position, byteLength);
      }
      ghost var start := position;
      position := CopyWords(values, position, sequence.Take(byteLength));
      r := Ok(SequenceSize(byteLength, byteLength / elementSize));
      assert Valid() by {
        PositionStaysAligned(elementSize, start, byteLength);
      }
    }

    /** The loop of `ReadNext`: stores the words of `slice` one by one from
        `position` on and returns the position after the last. */
    static method CopyWords(values: array<Word>, position: nat, slice: ByteSequence) returns (end: nat)
      requires slice.Length() % 4 == 0 && position + slice.Length() / 4 <= values.Length
      modifies values
      ensures end == position + slice.Length() / 4
      ensures values[..] == old(values[..position]) + Words(slice.Content()) + old(values[..])[end..]
    {
      ghost var content := slice.Content();
      ghost var before := values[..];
      ghost var consumed := 0;
      end := position;
      var slice := slice;
      while !slice.IsEmpty()
        invariant consumed % 4 == 0 && consumed <= |content|
        invariant slice.Content() == content[consumed..]
        invariant end == position + consumed / 4
        invariant values[..] == before[..position] + Words(content[..consumed]) + before[end..]
        decreases slice.Length()
      {
        assert consumed + 4 <= |content|;
        var word := ReadWord(slice);
        assert slice.Content()[..4] == content[consumed..consumed + 4];
        ghost var current := values[..];
        StoreWord(before, position, current, content, consumed, end, word);
        values[end] := word;
        assert values[..] == current[end := word];
        end := end + 1;
        consumed := consumed + 4;
        slice := slice.Slice(4);
      }
      assert content[..consumed] == content;
    }

    /** One word from the front of `slice`: straight from the first segment
        when it holds four bytes, otherwise copied out of the segments. */
    static method ReadWord(slice: ByteSequence) returns (word: Word)
      requires slice.Length() >= 4
      ensures word == ToUInt32(slice.Content()[..4])
    {
      var span := slice.FirstSpan();
      if |span| >= 4 {
        assert span[..4] == slice.Content()[..4];
        word := ToUInt32(span);
        assert slice.Content()[..4][..4] == span[..4];
      } else {
        var tmpSpan := slice.Take(4).Content();
        word := ToUInt32(tmpSpan);
        assert tmpSpan[..4] == tmpSpan;
      }
    }

    /** Storing the next word extends the words read by one. */
    static lemma StoreWord(before: seq<Word>, start: nat, current: seq<Word>, content: seq<Byte>, consumed: nat,
                           position: nat, word: Word)
      requires consumed % 4 == 0 && consumed + 4 <= |content|
      requires word == ToUInt32(content[consumed..consumed + 4])
      requires position == start + consumed / 4 && position < |before| && |current| == |before|
      requires current == before[..start] + Words(content[..consumed]) + before[position..]
      ensures current[position := word] == before[..start] + Words(content[..consumed + 4]) + before[position + 1..]
    {
      WordsSnoc(content, consumed);
    }

    static lemma ReadLengthFits(rowCount: nat, elementSize: nat, elementPosition: nat, position: nat, byteLength: nat)
      requires elementSize == 4 || elementSize == 8 || elementSize == 16
      requires elementPosition * (elementSize / 4) == position && elementPosition < rowCount
      requires byteLength <= (rowCount - elementPosition) * elementSize && byteLength % 4 == 0
      ensures position + byteLength / 4 <= elementSize / 4 * rowCount
    {
    }

    static lemma PositionStaysAligned(elementSize: nat, start: nat, byteLength: nat)
      requires elementSize == 4 || elementSize == 8 || elementSize == 16
      requires start % (elementSize / 4) == 0 && byteLength % elementSize == 0
      ensures (start + byteLength / 4) % (elementSize / 4) == 0
    {
      var m := byteLength / elementSize;
      DivMod(byteLength, elementSize);
      if elementSize == 8 {
        DivMod(start, 2);
        DivModUnique(byteLength, 4, 2 * m, 0);
        DivModUnique(start + byteLength / 4, 2, start / 2 + m, 0);
      } else if elementSize == 16 {
        DivMod(start, 4);
        DivModUnique(byteLength, 4, 4 * m, 0);
        DivModUnique(start + byteLength / 4, 4, start / 4 + m, 0);
      }
    }

    static lemma WordsSnoc(content: seq<Byte>, consumed: nat)
      requires consumed % 4 == 0 && consumed + 4 <= |content|
      ensures Words(content[..consumed + 4]) == Words(content[..consumed]) + [ToUInt32(content[consumed..consumed + 4])]
    {
      var four := content[consumed..consumed + 4];
      assert content[..consumed + 4] == content[..consumed] + four;
      WordsAppend(content[..consumed], four);
      assert four[4..] == [];
    }

    /** `Skip` (lines 200-204): `min(maxElementsCount, length / size)`
        elements and their bytes; the skip context is not touched. */
    function Skip(sequence: ByteSequence, maxElementsCount: int): (r: SequenceSize)
      reads this
      requires Valid()
      ensures r.elements <= maxElementsCount && r.elements <= sequence.Length() / elementSize
      ensures r.elements == maxElementsCount || r.elements == sequence.Length() / elementSize
      ensures r.bytes == r.elements * elementSize
      ensures maxElementsCount >= 0 ==> 0 <= r.bytes <= sequence.Length()
    {
      var count := Wrappers.Min(maxElementsCount, sequence.Length() / elementSize);
      SkippedBytesFit(sequence.Length(), elementSize, count);
      SequenceSize(count * elementSize, count)
    }

    static lemma SkippedBytesFit(length: nat, elementSize: nat, count: int)
      requires elementSize == 4 || elementSize == 8 || elementSize == 16
      requires count <= length / elementSize
      ensures count * elementSize <= length
    {
      DivMod(length, elementSize);
    }

    /** `EndRead` (lines 206-215): exactly the words read so far, whole
        elements only, with no check that every row was read. */
    function EndRead(): (column: DecimalTableColumn)
      reads this, values
      requires Valid()
      ensures column.words == values[..position] && column.scale == scale
      ensures column.wordsPerElement * 4 == elementSize
      ensures |column.words| % column.wordsPerElement == 0
      ensures |column.words| / column.wordsPerElement <= rowCount
    {
      DecimalTableColumn(values[..position], elementSize / 4, scale)
    }
  }
}
