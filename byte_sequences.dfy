/** A `ReadOnlySequence<byte>`: the bytes received from the network, kept
    in the segments they arrived in. Readers only see the content through
    `FirstSpan`, `Slice` and `CopyTo`, so an element may straddle two
    segments. */
module ByteSequences {
  import opened Bytes

  /** The bytes of `segments`, in order. */
  function Concat(segments: seq<seq<Byte>>): seq<Byte> {
    if segments == [] then [] else segments[0] + Concat(segments[1..])
  }

  /** `segments` without its first `n` bytes; a segment cut in the middle
      keeps its tail. */
  function DropBytes(segments: seq<seq<Byte>>, n: nat): (r: seq<seq<Byte>>)
    requires n <= |Concat(segments)|
    ensures Concat(r) == Concat(segments)[n..]
  {
    if n == 0 then segments
    else if n >= |segments[0]| then
      DropBytes(segments[1..], n - |segments[0]|)
    else
      [segments[0][n..]] + segments[1..]
  }

  /** The first `n` bytes of `segments`, cut at the same segment borders. */
  function TakeBytes(segments: seq<seq<Byte>>, n: nat): (r: seq<seq<Byte>>)
    requires n <= |Concat(segments)|
    ensures Concat(r) == Concat(segments)[..n]
  {
    if n == 0 then []
    else if n <= |segments[0]| then
      assert Concat([segments[0][..n]]) == segments[0][..n];
      [segments[0][..n]]
    else
      [segments[0]] + TakeBytes(segments[1..], n - |segments[0]|)
  }

  datatype ByteSequence = ByteSequence(segments: seq<seq<Byte>>) {

    function Content(): seq<Byte> {
      Concat(segments)
    }

    function Length(): nat {
      |Content()|
    }

    predicate IsEmpty() {
      Length() == 0
    }

    /** The bytes of the first segment: always a prefix of the content,
        possibly shorter than one element, possibly empty. */
    function FirstSpan(): (span: seq<Byte>)
      ensures |span| <= Length() && span == Content()[..|span|]
    {
      if segments == [] then [] else segments[0]
    }

    /** `Slice(start)`: the sequence without its first `start` bytes. */
    function Slice(start: nat): (r: ByteSequence)
      requires start <= Length()
      ensures r.Content() == Content()[start..]
    {
      ByteSequence(DropBytes(segments, start))
    }

    /** `Slice(0, length)`: the first `length` bytes. */
    function Take(length: nat): (r: ByteSequence)
      requires length <= Length()
      ensures r.Content() == Content()[..length]
    {
      ByteSequence(TakeBytes(segments, length))
    }
  }
}
