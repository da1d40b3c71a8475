/** `UuidTypeInfo`: the 16-byte UUID column. On the wire a UUID is its
    128-bit value as two 64-bit little-endian halves, the high half first;
    a `Guid` keeps the same value as `(a, b, c, d, ..., k)`. */
module UuidTypeInfo {
  import opened Wrappers
  import opened Bytes
  import opened HostTypes

  const TypeName: string := "UUID"
  /** The element size of the reader and of the writer (lines 59, 76). */
  const ElementSize: nat := 16

  /** The row check of `CreateColumnWriter` (lines 38-44): only a list of
      `Guid`. */
  function WriterRows(rows: HostRows): (r: Result<seq<Guid>>)
    ensures r.Ok? <==> rows.GuidRows?
    ensures r.Ok? ==> r.value == rows.guids
    ensures r.Err? ==> r.error == TypeNotSupported
  {
    if rows.GuidRows? then Ok(rows.guids) else Err(TypeNotSupported)
  }

  /** The high 64 bits of the UUID: `a`, then `b`, then `c`. */
  function High(u: Guid): nat {
    (u.a * 0x1_0000 + u.b) * 0x1_0000 + u.c
  }

  /** The low 64 bits of the UUID: `d` down to `k`. */
  function Low(u: Guid): nat {
    ((((((u.d * 0x100 + u.e) * 0x100 + u.f) * 0x100 + u.g) * 0x100 + u.h) * 0x100 + u.i) * 0x100 + u.j) * 0x100 + u.k
  }

  /** The ClickHouse wire form of a UUID. */
  function WireBytes(u: Guid): (bytes: seq<Byte>)
    ensures |bytes| == ElementSize
  {
    LeBytes(High(u), 8) + LeBytes(Low(u), 8)
  }

  /** `UuidReader.ReadElement` (lines 63-70): `c`, `b` and `a` little-endian
      from bytes 0-1, 2-3 and 4-7, then `d` to `k` from bytes 15 down to 8.
      That is exactly the UUID whose wire form the slot holds. */
  function ReadElement(source: seq<Byte>): (u: Guid)
    requires |source| >= ElementSize
    ensures WireBytes(u) == source[..ElementSize]
  {
    var c := ToUInt16(source[0..]);
    var b := ToUInt16(source[2..]);
    var a := ToUInt32(source[4..]);
    var u := Guid(a, b, c, source[15], source[14], source[13], source[12], source[11], source[10], source[9], source[8]);
    assert WireBytes(u) == source[..ElementSize] by {
      ReadHalves(source, u);
    }
    u
  }

  lemma ReadHalves(source: seq<Byte>, u: Guid)
    requires |source| >= ElementSize
    requires u.c == ToUInt16(source[0..]) && u.b == ToUInt16(source[2..]) && u.a == ToUInt32(source[4..])
    requires u.d == source[15] && u.e == source[14] && u.f == source[13] && u.g == source[12]
    requires u.h == source[11] && u.i == source[10] && u.j == source[9] && u.k == source[8]
    ensures WireBytes(u) == source[..ElementSize]
  {
    var high, low := source[..8], source[8..16];
    assert High(u) == LeValue(high) by {
      assert source[4..][..4] == high[4..];
      HighValue(high, u);
    }
    assert Low(u) == LeValue(low) by {
      LowValue(low, u);
    }
    LeBytesOfLeValue(high);
    LeBytesOfLeValue(low);
    assert source[..ElementSize] == high + low;
  }

  lemma HighValue(high: seq<Byte>, u: Guid)
    requires |high| == 8
    requires u.c == high[0] as int + 0x100 * (high[1] as int) && u.b == high[2] as int + 0x100 * (high[3] as int)
    requires u.a == LeValue(high[4..])
    ensures High(u) == LeValue(high)
  {
    assert LeValue(high[3..]) == high[3] + 0x100 * LeValue(high[4..]) by {
      assert high[3..][1..] == high[4..];
    }
    assert LeValue(high[2..]) == high[2] + 0x100 * LeValue(high[3..]) by {
      assert high[2..][1..] == high[3..];
    }
    assert LeValue(high[1..]) == high[1] + 0x100 * LeValue(high[2..]) by {
      assert high[1..][1..] == high[2..];
    }
  }

  lemma LowValue(low: seq<Byte>, u: Guid)
    requires |low| == 8
    requires u.d == low[7] && u.e == low[6] && u.f == low[5] && u.g == low[4]
    requires u.h == low[3] && u.i == low[2] && u.j == low[1] && u.k == low[0]
    ensures Low(u) == LeValue(low)
  {
    assert LeValue(low[7..]) == low[7] by {
      assert low[7..][1..] == [];
    }
    assert LeValue(low[6..]) == low[6] + 0x100 * LeValue(low[7..]) by {
      assert low[6..][1..] == low[7..];
    }
    assert LeValue(low[5..]) == low[5] + 0x100 * LeValue(low[6..]) by {
      assert low[5..][1..] == low[6..];
    }
    assert LeValue(low[4..]) == low[4] + 0x100 * LeValue(low[5..]) by {
      assert low[4..][1..] == low[5..];
    }
    assert LeValue(low[3..]) == low[3] + 0x100 * LeValue(low[4..]) by {
      assert low[3..][1..] == low[4..];
    }
    assert LeValue(low[2..]) == low[2] + 0x100 * LeValue(low[3..]) by {
      assert low[2..][1..] == low[3..];
    }
    assert LeValue(low[1..]) == low[1] + 0x100 * LeValue(low[2..]) by {
      assert low[1..][1..] == low[2..];
    }
  }

  /** What `Guid.TryWriteBytes` produces: `a`, `b` and `c` little-endian,
      then `d` to `k`. */
  function NetBytes(u: Guid): (bytes: seq<Byte>)
    ensures |bytes| == ElementSize
  {
    LeBytes(u.a, 4) + LeBytes(u.b, 2) + LeBytes(u.c, 2) + [u.d, u.e, u.f, u.g, u.h, u.i, u.j, u.k]
  }

  /** The index a byte of a 16-byte slot trades places with when each half
      of the slot is reversed. */
  function Mirror(k: nat): (m: nat)
    requires k < ElementSize
    ensures m < ElementSize && (m < 8 <==> k < 8) && (m + k == 7 || m + k == 23)
  {
    if k < 8 then 7 - k else 23 - k
  }

  /** Both halves of a 16-byte slot reversed, what the swap loop of
      `UuidWriter.WriteElement` leaves behind. */
  function SwapHalves(s: seq<Byte>): (r: seq<Byte>)
    requires |s| == ElementSize
    ensures |r| == ElementSize && forall k :: 0 <= k < ElementSize ==> r[k] == s[Mirror(k)]
  {
    seq(ElementSize, k requires 0 <= k < ElementSize => s[Mirror(k)])
  }

  /** Swapping twice restores the slot: the loop is an involution. */
  lemma SwapHalvesInvolution(s: seq<Byte>)
    requires |s| == ElementSize
    ensures SwapHalves(SwapHalves(s)) == s
  {
    var t := SwapHalves(SwapHalves(s));
    forall k | 0 <= k < ElementSize
      ensures t[k] == s[k]
    {
      assert Mirror(Mirror(k)) == k;
    }
  }

  /** After `i` rounds of the swap loop, the bytes at offset `j < i` or
      `j >= 8 - i` of each half have traded places. */
  predicate Swapped(k: nat, i: nat) {
    k % 8 < i || 7 - k % 8 < i
  }

  /** The slot after `i` rounds of the swap loop. */
  function PartlySwapped(s: seq<Byte>, i: nat): (r: seq<Byte>)
    requires |s| == ElementSize
    ensures |r| == ElementSize
  {
    seq(ElementSize, k requires 0 <= k < ElementSize => if Swapped(k, i) then s[Mirror(k)] else s[k])
  }

  /** One round of the loop trades the bytes `i` and `7 - i`, and `8 + i`
      and `15 - i`. */
  lemma SwapRound(s: seq<Byte>, i: nat)
    requires |s| == ElementSize && i < 4
    ensures var t := PartlySwapped(s, i);
            t[i := t[7 - i]][7 - i := t[i]][8 + i := t[15 - i]][15 - i := t[8 + i]] == PartlySwapped(s, i + 1)
  {
  }

  lemma FourRounds(s: seq<Byte>)
    requires |s| == ElementSize
    ensures PartlySwapped(s, 4) == SwapHalves(s) && PartlySwapped(s, 0) == s
  {
  }

  /** `UuidWriter.WriteElement` (lines 80-95): the .NET byte layout of the
      `Guid`, then bytes 0-7 and bytes 8-15 each reversed in place. */
  method WriteElement(writeTo: array<Byte>, value: Guid)
    requires writeTo.Length >= ElementSize
    modifies writeTo
    ensures writeTo[..ElementSize] == SwapHalves(NetBytes(value))
    ensures writeTo[ElementSize..] == old(writeTo[ElementSize..])
  {
    var net := NetBytes(value);
    ghost var rest := writeTo[ElementSize..];
    for k := 0 to ElementSize
      invariant writeTo[..k] == net[..k]
      invariant writeTo[ElementSize..] == rest
    {
      writeTo[k] := net[k];
    }
    FourRounds(net);
    for i := 0 to 4
      invariant writeTo[..ElementSize] == PartlySwapped(net, i)
      invariant writeTo[ElementSize..] == rest
    {
      SwapRound(net, i);
      var tmp := writeTo[i];
      writeTo[i] := writeTo[7 - i];
      writeTo[7 - i] := tmp;

      tmp := writeTo[8 + i];
      writeTo[8 + i] := writeTo[15 - i];
      writeTo[15 - i] := tmp;
    }
  }

  /** Byte order reversed within a 16-bit value. */
  function Swap16(x: UInt16): (r: UInt16)
    ensures r % 0x100 == x / 0x100 && r / 0x100 == x % 0x100
  {
    (x % 0x100) * 0x100 + x / 0x100
  }

  /** Byte order reversed within a 32-bit value: the bytes of `x`, least
      significant first, become the most significant first. */
  function Swap32(x: Word): (r: Word) {
    ((x % 0x100 * 0x100 + x / 0x100 % 0x100) * 0x100 + x / 0x1_0000 % 0x100) * 0x100 + x / 0x100_0000
  }

  /** Reading back what the writer wrote keeps `d` to `k` but reverses the
      bytes of `a`, `b` and `c`: the writer is not the reader's inverse. */
  lemma ReadWrittenElement(value: Guid)
    ensures ReadElement(SwapHalves(NetBytes(value)))
            == value.(a := Swap32(value.a), b := Swap16(value.b), c := Swap16(value.c))
  {
    var s := SwapHalves(NetBytes(value));
    var net := NetBytes(value);
    PowOf256();
    assert net[..4] == LeBytes(value.a, 4);
    assert net[4..6] == LeBytes(value.b, 2);
    assert net[6..8] == LeBytes(value.c, 2);
    assert s[0..2] == [net[7], net[6]];
    assert s[2..4] == [net[5], net[4]];
    assert s[4..8] == [net[3], net[2], net[1], net[0]];
    assert ToUInt16(s[0..]) == Swap16(value.c) by {
      LeBytesDigits16(value.c);
    }
    assert ToUInt16(s[2..]) == Swap16(value.b) by {
      LeBytesDigits16(value.b);
    }
    assert ToUInt32(s[4..]) == Swap32(value.a) by {
      LeBytesDigits32(value.a);
      assert s[4..][..4] == [net[3], net[2], net[1], net[0]];
      SwappedWord(value.a, net[0], net[1], net[2], net[3]);
    }
  }

  lemma LeBytesDigits16(x: UInt16)
    ensures LeBytes(x, 2) == [x % 0x100, x / 0x100]
  {
    assert LeBytes(x / 0x100, 1) == [x / 0x100 % 0x100] + LeBytes(x / 0x100 / 0x100, 0);
  }

  lemma LeBytesDigits32(x: Word)
    ensures LeBytes(x, 4) == [x % 0x100, x / 0x100 % 0x100, x / 0x1_0000 % 0x100, x / 0x100_0000]
  {
    var x1 := x / 0x100;
    var x2 := x1 / 0x100;
    var x3 := x2 / 0x100;
    DivDiv(x, 0x100, 0x100);
    DivDiv(x, 0x1_0000, 0x100);
    assert LeBytes(x3, 1) == [x3 % 0x100] + LeBytes(x3 / 0x100, 0);
    assert LeBytes(x2, 2) == [x2 % 0x100] + LeBytes(x3, 1);
    assert LeBytes(x1, 3) == [x1 % 0x100] + LeBytes(x2, 2);
  }

  lemma SwappedWord(x: Word, b0: Byte, b1: Byte, b2: Byte, b3: Byte)
    requires LeBytes(x, 4) == [b0, b1, b2, b3]
    ensures LeValue([b3, b2, b1, b0]) == Swap32(x)
  {
    LeBytesDigits32(x);
    assert b0 == x % 0x100 && b1 == x / 0x100 % 0x100 && b2 == x / 0x1_0000 % 0x100 && b3 == x / 0x100_0000;
    assert LeValue([b0]) == b0 by {
      assert [b0][1..] == [];
    }
    assert LeValue([b1, b0]) == b1 + 0x100 * LeValue([b0]) by {
      assert [b1, b0][1..] == [b0];
    }
    assert LeValue([b2, b1, b0]) == b2 + 0x100 * LeValue([b1, b0]) by {
      assert [b2, b1, b0][1..] == [b1, b0];
    }
    assert LeValue([b3, b2, b1, b0]) == b3 + 0x100 * LeValue([b2, b1, b0]) by {
      assert [b3, b2, b1, b0][1..] == [b2, b1, b0];
    }
  }

  /** The slot the writer should produce: the wire form the reader decodes. */
  function CorrectedWriteBytes(u: Guid): (bytes: seq<Byte>)
    ensures bytes == WireBytes(u)
  {
    var net := NetBytes(u);
    var bytes := net[6..8] + net[4..6] + net[0..4] + SwapHalves(net)[8..];
    assert bytes == WireBytes(u) by {
      CorrectedLayout(u);
    }
    bytes
  }

  lemma CorrectedLayout(u: Guid)
    ensures NetBytes(u)[6..8] + NetBytes(u)[4..6] + NetBytes(u)[0..4] + SwapHalves(NetBytes(u))[8..] == WireBytes(u)
  {
    var wire := WireBytes(u);
    var r := ReadElement(wire);
    assert wire[..ElementSize] == wire;
    GuidOfWire(u, r);
    var net := NetBytes(u);
    assert net[0..4] == LeBytes(u.a, 4) && net[4..6] == LeBytes(u.b, 2) && net[6..8] == LeBytes(u.c, 2);
    assert wire[0..2] == LeBytes(u.c, 2) by {
      LeBytesOfLeValue(wire[0..2]);
      assert wire[0..][..2] == wire[0..2];
    }
    assert wire[2..4] == LeBytes(u.b, 2) by {
      LeBytesOfLeValue(wire[2..4]);
      assert wire[2..][..2] == wire[2..4];
    }
    assert wire[4..8] == LeBytes(u.a, 4) by {
      PowOf256();
      LeBytesOfLeValue(wire[4..8]);
      assert wire[4..][..4] == wire[4..8];
    }
    assert wire == wire[0..2] + wire[2..4] + wire[4..8] + wire[8..];
  }

  /** Two UUIDs with the same wire form are the same UUID. */
  lemma GuidOfWire(u: Guid, r: Guid)
    requires WireBytes(r) == WireBytes(u)
    ensures r == u
  {
    PowOf256();
    LeValueOfLeBytes(High(u), 8);
    LeValueOfLeBytes(High(r), 8);
    LeValueOfLeBytes(Low(u), 8);
    LeValueOfLeBytes(Low(r), 8);
    assert WireBytes(u)[..8] == LeBytes(High(u), 8) && WireBytes(r)[..8] == LeBytes(High(r), 8);
    assert WireBytes(u)[8..] == LeBytes(Low(u), 8) && WireBytes(r)[8..] == LeBytes(Low(r), 8);
    HighInjective(u, r);
    LowInjective(u, r);
  }

  lemma HighInjective(u: Guid, r: Guid)
    requires High(u) % 0x1_0000_0000_0000_0000 == High(r) % 0x1_0000_0000_0000_0000
    ensures u.a == r.a && u.b == r.b && u.c == r.c
  {
    DivModUnique(High(u), 0x1_0000_0000_0000_0000, 0, High(u));
    DivModUnique(High(r), 0x1_0000_0000_0000_0000, 0, High(r));
    DivModUnique(High(u), 0x1_0000, u.a * 0x1_0000 + u.b, u.c);
    DivModUnique(High(r), 0x1_0000, r.a * 0x1_0000 + r.b, r.c);
    DivModUnique(u.a * 0x1_0000 + u.b, 0x1_0000, u.a, u.b);
    DivModUnique(r.a * 0x1_0000 + r.b, 0x1_0000, r.a, r.b);
  }

  lemma LowInjective(u: Guid, r: Guid)
    requires Low(u) % 0x1_0000_0000_0000_0000 == Low(r) % 0x1_0000_0000_0000_0000
    ensures u.d == r.d && u.e == r.e && u.f == r.f && u.g == r.g
    ensures u.h == r.h && u.i == r.i && u.j == r.j && u.k == r.k
  {
    assert Low(u) == LeValue([u.k, u.j, u.i, u.h, u.g, u.f, u.e, u.d]) by {
      LowValue([u.k, u.j, u.i, u.h, u.g, u.f, u.e, u.d], u);
    }
    assert Low(r) == LeValue([r.k, r.j, r.i, r.h, r.g, r.f, r.e, r.d]) by {
      LowValue([r.k, r.j, r.i, r.h, r.g, r.f, r.e, r.d], r);
    }
    PowOf256();
    DivModUnique(Low(u), 0x1_0000_0000_0000_0000, 0, Low(u));
    DivModUnique(Low(r), 0x1_0000_0000_0000_0000, 0, Low(r));
    LeBytesOfLeValue([u.k, u.j, u.i, u.h, u.g, u.f, u.e, u.d]);
    LeBytesOfLeValue([r.k, r.j, r.i, r.h, r.g, r.f, r.e, r.d]);
  }

  /** The corrected writer's slot reads back as the same UUID. */
  lemma CorrectedRoundTrip(u: Guid)
    ensures ReadElement(CorrectedWriteBytes(u)) == u
  {
    var wire := CorrectedWriteBytes(u);
    assert wire[..ElementSize] == wire;
    GuidOfWire(u, ReadElement(wire));
  }

  /** The UUID 74D47928-2423-4FE2-AD45-82E296BF6058 as the server sends it,
      and what each side makes of it. */
  const KnownGuid: Guid := Guid(0x74D4_7928, 0x2423, 0x4FE2, 0xAD, 0x45, 0x82, 0xE2, 0x96, 0xBF, 0x60, 0x58)
  const KnownWire: seq<Byte> :=
    [0xE2, 0x4F, 0x23, 0x24, 0x28, 0x79, 0xD4, 0x74, 0x58, 0x60, 0xBF, 0x96, 0xE2, 0x82, 0x45, 0xAD]

  /** The reader decodes the known UUID, so its wire form is the server's
      bytes and the corrected writer produces them. */
  lemma KnownUuidRead()
    ensures ReadElement(KnownWire) == KnownGuid
    ensures WireBytes(KnownGuid) == KnownWire && CorrectedWriteBytes(KnownGuid) == KnownWire
  {
    KnownWireWord();
    assert ToUInt16(KnownWire[0..]) == 0x4FE2 && ToUInt16(KnownWire[2..]) == 0x2423;
    assert KnownWire[..ElementSize] == KnownWire;
  }

  /** Bytes 4-7 of the known wire form are its `a` field. */
  lemma KnownWireWord()
    ensures ToUInt32(KnownWire[4..]) == 0x74D4_7928
  {
    var w := KnownWire[4..][..4];
    assert w == [0x28, 0x79, 0xD4, 0x74];
    SwappedWord(0x2879_D474, 0x74, 0xD4, 0x79, 0x28);
  }

  /** The writer as written does not produce the known UUID's wire form, and
      what it produces reads back as a different UUID. */
  lemma KnownUuidWritten()
    ensures SwapHalves(NetBytes(KnownGuid)) != KnownWire
    ensures ReadElement(SwapHalves(NetBytes(KnownGuid))) != KnownGuid
  {
    var net := NetBytes(KnownGuid);
    assert net[6..8] == LeBytes(0x4FE2, 2);
    LeBytesDigits16(0x4FE2);
    assert SwapHalves(net)[0] == net[7] == 0x4F;
    ReadWrittenElement(KnownGuid);
    assert Swap16(0x4FE2) == 0xE24F;
  }
}
