/** Bytes, machine words and the little-endian conversions of
    `System.BitConverter` that every fixed-width codec relies on. Integers are
    unbounded here; each machine width is a subset type. */
module Bytes {

  type Byte = x: int | 0 <= x < 0x100
  type UInt16 = x: int | 0 <= x < 0x1_0000
  type Int16 = x: int | -0x8000 <= x < 0x8000
  /** A `uint`: one 32-bit word. */
  type Word = x: int | 0 <= x < 0x1_0000_0000

  const WordBase: int := 0x1_0000_0000

  function Pow(b: nat, e: nat): (r: nat)
    ensures b > 0 ==> r > 0
  {
    if e == 0 then 1 else b * Pow(b, e - 1)
  }

  /** Half of the range of an `n`-byte field: the bound of its signed values. */
  function SignedBound(n: nat): int {
    Pow(256, n) / 2
  }

  lemma {:induction false} PowAdd(b: nat, m: nat, n: nat)
    ensures Pow(b, m + n) == Pow(b, m) * Pow(b, n)
  {
    if m > 0 {
      PowAdd(b, m - 1, n);
      var x, y := Pow(b, m - 1), Pow(b, n);
      assert Pow(b, m + n) == b * Pow(b, m - 1 + n);
      MulAssoc(b, x, y);
    }
  }

  lemma PowOf256()
    ensures Pow(256, 1) == 0x100 && Pow(256, 2) == 0x1_0000
    ensures Pow(256, 4) == 0x1_0000_0000 && Pow(256, 8) == 0x1_0000_0000_0000_0000
    ensures Pow(256, 12) == 0x1_0000_0000_0000_0000_0000_0000
    ensures Pow(256, 16) == 0x1_0000_0000_0000_0000_0000_0000_0000_0000
  {
    PowAdd(256, 2, 2);
    PowAdd(256, 4, 4);
    PowAdd(256, 8, 4);
    PowAdd(256, 8, 8);
  }

  /** Quotient and remainder are determined by the division equation. */
  lemma DivModUnique(a: int, d: int, q: int, r: int)
    requires 0 < d && 0 <= r < d && a == d * q + r
    ensures a / d == q && a % d == r
  {
    var e := q - a / d;
    assert d * e == a % d - r;
    SmallMultipleIsZero(d, e);
  }

  /** The division equation of Euclidean `/` and `%`. */
  lemma DivMod(a: int, d: int)
    requires d > 0
    ensures a == d * (a / d) + a % d && 0 <= a % d < d
  {
  }

  lemma SmallMultipleIsZero(d: int, e: int)
    requires d > 0 && -d < d * e < d
    ensures e == 0
  {
  }

  lemma MulDistrib(a: int, b: int, c: int)
    ensures a * (b + c) == a * b + a * c
  {
  }

  lemma MulAssoc(a: int, b: int, c: int)
    ensures a * (b * c) == (a * b) * c
  {
  }

  lemma MulMonotone(a: nat, b: int, c: int)
    requires b <= c
    ensures a * b <= a * c
  {
  }

  lemma DivDiv(x: nat, a: nat, b: nat)
    requires a > 0 && b > 0
    ensures x / a / b == x / (a * b)
  {
    var q, r1 := x / a, x % a;
    var q2, r2 := q / b, q % b;
    assert x == a * q + r1;
    assert q == b * q2 + r2;
    MulDistrib(a, b * q2, r2);
    MulAssoc(a, b, q2);
    assert a * q == (a * b) * q2 + a * r2;
    MulMonotone(a, r2, b - 1);
    MulDistrib(a, b, -1);
    DivModUnique(x, a * b, q2, a * r2 + r1);
  }

  /** The `n` low bytes of `x`, least significant first (what
      `BitConverter.TryWriteBytes` stores on a little-endian host). */
  function LeBytes(x: nat, n: nat): (r: seq<Byte>)
    ensures |r| == n
  {
    if n == 0 then [] else [x % 256] + LeBytes(x / 256, n - 1)
  }

  /** The unsigned little-endian value of `bs` (`BitConverter.ToUInt16/32`). */
  function LeValue(bs: seq<Byte>): (v: nat)
    ensures v < Pow(256, |bs|)
  {
    if bs == [] then 0 else bs[0] + 256 * LeValue(bs[1..])
  }

  /** The signed (two's-complement) little-endian value of `bs`
      (`BitConverter.ToInt16` for two bytes). */
  function LeSigned(bs: seq<Byte>): (v: int)
    requires |bs| > 0
    ensures -SignedBound(|bs|) <= v < SignedBound(|bs|)
  {
    var u := LeValue(bs);
    var p := Pow(256, |bs|);
    var half := 128 * Pow(256, |bs| - 1);
    assert p == 2 * half;
    DivModUnique(p, 2, half, 0);
    if u >= p / 2 then u - p else u
  }

  /** The bytes of `x` in an `n`-byte two's-complement field. */
  function TwosComplementBytes(x: int, n: nat): (r: seq<Byte>)
    ensures |r| == n
  {
    LeBytes(x % Pow(256, n), n)
  }

  lemma {:induction false} LeValueOfLeBytes(x: nat, n: nat)
    ensures LeValue(LeBytes(x, n)) == x % Pow(256, n)
  {
    if n > 0 {
      var p := Pow(256, n - 1);
      var q := x / 256;
      LeValueOfLeBytes(q, n - 1);
      assert LeValue(LeBytes(x, n)) == x % 256 + 256 * (q % p) by {
        assert LeBytes(x, n)[1..] == LeBytes(q, n - 1);
      }
      assert x == (256 * p) * (q / p) + (x % 256 + 256 * (q % p)) by {
        DivMod(q, p);
        DivMod(x, 256);
        MulDistrib(256, p * (q / p), q % p);
        MulAssoc(256, p, q / p);
      }
      DivModUnique(x, 256 * p, q / p, x % 256 + 256 * (q % p));
    }
  }

  lemma {:induction false} LeBytesOfLeValue(bs: seq<Byte>)
    ensures LeBytes(LeValue(bs), |bs|) == bs
  {
    if bs != [] {
      LeBytesOfLeValue(bs[1..]);
      var v := LeValue(bs);
      assert v % 256 == bs[0] && v / 256 == LeValue(bs[1..]);
    }
  }

  lemma {:induction false} LeValueAppend(a: seq<Byte>, b: seq<Byte>)
    ensures LeValue(a + b) == LeValue(a) + Pow(256, |a|) * LeValue(b)
  {
    if a != [] {
      assert (a + b)[0] == a[0] && (a + b)[1..] == a[1..] + b;
      LeValueAppend(a[1..], b);
      var p, u, v := Pow(256, |a| - 1), LeValue(a[1..]), LeValue(b);
      assert LeValue(a + b) == a[0] + 256 * (u + p * v);
      assert LeValue(a) == a[0] + 256 * u;
      MulDistrib(256, u, p * v);
      MulAssoc(256, p, v);
      assert Pow(256, |a|) == 256 * p;
      assert LeValue(a + b) == LeValue(a) + (256 * p) * v;
    } else {
      assert a + b == b;
    }
  }

  /** Writing `x + 256^n * y` into `n` bytes keeps only `x`'s bytes. */
  lemma {:induction false} LeBytesLow(x: nat, y: nat, n: nat)
    ensures LeBytes(x + Pow(256, n) * y, n) == LeBytes(x, n)
  {
    if n > 0 {
      var p := Pow(256, n - 1);
      var z := x + Pow(256, n) * y;
      assert z == 256 * (x / 256 + p * y) + x % 256;
      DivModUnique(z, 256, x / 256 + p * y, x % 256);
      LeBytesLow(x / 256, y, n - 1);
    }
  }

  /** The first `m + n` bytes are the first `m` bytes followed by the `n`
      bytes of what is left after dividing by `256^m`. */
  lemma {:induction false} LeBytesSplit(x: nat, m: nat, n: nat)
    ensures LeBytes(x, m + n) == LeBytes(x, m) + LeBytes(x / Pow(256, m), n)
  {
    if m > 0 {
      LeBytesSplit(x / 256, m - 1, n);
      DivDiv(x, 256, Pow(256, m - 1));
      assert LeBytes(x, m + n) == [x % 256] + LeBytes(x / 256, m - 1 + n);
    }
  }

  /** Two's-complement encoding into `n` bytes followed by the signed decode
      gives back every value of the `n`-byte range. */
  lemma TwosComplementRoundTrip(x: int, n: nat)
    requires n > 0
    requires -SignedBound(n) <= x < SignedBound(n)
    ensures LeSigned(TwosComplementBytes(x, n)) == x
  {
    var p := Pow(256, n);
    assert p == 256 * Pow(256, n - 1);
    assert SignedBound(n) * 2 == p;
    if x < 0 {
      DivModUnique(x, p, -1, x + p);
      DivModUnique(x + p, p, 0, x + p);
      LeValueOfLeBytes(x + p, n);
      assert LeValue(TwosComplementBytes(x, n)) == x + p;
    } else {
      DivModUnique(x, p, 0, x);
      LeValueOfLeBytes(x, n);
      assert LeValue(TwosComplementBytes(x, n)) == x;
    }
  }

  /** `BitConverter.ToUInt16`: the first two bytes, little-endian. */
  function ToUInt16(bs: seq<Byte>): (v: UInt16)
    requires |bs| >= 2
    ensures v == bs[0] as int + 256 * (bs[1] as int)
  {
    assert bs[..2][0] == bs[0] && bs[..2][1..] == [bs[1]] && [bs[1]][1..] == [];
    assert LeValue([bs[1]]) == bs[1];
    LeValue(bs[..2])
  }

  /** `BitConverter.ToUInt32`: the first four bytes, little-endian. */
  function ToUInt32(bs: seq<Byte>): (v: Word)
    requires |bs| >= 4
    ensures v == LeValue(bs[..4])
  {
    PowOf256();
    LeValue(bs[..4])
  }

  /** `BitConverter.ToInt16`: the first two bytes as a two's-complement
      little-endian integer. */
  function ToInt16(bs: seq<Byte>): (v: Int16)
    requires |bs| >= 2
    ensures v == LeSigned(bs[..2])
  {
    PowOf256();
    LeSigned(bs[..2])
  }
}
