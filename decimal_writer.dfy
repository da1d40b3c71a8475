/** `DecimalTypeInfoBase.DecimalWriter.WriteElement`: one .NET `decimal`
    becomes a 4-, 8- or 16-byte little-endian two's-complement integer equal
    to the value times `10^scale` of the column.

    The value is rounded half away from zero to at most 28 fractional
    digits, its 96-bit magnitude is split into four 32-bit words and
    multiplied by powers of ten with explicit carries, a negative value is
    negated in two's complement, and the result is range-checked against
    the element width before any byte is written. */
module DecimalWriter {
  import opened Wrappers
  import opened Bytes
  import opened HostTypes

  const B1: nat := 0x1_0000_0000
  const B2: nat := 0x1_0000_0000_0000_0000
  const B3: nat := 0x1_0000_0000_0000_0000_0000_0000
  const B4: nat := 0x1_0000_0000_0000_0000_0000_0000_0000_0000
  const MaxWord: nat := 0xFFFF_FFFF
  /** `unchecked((uint) int.MinValue)`: the sign bit of a word. */
  const SignBit: nat := 0x8000_0000

  /** `Scales[k - 1] == 10^k`: the multipliers of one rescaling step. */
  const Scales: seq<nat> := [10, 100, 1_000, 10_000, 100_000, 1_000_000, 10_000_000, 100_000_000, 1_000_000_000]

  /** The four 32-bit words of the 128-bit working value, least significant
      first. */
  datatype Words = Words(lowLow: Word, lowHigh: Word, highLow: Word, highHigh: Word)

  function Value(w: Words): (v: nat)
    ensures v < B4
  {
    w.lowLow + B1 * w.lowHigh + B2 * w.highLow + B3 * w.highHigh
  }

  /** The weight of word `k`: `2^(32 k)`. */
  function Weight(k: nat): nat
    requires k <= 4
  {
    if k == 0 then 1 else if k == 1 then B1 else if k == 2 then B2 else if k == 3 then B3 else B4
  }

  function WordAt(w: Words, k: nat): Word
    requires k < 4
  {
    if k == 0 then w.lowLow else if k == 1 then w.lowHigh else if k == 2 then w.highLow else w.highHigh
  }

  function WithWord(w: Words, k: nat, x: Word): Words
    requires k < 4
  {
    if k == 0 then w.(lowLow := x)
    else if k == 1 then w.(lowHigh := x)
    else if k == 2 then w.(highLow := x)
    else w.(highHigh := x)
  }

  /** Splitting `carry + word k` into a new word `k` and a carry into word
      `k + 1` keeps the represented value. */
  lemma CarryStep(w: Words, k: nat, carry: nat)
    requires k < 4
    ensures var v := carry + WordAt(w, k);
            Value(WithWord(w, k, v % B1)) + (v / B1) * Weight(k + 1) == Value(w) + carry * Weight(k)
  {
    var v := carry + WordAt(w, k);
    assert v == B1 * (v / B1) + v % B1;
    if k == 0 {
    } else if k == 1 {
      assert (v / B1) * B2 == B1 * (v / B1) * B1;
    } else if k == 2 {
      assert (v / B1) * B3 == B1 * (v / B1) * B2;
    } else {
      assert (v / B1) * B4 == B1 * (v / B1) * B3;
    }
  }

  /** Adds `carry` at word `k` and propagates it upwards, as the nested
      `if (val != 0) { val += word; word = (uint) val; val >>= 32; ... }`
      blocks do; the flag is set when a non-zero carry leaves the top word. */
  function AddCarry(w: Words, k: nat, carry: nat): (r: (Words, bool))
    requires 1 <= k <= 4
    ensures !r.1 ==> Value(r.0) == Value(w) + carry * Weight(k)
    ensures r.1 ==> Value(w) + carry * Weight(k) >= B4
    decreases 4 - k
  {
    if carry == 0 then (w, false)
    else if k == 4 then (w, true)
    else
      var v := carry + WordAt(w, k);
      CarryStep(w, k, carry);
      AddCarry(WithWord(w, k, v % B1), k + 1, v / B1)
  }

  /** The four products of the words with `m`, each split into its low word
      and its high part. */
  datatype Products = Products(lows: Words, c0: nat, c1: nat, c2: nat, c3: nat)

  /** Multiplying the word vector by `m` word by word: the low halves of the
      four products plus the four high halves, each one word up. */
  function Multiply(w: Words, m: nat): (p: Products)
    ensures Value(w) * m == Value(p.lows) + p.c0 * B1 + p.c1 * B2 + p.c2 * B3 + p.c3 * B4
  {
    var p0, p1, p2, p3 := w.lowLow * m, w.lowHigh * m, w.highLow * m, w.highHigh * m;
    ProductSplit(w, m, p0, p1, p2, p3);
    Products(Words(p0 % B1, p1 % B1, p2 % B1, p3 % B1), p0 / B1, p1 / B1, p2 / B1, p3 / B1)
  }

  lemma ProductSplit(w: Words, m: nat, p0: nat, p1: nat, p2: nat, p3: nat)
    requires p0 == w.lowLow * m && p1 == w.lowHigh * m && p2 == w.highLow * m && p3 == w.highHigh * m
    ensures Value(w) * m
              == Value(Words(p0 % B1, p1 % B1, p2 % B1, p3 % B1))
                 + (p0 / B1) * B1 + (p1 / B1) * B2 + (p2 / B1) * B3 + (p3 / B1) * B4
  {
    var x := B1 * w.lowHigh + B2 * w.highLow + B3 * w.highHigh;
    var y := B2 * w.highLow + B3 * w.highHigh;
    MulDistrib(m, w.lowLow, x);
    MulDistrib(m, B1 * w.lowHigh, y);
    MulDistrib(m, B2 * w.highLow, B3 * w.highHigh);
    MulAssoc(m, B1, w.lowHigh);
    MulAssoc(m, B2, w.highLow);
    MulAssoc(m, B3, w.highHigh);
    assert Value(w) * m == p0 + B1 * p1 + B2 * p2 + B3 * p3;
    assert p0 == B1 * (p0 / B1) + p0 % B1;
    assert p1 == B1 * (p1 / B1) + p1 % B1;
    assert p2 == B1 * (p2 / B1) + p2 % B1;
    assert p3 == B1 * (p3 / B1) + p3 % B1;
  }

  /** One pass of the `while (deltaScale > 0)` loop body: multiply by `m`,
      propagate the four carries, and flag overflow as soon as a carry leaves
      the top word. */
  method MultiplyStep(w: Words, m: nat) returns (r: Words, overflow: bool)
    ensures !overflow ==> Value(r) == Value(w) * m
    ensures overflow ==> Value(w) * m >= B4
  {
    var p := Multiply(w, m);
    var r0 := AddCarry(p.lows, 1, p.c0);
    if r0.1 { return r0.0, true; }
    var r1 := AddCarry(r0.0, 2, p.c1);
    if r1.1 { return r1.0, true; }
    var r2 := AddCarry(r1.0, 3, p.c2);
    if r2.1 { return r2.0, true; }
    var r3 := AddCarry(r2.0, 4, p.c3);
    return r3.0, r3.1;
  }

  lemma ScalesArePowersOfTen(k: nat)
    requires 1 <= k <= |Scales|
    ensures Scales[k - 1] == Pow(10, k)
  {
    assert Pow(10, 9) == 1_000_000_000;
  }

  lemma PowMonotone(b: nat, m: nat, n: nat)
    requires b > 0 && m <= n
    ensures Pow(b, m) <= Pow(b, n)
  {
    PowAdd(b, m, n - m);
    MulMonotone(Pow(b, m), 1, Pow(b, n - m));
  }

  lemma StepKeepsProduct(v: nat, done: nat, step: nat, total: nat, multiplier: nat, current: nat, next: nat)
    requires total == done + step && multiplier == Pow(10, step)
    requires current == v * Pow(10, done) && next == current * multiplier
    ensures next == v * Pow(10, total)
  {
    PowAdd(10, done, step);
    MulAssoc(v, Pow(10, done), Pow(10, step));
  }

  /** Once a partial product overflows, the full product does too. */
  lemma OverflowPersists(v: nat, done: nat, step: nat, total: nat, multiplier: nat, current: nat)
    requires done + step <= total && multiplier == Pow(10, step)
    requires current == v * Pow(10, done) && current * multiplier >= B4
    ensures v * Pow(10, total) >= B4
  {
    StepKeepsProduct(v, done, step, done + step, multiplier, current, current * multiplier);
    PowMonotone(10, done + step, total);
    MulMonotone(v, Pow(10, done + step), Pow(10, total));
  }

  lemma StepInvariant(v: nat, done: nat, step: nat, total: nat, multiplier: nat, power: nat,
                      current: nat, next: nat, overflowed: bool)
    requires 1 <= step <= |Scales| && done + step <= total && multiplier == Scales[step - 1]
    requires power == Pow(10, done) && current == v * power
    requires !overflowed ==> next == current * multiplier
    requires overflowed ==> current * multiplier >= B4
    ensures !overflowed ==> power * multiplier == Pow(10, done + step) && next == v * (power * multiplier)
    ensures overflowed ==> v * Pow(10, total) >= B4
  {
    ScalesArePowersOfTen(step);
    PowAdd(10, done, step);
    MulAssoc(v, power, multiplier);
    if overflowed {
      OverflowPersists(v, done, step, total, multiplier, current);
    }
  }

  /** Rescaling by `10^deltaScale` (lines 248-334): unless the flag is set,
      the words hold the exact product, and the flag is set exactly when the
      product does not fit in 128 bits. */
  method Rescale(start: Words, deltaScale0: nat) returns (w: Words, overflow: bool)
    ensures !overflow ==> Value(w) == Value(start) * Pow(10, deltaScale0)
    ensures overflow <==> Value(start) * Pow(10, deltaScale0) >= B4
  {
    w, overflow := start, false;
    var deltaScale: nat := deltaScale0;
    ghost var done: nat := 0;
    ghost var power: nat := 1;
    while deltaScale > 0
      invariant done + deltaScale == deltaScale0
      invariant power == Pow(10, done)
      invariant Value(w) == Value(start) * power
    {
      var iterationScale := Min(deltaScale, |Scales|);
      deltaScale := deltaScale - iterationScale;
      var multiplier := Scales[iterationScale - 1];
      var next, stepOverflow := MultiplyStep(w, multiplier);
      StepInvariant(Value(start), done, iterationScale, deltaScale0, multiplier, power, Value(w), Value(next), stepOverflow);
      if stepOverflow {
        w, overflow := next, true;
        break;
      }
      done, power := done + iterationScale, power * multiplier;
      w := next;
    }
  }

  /** `unchecked(max - x)` on 32-bit words, where `max` is either zero or
      `uint.MaxValue`. */
  function SubWord(max: nat, x: Word): (r: Word)
    requires max == 0 || max == MaxWord
    ensures max == MaxWord ==> r == MaxWord - x
    ensures max == 0 && x == 0 ==> r == 0
    ensures max == 0 && x != 0 ==> r == B1 - x
  {
    var r := (max - x) % B1;
    if max == 0 && x != 0 then
      DivModUnique(max - x, B1, -1, B1 - x);
      r
    else
      DivModUnique(max - x, B1, 0, max - x);
      r
  }

  /** Two's-complement negation of the word vector (lines 340-351): the low
      word is subtracted from zero, and every higher word is subtracted from
      zero while all lower words are zero and from `uint.MaxValue` after. */
  method Negate(w: Words) returns (r: Words)
    ensures Value(r) == (B4 - Value(w)) % B4
  {
    var lowLow := SubWord(0, w.lowLow);
    var max := if lowLow == 0 then 0 else MaxWord;
    var lowHigh := SubWord(max, w.lowHigh);
    if lowHigh != 0 && max == 0 {
      max := MaxWord;
    }
    var highLow := SubWord(max, w.highLow);
    if highLow != 0 && max == 0 {
      max := MaxWord;
    }
    var highHigh := SubWord(max, w.highHigh);
    r := Words(lowLow, lowHigh, highLow, highHigh);
    if Value(w) == 0 {
      DivModUnique(B4 - Value(w), B4, 1, 0);
    } else {
      DivModUnique(B4 - Value(w), B4, 0, B4 - Value(w));
    }
  }

  /** The element-width check of lines 353-371 on the (possibly negated)
      words: a negative result must have all bits above the element's sign
      bit set, a non-negative one all of them clear. */
  function RangeOverflow(w: Words, negative: bool, elementSize: nat): bool {
    if negative then
      if elementSize == 4 then
        w.highHigh != MaxWord || w.highLow != MaxWord || w.lowHigh != MaxWord || w.lowLow < SignBit
      else if elementSize == 8 then
        w.highHigh != MaxWord || w.highLow != MaxWord || w.lowHigh < SignBit
      else
        w.highHigh < SignBit
    else
      if elementSize == 4 then
        w.highHigh != 0 || w.highLow != 0 || w.lowHigh != 0 || w.lowLow >= SignBit
      else if elementSize == 8 then
        w.highHigh != 0 || w.highLow != 0 || w.lowHigh >= SignBit
      else
        w.highHigh >= SignBit
  }

  function HalfRange(elementSize: nat): nat {
    if elementSize == 4 then 0x8000_0000
    else if elementSize == 8 then 0x8000_0000_0000_0000
    else 0x8000_0000_0000_0000_0000_0000_0000_0000
  }

  /** The check reads the words as a 128-bit two's-complement number `x`
      and fails exactly when `x` lies outside `[-2^(8n-1), 2^(8n-1))`. */
  lemma RangeOverflowMeaning(w: Words, elementSize: nat)
    requires elementSize == 4 || elementSize == 8 || elementSize == 16
    ensures RangeOverflow(w, false, elementSize) <==> Value(w) >= HalfRange(elementSize)
    ensures RangeOverflow(w, true, elementSize) <==> Value(w) < B4 - HalfRange(elementSize)
  {
  }

  /** `Math.Round(x, MidpointRounding.AwayFromZero)` of the non-negative
      quotient `m / q`: the nearest integer, halves going up. */
  function RoundHalfAwayFromZero(m: nat, q: nat): (r: nat)
    requires q > 0
    ensures -(q as int) <= 2 * (m - q * r) < q
    ensures q > 1 ==> r <= m
  {
    var r := (2 * m + q) / (2 * q);
    RoundingBounds(m, q, r);
    r
  }

  lemma RoundingBounds(m: nat, q: nat, r: nat)
    requires q > 0 && r == (2 * m + q) / (2 * q)
    ensures -(q as int) <= 2 * (m - q * r) < q
    ensures q > 1 ==> r <= m
  {
    var d := 2 * q;
    var rem := (2 * m + q) % d;
    assert 2 * m + q == d * r + rem && 0 <= rem < d;
    assert d * r == 2 * (q * r) by {
      MulAssoc(2, q, r);
    }
    if q > 1 {
      RoundedNotLarger(m, q, r);
    }
  }

  lemma RoundedNotLarger(m: nat, q: nat, r: nat)
    requires q > 1 && 2 * (q * r) <= 2 * m + q
    ensures r <= m
  {
    if r > m {
      assert q * r >= q * (m + 1) by {
        MulMonotone(q, m + 1, r);
      }
      assert q * (m + 1) == q * m + q by {
        MulDistrib(q, m, 1);
      }
      assert q * m >= m by {
        MulMonotone(m, 1, q);
      }
    }
  }

  /** `Math.Round(value, digits, MidpointRounding.AwayFromZero)`: a value
      with more than `digits` fractional digits is rounded to exactly
      `digits`; any other value is returned as it is. */
  function Round(value: NetDecimal, digits: nat): (r: NetDecimal)
    ensures r.negative == value.negative
    ensures r.scale == Min(value.scale, digits)
    ensures value.scale <= digits ==> r == value
    ensures value.scale > digits ==>
              var q := Pow(10, value.scale - digits);
              -(q as int) <= 2 * (value.magnitude - q * r.magnitude) < q
  {
    if value.scale <= digits then value
    else
      var q := Pow(10, value.scale - digits);
      assert q > 1 by {
        assert q == 10 * Pow(10, value.scale - digits - 1);
      }
      DecimalBits(value.negative, RoundHalfAwayFromZero(value.magnitude, q), digits)
  }

  /** The rounded value `WriteElement` starts from (line 233). */
  function Rounded(value: NetDecimal, scale: nat): NetDecimal {
    Round(value, Min(scale, MaxDecimalScale))
  }

  /** The magnitude of the integer stored for `value` in a column of the
      given scale: the rounded magnitude times `10^(scale - rounded scale)`. */
  function WireMagnitude(value: NetDecimal, scale: nat): nat {
    var r := Rounded(value, scale);
    r.magnitude * Pow(10, scale - r.scale)
  }

  /** The signed integer stored for `value`: `value * 10^scale`, rounded. */
  function WireValue(value: NetDecimal, scale: nat): int {
    if Rounded(value, scale).negative then -(WireMagnitude(value, scale) as int) else WireMagnitude(value, scale)
  }

  /** The asymmetric range of an `n`-byte element: a positive magnitude must
      be below `2^(8n-1)`, a negative one may reach it. */
  predicate Fits(value: NetDecimal, scale: nat, elementSize: nat) {
    if Rounded(value, scale).negative then WireMagnitude(value, scale) <= HalfRange(elementSize)
    else WireMagnitude(value, scale) < HalfRange(elementSize)
  }

  /** The words one place down: `lowHigh`, `highLow`, `highHigh`, then zero. */
  function Shift(w: Words): (r: Words)
    ensures Value(w) == w.lowLow + B1 * Value(r)
  {
    Words(w.lowHigh, w.highLow, w.highHigh, 0)
  }

  /** The bytes lines 377-391 write: `count` words, the low word first. */
  function WordBytes(w: Words, count: nat): (r: seq<Byte>)
    ensures |r| == 4 * count
    decreases count
  {
    if count == 0 then [] else LeBytes(w.lowLow, 4) + WordBytes(Shift(w), count - 1)
  }

  /** The bytes of `x + 2^32 y` are the four bytes of the word `x` followed
      by the bytes of `y`. */
  lemma LeBytesOfWordAndRest(v: nat, x: Word, y: nat, n: nat)
    requires v == x + B1 * y
    ensures LeBytes(v, 4 + n) == LeBytes(x, 4) + LeBytes(y, n)
  {
    var p := Pow(256, 4);
    assert p == B1 by {
      PowOf256();
    }
    LeBytesSplit(v, 4, n);
    DivModUnique(v, p, y, x);
    LeBytesLow(x, y, 4);
    assert x + p * y == v;
  }

  /** Those bytes are the low `4 * count` bytes of the 128-bit value. */
  lemma {:induction false} WordBytesAreLowBytes(w: Words, count: nat)
    ensures WordBytes(w, count) == LeBytes(Value(w), 4 * count)
    decreases count
  {
    if count > 0 {
      WordBytesAreLowBytes(Shift(w), count - 1);
      LeBytesOfWordAndRest(Value(w), w.lowLow, Value(Shift(w)), 4 * (count - 1));
    }
  }

  /** A value below half the element range is stored as it is. */
  lemma NonNegativeSlot(v: nat, elementSize: nat)
    requires elementSize == 4 || elementSize == 8 || elementSize == 16
    requires v < HalfRange(elementSize)
    ensures LeBytes(v, elementSize) == TwosComplementBytes(v, elementSize)
  {
    PowOf256();
    DivModUnique(v, Pow(256, elementSize), 0, v);
  }

  /** The 128-bit negation of `m` has the same low bytes as the
      two's-complement of `-m` in a narrower element. */
  lemma NegativeSlot(m: nat, elementSize: nat)
    requires elementSize == 4 || elementSize == 8 || elementSize == 16
    requires 0 < m <= HalfRange(elementSize)
    ensures LeBytes(B4 - m, elementSize) == TwosComplementBytes(-(m as int), elementSize)
  {
    PowOf256();
    var p := Pow(256, elementSize);
    var k: nat;
    if elementSize == 4 {
      k := B3 - 1;
      assert p * k == B4 - p;
    } else if elementSize == 8 {
      k := B2 - 1;
      assert p * k == B4 - p;
    } else {
      k := 0;
      assert p * k == B4 - p;
    }
    var x := p - m;
    assert (-(m as int)) % p == x by {
      DivModUnique(-(m as int), p, -1, x);
    }
    assert B4 - m == x + p * k;
    LeBytesLow(x, k, elementSize);
  }

  /** Once every check has passed, the words written are the
      two's-complement bytes of the signed value. */
  lemma SlotBytes(w: Words, negative: bool, m: nat, elementSize: nat)
    requires elementSize == 4 || elementSize == 8 || elementSize == 16
    requires if negative then m <= HalfRange(elementSize) else m < HalfRange(elementSize)
    requires negative ==> Value(w) == (B4 - m) % B4
    requires !negative ==> Value(w) == m
    ensures WordBytes(w, elementSize / 4) == TwosComplementBytes(if negative then -(m as int) else m, elementSize)
  {
    assert WordBytes(w, elementSize / 4) == LeBytes(Value(w), elementSize) by {
      WordBytesAreLowBytes(w, elementSize / 4);
      assert 4 * (elementSize / 4) == elementSize;
    }
    if !negative {
      NonNegativeSlot(m, elementSize);
    } else if m == 0 {
      assert Value(w) == 0 by {
        DivModUnique(B4, B4, 1, 0);
      }
      NonNegativeSlot(0, elementSize);
    } else {
      assert Value(w) == B4 - m by {
        DivModUnique(B4 - m, B4, 0, B4 - m);
      }
      NegativeSlot(m, elementSize);
    }
  }

  /** The 96-bit magnitude as `decimal.GetBits` gives it, in the three low
      words; the top word starts at zero. */
  function MagnitudeWords(magnitude: nat): (w: Words)
    requires magnitude < DecimalMagnitudeBound
    ensures Value(w) == magnitude
  {
    var w := Words(magnitude % B1, (magnitude / B1) % B1, magnitude / B2, 0);
    DivDiv(magnitude, B1, B1);
    w
  }

  lemma ZeroProduct(a: nat, b: nat)
    requires b > 0
    ensures a * b == 0 <==> a == 0
  {
    if a > 0 {
      MulMonotone(b, 1, a);
    }
  }

  /** For a negated non-zero magnitude `m`, the 128-bit pattern is below
      `2^128 - H` exactly when `m` exceeds `H`. */
  lemma NegatedRange(m: nat, negated: nat, elementSize: nat)
    requires m < B4 && negated == (B4 - m) % B4
    ensures m > 0 ==> (negated < B4 - HalfRange(elementSize) <==> m > HalfRange(elementSize))
  {
    if m > 0 {
      DivModUnique(B4 - m, B4, 0, B4 - m);
    }
  }

  /** Lines 233-375: rounding, rescaling, negation and the range check.
      The check fails exactly when the value does not fit; otherwise the
      words hold the element's bytes. */
  method Encode(elementSize: nat, scale: nat, value: NetDecimal) returns (w: Words, overflow: bool)
    requires elementSize == 4 || elementSize == 8 || elementSize == 16
    ensures overflow <==> !Fits(value, scale, elementSize)
    ensures !overflow ==> WordBytes(w, elementSize / 4) == TwosComplementBytes(WireValue(value, scale), elementSize)
  {
    var rescaledValue := Round(value, Min(scale, MaxDecimalScale));
    w := MagnitudeWords(rescaledValue.magnitude);
    var isNegative := rescaledValue.negative;
    var deltaScale := scale - rescaledValue.scale;
    ghost var m := WireMagnitude(value, scale);
    assert m == rescaledValue.magnitude * Pow(10, deltaScale);
    ZeroProduct(rescaledValue.magnitude, Pow(10, deltaScale));

    w, overflow := Rescale(w, deltaScale);
    if !overflow {
      if isNegative {
        w := Negate(w);
        RangeOverflowMeaning(w, elementSize);
        overflow := RangeOverflow(w, true, elementSize);
        if overflow && rescaledValue.magnitude == 0 {
          overflow := false;
        }
        NegatedRange(m, Value(w), elementSize);
      } else {
        RangeOverflowMeaning(w, elementSize);
        overflow := RangeOverflow(w, false, elementSize);
      }
    }
    if !overflow {
      SlotBytes(w, isNegative, m, elementSize);
    }
  }

  /** `WriteElement`: the element is written only when the value fits; then
      the slot holds the two's-complement bytes of `WireValue`, and nothing
      else in `dest` changes. On overflow nothing is written at all. */
  method WriteElement(dest: array<Byte>, offset: nat, elementSize: nat, scale: nat, value: NetDecimal)
    returns (r: Result<()>)
    requires elementSize == 4 || elementSize == 8 || elementSize == 16
    requires offset + elementSize <= dest.Length
    modifies dest
    ensures r.Ok? <==> Fits(value, scale, elementSize)
    ensures r.Err? ==> r.error == Overflow && dest[..] == old(dest[..])
    ensures r.Ok? ==> dest[..] == old(dest[..offset])
                                  + TwosComplementBytes(WireValue(value, scale), elementSize)
                                  + old(dest[offset + elementSize..])
  {
    var w, overflow := Encode(elementSize, scale, value);
    if overflow {
      return Err(Overflow);
    }
    WriteBytes(dest, offset, WordBytes(w, elementSize / 4));
    r := Ok(());
  }

  /** Copies `bytes` into `dest` at `offset` (`TryWriteBytes`, `CopyTo`). */
  method WriteBytes(dest: array<Byte>, offset: nat, bytes: seq<Byte>)
    requires offset + |bytes| <= dest.Length
    modifies dest
    ensures dest[..] == old(dest[..offset]) + bytes + old(dest[offset + |bytes|..])
  {
    for t := 0 to |bytes|
      invariant dest[..offset] == old(dest[..offset])
      invariant dest[offset..offset + t] == bytes[..t]
      invariant dest[offset + |bytes|..] == old(dest[offset + |bytes|..])
    {
      dest[offset + t] := bytes[t];
    }
    assert dest[..] == dest[..offset] + dest[offset..offset + |bytes|] + dest[offset + |bytes|..];
  }

  /** The asymmetric check of lines 353-371 accepts exactly the values of
      the element's two's-complement range. */
  lemma FitsIsSignedRange(value: NetDecimal, scale: nat, elementSize: nat)
    requires elementSize == 4 || elementSize == 8 || elementSize == 16
    ensures Fits(value, scale, elementSize) <==>
              -SignedBound(elementSize) <= WireValue(value, scale) < SignedBound(elementSize)
  {
    PowOf256();
    assert SignedBound(elementSize) == HalfRange(elementSize);
  }

  /** Decoding the written slot as a signed little-endian integer gives
      back the stored value. */
  lemma WrittenSlotDecodes(value: NetDecimal, scale: nat, elementSize: nat)
    requires elementSize == 4 || elementSize == 8 || elementSize == 16
    requires Fits(value, scale, elementSize)
    ensures LeSigned(TwosComplementBytes(WireValue(value, scale), elementSize)) == WireValue(value, scale)
  {
    FitsIsSignedRange(value, scale, elementSize);
    TwosComplementRoundTrip(WireValue(value, scale), elementSize);
  }

  /** A value with no more fractional digits than the column is not
      rounded: it is stored as `±magnitude * 10^(scale - value.scale)`. */
  lemma ExactWhenScaleFits(value: NetDecimal, scale: nat)
    requires value.scale <= scale
    ensures WireValue(value, scale) == (if value.negative then -1 else 1) * value.magnitude * Pow(10, scale - value.scale)
  {
    assert Rounded(value, scale) == value;
    var p := Pow(10, scale - value.scale);
    var m := value.magnitude * p;
    assert WireMagnitude(value, scale) == m;
    if value.negative {
      assert -1 * value.magnitude * p == -m;
    } else {
      assert 1 * value.magnitude * p == m;
    }
  }

  /** The values that fit are symmetric but for one: `-2^(8n-1)` is
      accepted while `2^(8n-1)` overflows. */
  lemma AsymmetricBound(magnitude: nat, scale: nat, elementSize: nat)
    requires elementSize == 4 || elementSize == 8 || elementSize == 16
    requires magnitude < DecimalMagnitudeBound && scale <= MaxDecimalScale
    ensures Fits(DecimalBits(true, magnitude, scale), scale, elementSize) <==> magnitude <= HalfRange(elementSize)
    ensures Fits(DecimalBits(false, magnitude, scale), scale, elementSize) <==> magnitude < HalfRange(elementSize)
  {
    assert Pow(10, 0) == 1;
  }

  /** The limits of a `Decimal(7, 3)` column (4-byte elements): 2147483.647
      and -2147483.648 are written, 2147483.648 and -2147483.649 overflow;
      1.23456 is stored as 1235 and -1.2345 as -1235 (half away from zero). */
  lemma Decimal32Limits()
    ensures Fits(DecimalBits(false, 2147483647, 3), 3, 4)
    ensures !Fits(DecimalBits(false, 2147483648, 3), 3, 4)
    ensures Fits(DecimalBits(true, 2147483648, 3), 3, 4)
    ensures !Fits(DecimalBits(true, 2147483649, 3), 3, 4)
    ensures WireValue(DecimalBits(false, 123456, 5), 3) == 1235
    ensures WireValue(DecimalBits(true, 12345, 4), 3) == -1235
  {
    AsymmetricBound(2147483647, 3, 4);
    AsymmetricBound(2147483648, 3, 4);
    AsymmetricBound(2147483649, 3, 4);
    assert Pow(10, 2) == 100;
    assert Pow(10, 1) == 10;
  }
}
