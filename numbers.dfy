/** Integer text as the invariant culture reads and writes it:
    `int.TryParse(s, NumberStyles.Integer, CultureInfo.InvariantCulture, out v)`
    and `string.Format(CultureInfo.InvariantCulture, "{0}", n)`. */
module Numbers {
  import opened Wrappers

  const Int32Min: int := -0x8000_0000
  const Int32Max: int := 0x7FFF_FFFF

  predicate IsDigit(c: char) {
    '0' <= c <= '9'
  }

  /** The white space `NumberStyles.AllowLeadingWhite/AllowTrailingWhite`
      skip: U+0009 to U+000D and U+0020. */
  predicate IsWhite(c: char) {
    c == ' ' || ('\t' <= c <= '\r')
  }

  /** The first index at or after `i` whose character is not white. */
  function WhiteEnd(s: string, i: nat): (j: nat)
    requires i <= |s|
    ensures i <= j <= |s|
    ensures forall t :: i <= t < j ==> IsWhite(s[t])
    ensures j < |s| ==> !IsWhite(s[j])
    decreases |s| - i
  {
    if i < |s| && IsWhite(s[i]) then WhiteEnd(s, i + 1) else i
  }

  /** The first index at or after `i` whose character is not a digit. */
  function DigitsEnd(s: string, i: nat): (j: nat)
    requires i <= |s|
    ensures i <= j <= |s|
    ensures forall t :: i <= t < j ==> IsDigit(s[t])
    ensures j < |s| ==> !IsDigit(s[j])
    decreases |s| - i
  {
    if i < |s| && IsDigit(s[i]) then DigitsEnd(s, i + 1) else i
  }

  /** The value of a string of decimal digits, most significant first. */
  function DigitsValue(s: string): nat
    requires forall t :: 0 <= t < |s| ==> IsDigit(s[t])
  {
    if s == [] then 0
    else
      assert IsDigit(s[|s| - 1]);
      10 * DigitsValue(s[..|s| - 1]) + (s[|s| - 1] as int - '0' as int)
  }

  /** `int.TryParse` with `NumberStyles.Integer`: optional white space, an
      optional `+` or `-`, one or more digits, optional white space, then
      only NUL characters; `None` when the text does not have that shape or
      its value lies outside the 32-bit range. */
  function ParseInt32(s: string): (r: Option<int>)
    ensures r.Some? ==> Int32Min <= r.value <= Int32Max
  {
    var i0 := WhiteEnd(s, 0);
    var negative := i0 < |s| && s[i0] == '-';
    var i1 := if i0 < |s| && (s[i0] == '-' || s[i0] == '+') then i0 + 1 else i0;
    var i2 := DigitsEnd(s, i1);
    var i3 := WhiteEnd(s, i2);
    if i2 == i1 || exists t :: i3 <= t < |s| && s[t] != '\0' then None
    else
      var magnitude := DigitsValue(s[i1..i2]);
      var v: int := if negative then -(magnitude as int) else magnitude;
      if Int32Min <= v <= Int32Max then Some(v) else None
  }

  /** The invariant-culture decimal text of `n`: digits only, no leading
      zero except for `0` itself. */
  function NatToString(n: nat): (s: string)
    ensures |s| > 0 && forall t :: 0 <= t < |s| ==> IsDigit(s[t])
    ensures |s| > 1 ==> s[0] != '0'
  {
    if n < 10 then [('0' as int + n) as char]
    else NatToString(n / 10) + [('0' as int + n % 10) as char]
  }

  /** `string.Format(InvariantCulture, "{0}", n)` for a 32-bit signed `n`. */
  function IntToString(n: int): (s: string)
    ensures |s| > 0
  {
    if n < 0 then "-" + NatToString(-n) else NatToString(n)
  }

  lemma {:induction false} DigitsValueOfNatToString(n: nat)
    ensures DigitsValue(NatToString(n)) == n
  {
    if n >= 10 {
      DigitsValueOfNatToString(n / 10);
      var s := NatToString(n);
      assert s[..|s| - 1] == NatToString(n / 10);
    }
  }

  /** Formatting then parsing gives the number back. */
  lemma ParseFormattedNat(n: nat)
    requires n <= Int32Max
    ensures ParseInt32(NatToString(n)) == Some(n)
  {
    var s := NatToString(n);
    assert WhiteEnd(s, 0) == 0;
    assert DigitsEnd(s, 0) == |s| by {
      DigitsEndOfDigits(s, 0);
    }
    assert s[0..|s|] == s;
    DigitsValueOfNatToString(n);
  }

  lemma {:induction false} DigitsEndOfDigits(s: string, i: nat)
    requires i <= |s|
    requires forall t :: i <= t < |s| ==> IsDigit(s[t])
    ensures DigitsEnd(s, i) == |s|
    decreases |s| - i
  {
    if i < |s| {
      DigitsEndOfDigits(s, i + 1);
    }
  }
}
