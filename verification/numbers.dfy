/** Decimal text and integers: Python's `int(...)` on plain signed decimals,
    `str(...)` of an integer, and `max(...)` of a non-empty list. */
module Numbers {
  import opened Wrappers

  /** The regex class `\d` restricted to ASCII. */
  predicate IsDigit(c: char) {
    '0' <= c <= '9'
  }

  predicate AllDigits(s: string) {
    forall i :: 0 <= i < |s| ==> IsDigit(s[i])
  }

  function DigitValue(c: char): (d: nat)
    requires IsDigit(c)
    ensures d < 10
  {
    c as int - '0' as int
  }

  function DigitChar(d: nat): (c: char)
    requires d < 10
    ensures IsDigit(c) && DigitValue(c) == d
  {
    ('0' as int + d) as char
  }

  /** The value of a decimal digit string, most significant digit first. */
  function DigitsValue(s: string): nat
    requires AllDigits(s)
    decreases |s|
  {
    if |s| == 0 then 0 else DigitsValue(s[..|s| - 1]) * 10 + DigitValue(s[|s| - 1])
  }

  /** A digit string as `str(int)` prints it: no leading zero unless it is "0". */
  predicate CanonicalDigits(s: string) {
    |s| > 0 && AllDigits(s) && (s[0] != '0' || |s| == 1)
  }

  /** Python's `str(n)` for a non-negative integer. */
  function NatToString(n: nat): (s: string)
    ensures CanonicalDigits(s)
    decreases n
  {
    if n < 10 then [DigitChar(n)]
    else
      var r := NatToString(n / 10) + [DigitChar(n % 10)];
      assert r[0] == NatToString(n / 10)[0];
      r
  }

  /** Python's `str(i)` for any integer. */
  function IntToString(i: int): string {
    if i < 0 then "-" + NatToString(-i) else NatToString(i)
  }

  /** Python's `int(s)` on an already stripped string, restricted to an optional
      sign followed by ASCII digits; anything else raises (`None`). */
  function ParseInt(s: string): (r: Option<int>)
    ensures r.Some? ==> |s| > 0
  {
    if |s| > 1 && (s[0] == '+' || s[0] == '-') && AllDigits(s[1..]) then
      var v: int := DigitsValue(s[1..]);
      Some(if s[0] == '-' then -v else v)
    else if |s| > 0 && AllDigits(s) then Some(DigitsValue(s))
    else None
  }

  /** `max(nums)` for a non-empty list. */
  function MaxOf(nums: seq<int>): (m: int)
    requires |nums| > 0
    ensures m in nums
    ensures forall v :: v in nums ==> v <= m
  {
    if |nums| == 1 then nums[0]
    else
      var rest := MaxOf(nums[1..]);
      assert forall v :: v in nums ==> v == nums[0] || v in nums[1..];
      if nums[0] >= rest then nums[0] else rest
  }

  lemma DigitsValueSnoc(s: string, c: char)
    requires AllDigits(s) && IsDigit(c)
    ensures AllDigits(s + [c]) && DigitsValue(s + [c]) == DigitsValue(s) * 10 + DigitValue(c)
  {
    assert (s + [c])[..|s|] == s;
  }

  /** Reading back what `str` printed gives the number: `int(str(n)) == n`. */
  lemma {:induction false} ValueOfNatToString(n: nat)
    ensures DigitsValue(NatToString(n)) == n
    decreases n
  {
    if n >= 10 {
      ValueOfNatToString(n / 10);
      DigitsValueSnoc(NatToString(n / 10), DigitChar(n % 10));
    }
  }

  lemma {:induction false} LeadingDigitBound(s: string)
    requires CanonicalDigits(s) && |s| > 1
    ensures DigitsValue(s) >= 10
    decreases |s|
  {
    var t := s[..|s| - 1];
    if |t| == 1 {
      assert DigitValue(t[0]) >= 1;
      assert DigitsValue(t) == DigitsValue(t[..0]) * 10 + DigitValue(t[0]);
    } else {
      assert t[0] == s[0];
      LeadingDigitBound(t);
    }
  }

  /** Printing the value of a canonical digit string gives the string back:
      `str(int(s)) == s` exactly when `s` has no leading zero. */
  lemma {:induction false} NatToStringOfValue(s: string)
    requires CanonicalDigits(s)
    ensures NatToString(DigitsValue(s)) == s
    decreases |s|
  {
    if |s| > 1 {
      var t := s[..|s| - 1];
      assert t[0] == s[0];
      LeadingDigitBound(s);
      var n := DigitsValue(s);
      assert n / 10 == DigitsValue(t) && n % 10 == DigitValue(s[|s| - 1]);
      NatToStringOfValue(t);
      assert s == t + [s[|s| - 1]];
    }
  }

  /** `int(str(i)) == i` for every integer. */
  lemma ParseIntOfIntToString(i: int)
    ensures ParseInt(IntToString(i)) == Some(i)
  {
    if i < 0 {
      var s := "-" + NatToString(-i);
      assert s[1..] == NatToString(-i);
      ValueOfNatToString(-i);
    } else {
      ValueOfNatToString(i);
    }
  }

  /** Distinct integers print differently. */
  lemma IntToStringInjective(i: int, j: int)
    requires IntToString(i) == IntToString(j)
    ensures i == j
  {
    ParseIntOfIntToString(i);
    ParseIntOfIntToString(j);
  }
}
