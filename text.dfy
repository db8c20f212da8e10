/**
 * Decimal text of natural numbers and integers, as Python's `int(...)`
 * reads a run of ASCII digits and as `str(...)` renders an `int`.
 */
module Text {
  import opened Wrappers

  predicate IsDigit(c: char) {
    '0' <= c <= '9'
  }

  predicate AllDigits(s: string) {
    forall i :: 0 <= i < |s| ==> IsDigit(s[i])
  }

  function DigitValue(c: char): (d: nat)
    requires IsDigit(c)
    ensures d < 10
  {
    c as int - '0' as int
  }

  function DigitChar(d: nat): (c: char)
    requires d < 10
    ensures IsDigit(c) && DigitValue(c) == d
  {
    ('0' as int + d) as char
  }

  function Pow10(k: nat): (p: nat)
    ensures p >= 1
  {
    if k == 0 then 1 else 10 * Pow10(k - 1)
  }

  /** The value of a digit string, most significant digit first; "" reads as 0. */
  function DigitsValue(s: string): (n: nat)
    requires AllDigits(s)
    ensures n < Pow10(|s|)
  {
    if s == [] then 0
    else
      var n' := DigitsValue(s[..|s| - 1]);
      var d := DigitValue(s[|s| - 1]);
      assert n' * 10 + d < Pow10(|s|) by {
        assert n' + 1 <= Pow10(|s| - 1);
        assert (n' + 1) * 10 <= Pow10(|s| - 1) * 10;
      }
      n' * 10 + d
  }

  /** Appending a digit shifts the value one decimal place. */
  lemma DigitsValueSnoc(s: string, c: char)
    requires AllDigits(s) && IsDigit(c)
    ensures AllDigits(s + [c])
    ensures DigitsValue(s + [c]) == DigitsValue(s) * 10 + DigitValue(c)
  {
    assert (s + [c])[..|s|] == s;
  }

  /** Python's `str(n)` for `n >= 0`: the shortest decimal text of n. */
  function NatToText(n: nat): (s: string)
    ensures s != [] && AllDigits(s)
    ensures DigitsValue(s) == n
    ensures |s| > 1 ==> s[0] != '0'
  {
    if n < 10 then [DigitChar(n)]
    else
      var t := NatToText(n / 10);
      DigitsValueSnoc(t, DigitChar(n % 10));
      t + [DigitChar(n % 10)]
  }

  /** Python's `str(i)` for any `int`: a minus sign for negatives, then the digits of |i|. */
  function IntToText(i: int): (s: string)
    ensures s != []
    ensures i < 0 <==> s[0] == '-'
    ensures var digits := if i < 0 then s[1..] else s;
      digits != [] && AllDigits(digits) &&
      DigitsValue(digits) == (if i < 0 then -i else i)
    ensures var digits := if i < 0 then s[1..] else s;
      |digits| > 1 ==> digits[0] != '0'
  {
    if i < 0 then "-" + NatToText(-i) else NatToText(i)
  }

  /** Reads back the text of an int: an optional minus sign, then at least one digit. */
  function ReadIntText(s: string): Option<int> {
    if |s| > 1 && s[0] == '-' && AllDigits(s[1..]) then Some(0 - DigitsValue(s[1..]) as int)
    else if s != [] && AllDigits(s) then Some(DigitsValue(s) as int)
    else None
  }

  /** `str` and its reader round-trip on every int. */
  lemma ReadIntToText(i: int)
    ensures ReadIntText(IntToText(i)) == Some(i)
  {
    var s := IntToText(i);
    if i < 0 {
      assert s[1..] == NatToText(-i);
    } else {
      assert !IsDigit('-');
    }
  }
}
