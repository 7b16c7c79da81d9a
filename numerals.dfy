/**
 * Decimal text of integers, as JavaScript's number-to-string conversion
 * produces it for integer values (`'' + n`, `s += n`), and its inverse.
 */
module Numerals {
  import opened Options
  import opened Text

  predicate IsDigit(c: char) { '0' <= c <= '9' }

  predicate IsDigits(s: string) { forall i :: 0 <= i < |s| ==> IsDigit(s[i]) }

  function DigitValue(c: char): (d: nat)
    requires IsDigit(c)
    ensures d < 10
  {
    c as int - '0' as int
  }

  function DigitChar(d: nat): (c: char)
    requires d < 10
    ensures IsDigit(c) && DigitValue(c) == d
  {
    ('0' as int + d) as char
  }

  /** Shortest decimal numeral of `n`: digits only, no leading zero. */
  function NatToString(n: nat): (s: string)
    ensures 1 <= |s|
    ensures IsDigits(s)
    ensures s[0] == '0' <==> n == 0
    decreases n
  {
    if n < 10 then [DigitChar(n)] else NatToString(n / 10) + [DigitChar(n % 10)]
  }

  /** Value of a string of decimal digits (the empty string is 0). */
  function ParseNat(s: string): nat
    requires IsDigits(s)
  {
    if s == [] then 0 else 10 * ParseNat(s[..|s| - 1]) + DigitValue(s[|s| - 1])
  }

  lemma {:induction false} ParseNatToString(n: nat)
    ensures ParseNat(NatToString(n)) == n
    decreases n
  {
    if n >= 10 {
      var s := NatToString(n);
      assert s[..|s| - 1] == NatToString(n / 10);
      ParseNatToString(n / 10);
    }
  }

  /** Decimal text of an integer, with a leading `-` when it is negative. */
  function IntToString(i: int): (s: string)
    ensures 1 <= |s|
    ensures i >= 0 ==> IsDigits(s)
  {
    if i < 0 then "-" + NatToString(-i) else NatToString(i)
  }

  /** The text of an integer is digits, after a `-` exactly when it is negative. */
  lemma IntToStringCharacters(i: int)
    ensures var s := IntToString(i);
      (s[0] == '-' <==> i < 0) && forall k :: 0 < k < |s| ==> IsDigit(s[k])
    ensures var s := IntToString(i); forall k :: 0 <= k < |s| ==> IsDigit(s[k]) || s[k] == '-'
    ensures Occurrences(IntToString(i), '-') == if i < 0 then 1 else 0
  {
    var s := IntToString(i);
    if i < 0 {
      var d := NatToString(-i);
      assert s == "-" + d;
      assert s[1..] == d;
      assert forall k :: 0 < k < |s| ==> s[k] == d[k - 1];
      assert '-' !in d by { assert forall k :: 0 <= k < |d| ==> IsDigit(d[k]); }
      OccurrencesNone(d, '-');
      assert Occurrences(s, '-') == 1 + Occurrences(d, '-');
    } else {
      assert '-' !in s by { assert forall k :: 0 <= k < |s| ==> IsDigit(s[k]); }
      OccurrencesNone(s, '-');
    }
  }

  /** Reads back an optionally negative decimal numeral. */
  function ParseInt(s: string): Option<int> {
    if 2 <= |s| && s[0] == '-' && IsDigits(s[1..]) then Some(0 - ParseNat(s[1..]))
    else if 1 <= |s| && IsDigits(s) then Some(ParseNat(s))
    else None
  }

  lemma ParseIntToString(i: int)
    ensures ParseInt(IntToString(i)) == Some(i)
  {
    var s := IntToString(i);
    if i < 0 {
      assert s[1..] == NatToString(-i);
      ParseNatToString(-i);
    } else {
      ParseNatToString(i);
    }
  }
}
