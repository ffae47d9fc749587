/**
 * Lexicographic order on strings as Python compares `str` values (code point by
 * code point, a proper prefix first), and the decimal digit fields of a string.
 */
module Strings {

  /** `a <= b` for Python strings. */
  predicate StrLe(a: string, b: string)
    decreases |a|
  {
    if a == [] then true
    else if b == [] then false
    else if a[0] != b[0] then a[0] < b[0]
    else StrLe(a[1..], b[1..])
  }

  lemma {:induction false} StrLeTotal(a: string, b: string)
    ensures StrLe(a, b) || StrLe(b, a)
    decreases |a|
  {
    if a != [] && b != [] && a[0] == b[0] {
      StrLeTotal(a[1..], b[1..]);
    }
  }

  lemma {:induction false} StrLeTransitive(a: string, b: string, c: string)
    requires StrLe(a, b) && StrLe(b, c)
    ensures StrLe(a, c)
    decreases |a|
  {
    if a != [] && b != [] && c != [] && a[0] == b[0] && b[0] == c[0] {
      StrLeTransitive(a[1..], b[1..], c[1..]);
    }
  }

  /** Two strings of one length that compare `<=` and differ first differ at a position where `a` is smaller. */
  lemma {:induction false} FirstDifference(a: string, b: string) returns (k: nat)
    requires |a| == |b| && StrLe(a, b) && a != b
    ensures k < |a| && a[..k] == b[..k] && a[k] < b[k]
    decreases |a|
  {
    if a[0] != b[0] {
      k := 0;
    } else {
      assert a == [a[0]] + a[1..] && b == [b[0]] + b[1..];
      var k' := FirstDifference(a[1..], b[1..]);
      k := k' + 1;
      assert a[..k] == [a[0]] + a[1..][..k'];
      assert b[..k] == [b[0]] + b[1..][..k'];
    }
  }

  predicate IsDigit(c: char) {
    '0' <= c <= '9'
  }

  predicate AllDigits(s: string) {
    forall i :: 0 <= i < |s| ==> IsDigit(s[i])
  }

  function DigitValue(c: char): (d: nat)
    requires IsDigit(c)
    ensures d <= 9
  {
    (c as int) - ('0' as int)
  }

  /** The value of a string of decimal digits, most significant first. */
  function Number(s: string): nat
    requires AllDigits(s)
    decreases |s|
  {
    if s == [] then 0 else Number(s[..|s| - 1]) * 10 + DigitValue(s[|s| - 1])
  }

  /** Decimal fields of one width compare as numbers exactly as they compare as strings. */
  lemma {:induction false} NumberStrictlyMonotone(x: string, y: string, k: nat)
    requires AllDigits(x) && AllDigits(y) && |x| == |y| && k < |x|
    requires x[..k] == y[..k] && x[k] < y[k]
    ensures Number(x) < Number(y)
    decreases |x|
  {
    var n := |x|;
    var x', y' := x[..n - 1], y[..n - 1];
    if k == n - 1 {
      assert x' == y';
      assert DigitValue(x[n - 1]) < DigitValue(y[n - 1]);
    } else {
      assert x'[..k] == x[..k] && y'[..k] == y[..k];
      NumberStrictlyMonotone(x', y', k);
    }
  }
}
