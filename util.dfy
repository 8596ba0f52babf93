/**
  Shared helpers: an Option type, the machine integer ranges the sources
  use, decimal rendering and parsing of integers, character search in
  strings, and a sort specified by "sorted permutation".
 */
module Util {

  datatype Option<T> = None | Some(value: T)

  /** Go's `uint64`. */
  type uint64 = x: int | 0 <= x < 0x1_0000_0000_0000_0000

  /** One byte of a digest. */
  type byte = x: int | 0 <= x < 256

  // ---------------------------------------------------------------------
  // Decimal rendering (Go's %d and strconv.Itoa, JavaScript's `${n}`)
  // ---------------------------------------------------------------------

  predicate IsDigit(c: char) { '0' <= c <= '9' }

  function DigitChar(d: nat): (c: char)
    requires d < 10
    ensures IsDigit(c) && DigitValue(c) == d
  {
    "0123456789"[d]
  }

  function DigitValue(c: char): nat
    requires IsDigit(c)
  {
    (c as int) - ('0' as int)
  }

  /** Decimal numeral of a natural number, without leading zeros. */
  function NatToDecimal(n: nat): (s: string)
    ensures |s| > 0
    ensures forall i :: 0 <= i < |s| ==> IsDigit(s[i])
  {
    if n < 10 then [DigitChar(n)] else NatToDecimal(n / 10) + [DigitChar(n % 10)]
  }

  /** Decimal numeral of an integer: a minus sign for negative numbers. */
  function IntToDecimal(i: int): (s: string)
    ensures |s| > 0
    ensures forall k :: 0 <= k < |s| ==> IsDigit(s[k]) || (k == 0 && s[k] == '-')
  {
    if i < 0 then "-" + NatToDecimal(-i) else NatToDecimal(i)
  }

  /** Value of a string of decimal digits, most significant first. */
  function DigitsValue(s: string): nat
    requires forall i :: 0 <= i < |s| ==> IsDigit(s[i])
  {
    if s == [] then 0 else DigitsValue(s[..|s| - 1]) * 10 + DigitValue(s[|s| - 1])
  }

  lemma {:induction false} DigitsValueOfDecimal(n: nat)
    ensures DigitsValue(NatToDecimal(n)) == n
  {
    if n >= 10 {
      var s := NatToDecimal(n);
      assert s[..|s| - 1] == NatToDecimal(n / 10);
      DigitsValueOfDecimal(n / 10);
    }
  }

  /** Length of the longest prefix of `s` made of decimal digits. */
  function DigitPrefixLength(s: string): (k: nat)
    ensures k <= |s|
    ensures forall i :: 0 <= i < k ==> IsDigit(s[i])
    ensures k < |s| ==> !IsDigit(s[k])
  {
    if s == [] || !IsDigit(s[0]) then 0 else 1 + DigitPrefixLength(s[1..])
  }

  /**
    JavaScript's `parseInt(s, 10)` on strings without leading white space:
    an optional sign, then the longest run of decimal digits; `None` (NaN)
    when no digit follows the sign.
   */
  function ParseInt(s: string): (r: Option<int>)
  {
    var neg := |s| > 0 && s[0] == '-';
    var rest := if |s| > 0 && (s[0] == '-' || s[0] == '+') then s[1..] else s;
    var k := DigitPrefixLength(rest);
    if k == 0 then None
    else
      var v: int := DigitsValue(rest[..k]);
      Some(if neg then -v else v)
  }

  /** parseInt reads back every numeral IntToDecimal writes. */
  lemma IntToDecimalParses(i: int)
    ensures ParseInt(IntToDecimal(i)) == Some(i)
  {
    var n: nat := if i < 0 then -i else i;
    var digits := NatToDecimal(n);
    DigitsValueOfDecimal(n);
    var s := IntToDecimal(i);
    var rest := if |s| > 0 && (s[0] == '-' || s[0] == '+') then s[1..] else s;
    assert rest == digits;
    assert DigitPrefixLength(rest) == |digits| by {
      AllDigitsPrefix(digits);
    }
    assert rest[..|digits|] == digits;
  }

  lemma {:induction false} AllDigitsPrefix(s: string)
    requires forall i :: 0 <= i < |s| ==> IsDigit(s[i])
    ensures DigitPrefixLength(s) == |s|
  {
    if s != [] {
      AllDigitsPrefix(s[1..]);
    }
  }

  /** A natural-number numeral never contains a character other than a digit. */
  lemma DecimalHasNo(n: nat, c: char)
    requires !IsDigit(c)
    ensures c !in NatToDecimal(n)
  {
    var s := NatToDecimal(n);
    assert forall i :: 0 <= i < |s| ==> s[i] != c;
  }

  // ---------------------------------------------------------------------
  // Character search (String.prototype.indexOf / lastIndexOf on one char)
  // ---------------------------------------------------------------------

  /** Index of the first `c` in `s[i..]`, or -1. */
  function IndexFrom(s: string, c: char, i: nat): (r: int)
    requires i <= |s|
    decreases |s| - i
    ensures r == -1 || i <= r < |s|
    ensures r >= 0 ==> s[r] == c
    ensures forall j :: i <= j < |s| && (r == -1 || j < r) ==> s[j] != c
  {
    if i == |s| then -1 else if s[i] == c then i else IndexFrom(s, c, i + 1)
  }

  /** Index of the first `c` in `s`, or -1. */
  function IndexOf(s: string, c: char): int
  {
    IndexFrom(s, c, 0)
  }

  /** Index of the last `c` in `s[..n]`, or -1. */
  function IndexBelow(s: string, c: char, n: nat): (r: int)
    requires n <= |s|
    ensures -1 <= r < n
    ensures r >= 0 ==> s[r] == c
    ensures forall j :: r < j < n ==> s[j] != c
  {
    if n == 0 then -1 else if s[n - 1] == c then n - 1 else IndexBelow(s, c, n - 1)
  }

  /** Index of the last `c` in `s`, or -1. */
  function LastIndexOf(s: string, c: char): int
  {
    IndexBelow(s, c, |s|)
  }

  /** The last `c` of `a + [c] + b` is the separator when `b` holds no `c`. */
  lemma LastIndexOfSplit(a: string, c: char, b: string)
    requires c !in b
    ensures LastIndexOf(a + [c] + b, c) == |a|
  {
    var s := a + [c] + b;
    assert s[|a|] == c;
    assert forall j :: |a| < j < |s| ==> s[j] == b[j - |a| - 1];
  }

  /** The first `c` of `a + [c] + b` is the separator when `a` holds no `c`. */
  lemma IndexOfSplit(a: string, c: char, b: string)
    requires c !in a
    ensures IndexOf(a + [c] + b, c) == |a|
  {
    var s := a + [c] + b;
    assert s[|a|] == c;
    assert forall j :: 0 <= j < |a| ==> s[j] == a[j];
  }
}
