/** Decimal numerals over ASCII digits: `Integer.parseInt` on the digit runs
    the version pattern captures, and the decimal text `StringBuilder.append(int)`
    writes for a non-negative `int`. */
module Decimal {
  import opened Wrappers
  import opened JavaInt
  import opened JavaString

  const ZERO: CodeUnit := '0' as int

  /** The pattern's `\d`: an ASCII digit (no Unicode digits without the
      UNICODE_CHARACTER_CLASS flag). */
  predicate IsDigit(c: CodeUnit) {
    '0' as int <= c <= '9' as int
  }

  predicate AllDigits(s: JString) {
    forall i :: 0 <= i < |s| ==> IsDigit(s[i])
  }

  /** A non-empty digit run, the text matched by `\d+`. */
  predicate IsNumeral(s: JString) {
    |s| > 0 && AllDigits(s)
  }

  function DigitChar(d: nat): CodeUnit
    requires d < 10
  {
    ZERO + d
  }

  /** The number a digit string denotes, most significant digit first;
      the empty string denotes 0. */
  function Value(s: JString): nat
    requires AllDigits(s)
  {
    if |s| == 0 then 0 else 10 * Value(s[..|s| - 1]) + (s[|s| - 1] - ZERO)
  }

  lemma ValueSnoc(s: JString, i: nat)
    requires AllDigits(s) && i < |s|
    ensures Value(s[..i + 1]) == 10 * Value(s[..i]) + (s[i] - ZERO)
  {
    assert s[..i + 1][..i] == s[..i];
  }

  /** A prefix of a digit string never denotes more than the whole. */
  lemma {:induction false} ValuePrefix(s: JString, i: nat)
    requires AllDigits(s) && i <= |s|
    ensures Value(s[..i]) <= Value(s)
    decreases |s| - i
  {
    if i < |s| {
      ValueSnoc(s, i);
      ValuePrefix(s, i + 1);
    } else {
      assert s[..i] == s;
    }
  }

  /** A leading zero does not change the value. */
  lemma {:induction false} ValueLeadingZero(s: JString)
    requires AllDigits(s)
    ensures Value([ZERO] + s) == Value(s)
    decreases |s|
  {
    if |s| > 0 {
      var t := [ZERO] + s;
      assert t[..|t| - 1] == [ZERO] + s[..|s| - 1];
      ValueLeadingZero(s[..|s| - 1]);
    }
  }

  /** `Integer.parseInt(s)` for a digit run `s`: its value, or `None` for the
      NumberFormatException raised once the value passes Integer.MAX_VALUE.
      Digits are accumulated left to right and the scan stops at the first
      prefix that no longer fits in an `int`. */
  function ParseInt(s: JString): (r: Option<Int32>)
    requires IsNumeral(s)
    ensures r.Some? <==> Value(s) <= INT_MAX
    ensures r.Some? ==> r.value == Value(s)
  {
    assert s[..0] == [];
    Accumulate(s, 0, 0)
  }

  function Accumulate(s: JString, i: nat, acc: nat): (r: Option<Int32>)
    requires AllDigits(s) && i <= |s|
    requires acc == Value(s[..i]) && acc <= INT_MAX
    ensures r.Some? <==> Value(s) <= INT_MAX
    ensures r.Some? ==> r.value == Value(s)
    decreases |s| - i
  {
    if i == |s| then
      assert s[..i] == s;
      Some(acc)
    else
      var next := 10 * acc + (s[i] - ZERO);
      ValueSnoc(s, i);
      if next > INT_MAX then
        ValuePrefix(s, i + 1);
        None
      else
        Accumulate(s, i + 1, next)
  }

  /** Decimal text without a leading zero, the only zero-led one being `0`. */
  predicate Canonical(s: JString) {
    IsNumeral(s) && (s[0] == ZERO ==> |s| == 1)
  }

  /** The decimal text of a non-negative `int`, as `StringBuilder.append(int)`
      writes it: digits only, no leading zero, denoting `n`. */
  function ToDecimal(n: nat): (r: JString)
    ensures Canonical(r) && Value(r) == n
    ensures r[0] == ZERO ==> n == 0
    ensures n < 10 ==> |r| == 1
  {
    if n < 10 then [DigitChar(n)]
    else
      var p := ToDecimal(n / 10);
      var r := p + [DigitChar(n % 10)];
      assert r[..|r| - 1] == p;
      r
  }

  /** A leading digit other than zero makes the value at least that digit. */
  lemma ValueOfLeadingDigit(s: JString)
    requires IsNumeral(s)
    ensures Value(s) >= s[0] - ZERO
  {
    ValueSnoc(s, 0);
    assert s[..0] == [];
    ValuePrefix(s, 1);
  }

  /** Canonical decimal text is determined by its value: it is the text
      `ToDecimal` writes. */
  lemma {:induction false} CanonicalUnique(s: JString, n: nat)
    requires Canonical(s) && Value(s) == n
    ensures s == ToDecimal(n)
    decreases |s|
  {
    if |s| == 1 {
      assert s == [DigitChar(n)];
    } else {
      var p := s[..|s| - 1];
      assert s[0] != ZERO && p[0] == s[0];
      ValueOfLeadingDigit(p);
      assert n == 10 * Value(p) + (s[|s| - 1] - ZERO);
      assert n / 10 == Value(p) && n % 10 == s[|s| - 1] - ZERO;
      CanonicalUnique(p, Value(p));
      assert s == p + [s[|s| - 1]];
    }
  }
}
