/** Decimal rendering and reading of integers, and splitting of text on a
    separator character.  These are the string conventions the version
    command relies on: C# string interpolation of an `int` (decimal digits,
    a leading '-' when negative) and the dot-separated layout of a version. */
module Text {

  predicate IsDigit(c: char) {
    '0' <= c <= '9'
  }

  predicate AllDigits(s: string) {
    forall i :: 0 <= i < |s| ==> IsDigit(s[i])
  }

  function DigitChar(d: nat): (c: char)
    requires d < 10
    ensures IsDigit(c)
  {
    (('0' as int) + d) as char
  }

  function DigitValue(c: char): (d: nat)
    requires IsDigit(c)
    ensures d < 10
  {
    (c as int) - ('0' as int)
  }

  /** The shortest decimal numeral of `n`: no sign, no leading zeros. */
  function NatDigits(n: nat): (s: string)
    ensures |s| > 0 && AllDigits(s)
    ensures |s| > 1 ==> s[0] != '0'
    decreases n
  {
    if n < 10 then [DigitChar(n)] else NatDigits(n / 10) + [DigitChar(n % 10)]
  }

  /** The value of a numeral read most significant digit first. */
  function DigitsValue(s: string): (n: nat)
    requires AllDigits(s)
    decreases |s|
  {
    if |s| == 0 then 0 else 10 * DigitsValue(s[..|s| - 1]) + DigitValue(s[|s| - 1])
  }

  /** Reading back a rendered natural number gives the number. */
  lemma {:induction false} DigitsRoundTrip(n: nat)
    ensures DigitsValue(NatDigits(n)) == n
  {
    if n >= 10 {
      var s := NatDigits(n);
      assert s == NatDigits(n / 10) + [DigitChar(n % 10)];
      assert s[..|s| - 1] == NatDigits(n / 10);
      DigitsRoundTrip(n / 10);
    }
  }

  /** How an `int` is interpolated into a string: decimal digits, with a
      leading '-' for a negative value. */
  function Decimal(i: int): (s: string)
    ensures |s| > 0 && '.' !in s && ' ' !in s
    ensures AllDigits(s) <==> i >= 0
  {
    if i < 0 then
      var s := "-" + NatDigits(-i);
      assert !IsDigit(s[0]);
      s
    else
      NatDigits(i)
  }

  /** The fields of `s` between occurrences of `sep`, in order; a text
      without `sep` is one field, and a text of n separators has n + 1. */
  function Split(s: string, sep: char): (fields: seq<string>)
    ensures |fields| >= 1
    ensures forall k :: 0 <= k < |fields| ==> sep !in fields[k]
    decreases |s|
  {
    if |s| == 0 then
      [""]
    else
      var rest := Split(s[1..], sep);
      if s[0] == sep then [""] + rest else [[s[0]] + rest[0]] + rest[1..]
  }

  lemma {:induction false} SplitNoSeparator(a: string, sep: char)
    requires sep !in a
    ensures Split(a, sep) == [a]
  {
    if |a| > 0 {
      assert a == [a[0]] + a[1..];
      SplitNoSeparator(a[1..], sep);
    }
  }

  /** A field without the separator, then the separator, then the rest. */
  lemma {:induction false} SplitAfterField(a: string, sep: char, b: string)
    requires sep !in a
    ensures Split(a + [sep] + b, sep) == [a] + Split(b, sep)
  {
    var s := a + [sep] + b;
    if |a| == 0 {
      assert s[1..] == b;
    } else {
      assert s[0] == a[0];
      assert s[1..] == a[1..] + [sep] + b;
      SplitAfterField(a[1..], sep, b);
      assert [a[0]] + a[1..] == a;
    }
  }

  /** The text after the last space of `s` (all of `s` when it has none). */
  function LastWord(s: string): (w: string)
    ensures ' ' !in w
    ensures |w| <= |s| && w == s[|s| - |w|..]
    decreases |s|
  {
    if |s| == 0 || s[|s| - 1] == ' ' then "" else LastWord(s[..|s| - 1]) + [s[|s| - 1]]
  }

  lemma {:induction false} LastWordAfterSpace(a: string, b: string)
    requires ' ' !in b
    ensures LastWord(a + " " + b) == b
  {
    var s := a + " " + b;
    if |b| > 0 {
      var b' := b[..|b| - 1];
      assert s[..|s| - 1] == a + " " + b';
      LastWordAfterSpace(a, b');
      assert b' + [b[|b| - 1]] == b;
    } else {
      assert s[|s| - 1] == ' ';
    }
  }
}
