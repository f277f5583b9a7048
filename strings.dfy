/** Rendering of natural numbers as decimal text (Python's '%d' and
    '%02d'), and Python's ordering of strings (code point by code point). */
module Strings {

  function DigitChar(d: nat): (c: char)
    requires d < 10
    ensures '0' <= c <= '9' && c as int - '0' as int == d
  {
    ('0' as int + d) as char
  }

  predicate IsDigits(s: string) {
    forall i :: 0 <= i < |s| ==> '0' <= s[i] <= '9'
  }

  /** The number that a string of decimal digits denotes. */
  function DigitsValue(s: string): nat
    requires IsDigits(s)
  {
    if s == [] then 0
    else DigitsValue(s[..|s| - 1]) * 10 + (s[|s| - 1] as int - '0' as int)
  }

  /** '%d' % n: the shortest decimal rendering of n. */
  function Decimal(n: nat): (s: string)
    ensures IsDigits(s) && 1 <= |s|
    ensures n >= 10 ==> |s| >= 2
    decreases n
  {
    if n < 10 then [DigitChar(n)] else Decimal(n / 10) + [DigitChar(n % 10)]
  }

  /** The rendering reads back as the number it renders. */
  lemma {:induction false} DecimalValue(n: nat)
    ensures DigitsValue(Decimal(n)) == n
    decreases n
  {
    if n >= 10 {
      var s := Decimal(n);
      assert s[..|s| - 1] == Decimal(n / 10);
      DecimalValue(n / 10);
    }
  }

  /** The rendering has no leading zero except for zero itself. */
  lemma {:induction false} DecimalNoLeadingZero(n: nat)
    ensures Decimal(n)[0] == '0' <==> n == 0
    decreases n
  {
    if n >= 10 {
      DecimalNoLeadingZero(n / 10);
    }
  }

  lemma DecimalInjective(a: nat, b: nat)
    requires Decimal(a) == Decimal(b)
    ensures a == b
  {
    DecimalValue(a);
    DecimalValue(b);
  }

  /** A leading '0' does not change the value of a digit string. */
  lemma {:induction false} LeadingZeroValue(s: string)
    requires IsDigits(s)
    ensures IsDigits("0" + s) && DigitsValue("0" + s) == DigitsValue(s)
    decreases |s|
  {
    if s != [] {
      var t := "0" + s;
      assert t[..|t| - 1] == "0" + s[..|s| - 1];
      LeadingZeroValue(s[..|s| - 1]);
    }
  }

  /** '%02d' % n: the decimal rendering, left-padded with '0' to width 2;
      wider numbers keep all their digits. */
  function ZeroPad2(n: nat): string {
    var d := Decimal(n);
    if |d| < 2 then "0" + d else d
  }

  /** The padded rendering is at least two digits wide and reads back as n;
      below 100 it is exactly the tens digit then the units digit. */
  lemma ZeroPad2Spec(n: nat)
    ensures IsDigits(ZeroPad2(n)) && |ZeroPad2(n)| >= 2
    ensures DigitsValue(ZeroPad2(n)) == n
    ensures n < 100 ==> ZeroPad2(n) == [DigitChar(n / 10), DigitChar(n % 10)]
    ensures n >= 100 ==> ZeroPad2(n) == Decimal(n)
  {
    DecimalValue(n);
    var d := Decimal(n);
    if n < 10 {
      assert d == [DigitChar(n)];
      LeadingZeroValue(d);
      assert n / 10 == 0 && n % 10 == n;
    } else if n < 100 {
      var t := n / 10;
      assert t < 10;
      assert Decimal(t) == [DigitChar(t)];
      assert d == [DigitChar(t), DigitChar(n % 10)];
    } else {
      assert |Decimal(n / 10)| >= 2;
    }
  }

  /** Different numbers are padded to different strings. */
  lemma ZeroPad2Injective(a: nat, b: nat)
    ensures ZeroPad2(a) == ZeroPad2(b) ==> a == b
  {
    ZeroPad2Spec(a);
    ZeroPad2Spec(b);
  }

  /** Python's '<' on str: lexicographic by code point, a proper prefix first. */
  predicate LexLess(a: string, b: string)
    decreases |a|
  {
    if a == [] then b != []
    else b != [] && (a[0] < b[0] || (a[0] == b[0] && LexLess(a[1..], b[1..])))
  }

  lemma {:induction false} LexLessIrreflexive(a: string)
    ensures !LexLess(a, a)
    decreases |a|
  {
    if a != [] {
      LexLessIrreflexive(a[1..]);
    }
  }

  lemma {:induction false} LexLessTransitive(a: string, b: string, c: string)
    requires LexLess(a, b) && LexLess(b, c)
    ensures LexLess(a, c)
    decreases |a|
  {
    if a != [] && a[0] == b[0] && b[0] == c[0] {
      LexLessTransitive(a[1..], b[1..], c[1..]);
    }
  }

  lemma {:induction false} LexLessTotal(a: string, b: string)
    ensures a == b || LexLess(a, b) || LexLess(b, a)
    decreases |a|
  {
    if a != [] && b != [] && a[0] == b[0] {
      LexLessTotal(a[1..], b[1..]);
      if a[1..] == b[1..] {
        assert a == [a[0]] + a[1..] && b == [b[0]] + b[1..];
      }
    }
  }
}
