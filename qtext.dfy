/** The QString and QList operations the widget relies on, for numbers
    written with no decimals: a number is an integer, QString::number(n, 'f', 0)
    is Format and QString::toDouble is Parse, which reads 0 from any text
    that is not a numeral. */
module QtText {

  /** qMax and qMin on integers. */
  function Max(a: int, b: int): int { if a < b then b else a }
  function Min(a: int, b: int): int { if a < b then a else b }

  /** qMax gives the larger argument and qMin the smaller. */
  lemma MaxMinBounds(a: int, b: int)
    ensures Max(a, b) >= a && Max(a, b) >= b && (Max(a, b) == a || Max(a, b) == b)
    ensures Min(a, b) <= a && Min(a, b) <= b && (Min(a, b) == a || Min(a, b) == b)
  { }

  predicate IsDigit(c: char) { '0' <= c <= '9' }

  function DigitValue(c: char): nat
    requires IsDigit(c)
  {
    (c as int) - ('0' as int)
  }

  function DigitChar(d: nat): (c: char)
    requires d < 10
    ensures IsDigit(c) && DigitValue(c) == d
  {
    (('0' as int) + d) as char
  }

  predicate AllDigits(s: string) {
    forall i :: 0 <= i < |s| ==> IsDigit(s[i])
  }

  /** The value of a string of decimal digits, most significant digit first. */
  function DigitsValue(s: string): nat
    requires AllDigits(s)
    decreases |s|
  {
    if s == [] then 0 else DigitsValue(s[..|s| - 1]) * 10 + DigitValue(s[|s| - 1])
  }

  /** The decimal digits of n, without leading zeros. */
  function NatDigits(n: nat): (s: string)
    ensures s != [] && IsDigit(s[0])
  {
    if n < 10 then [DigitChar(n)] else NatDigits(n / 10) + [DigitChar(n % 10)]
  }

  lemma {:induction false} NatDigitsAreDigits(n: nat)
    ensures AllDigits(NatDigits(n))
  {
    if n >= 10 {
      NatDigitsAreDigits(n / 10);
    }
  }

  /** A numeral: an optional sign followed by at least one digit. */
  predicate IsNumeral(s: string) {
    if |s| > 0 && (s[0] == '-' || s[0] == '+') then |s| > 1 && AllDigits(s[1..])
    else |s| > 0 && AllDigits(s)
  }

  /** QString::toDouble: the number a numeral spells, and 0 for any other text. */
  function Parse(s: string): int {
    if !IsNumeral(s) then 0
    else if s[0] == '-' then -(DigitsValue(s[1..]) as int)
    else if s[0] == '+' then DigitsValue(s[1..])
    else DigitsValue(s)
  }

  /** Text that is not a numeral reads as 0, and only a leading minus sign
      reads as a negative number. */
  lemma ParseSign(s: string)
    ensures !IsNumeral(s) ==> Parse(s) == 0
    ensures Parse(s) < 0 ==> |s| > 1 && s[0] == '-'
  {
  }

  /** QString::number(n, 'f', 0): a minus sign for negative numbers, then the digits. */
  function Format(n: int): (s: string)
    ensures |s| > 0 && (s[0] == '-' <==> n < 0)
  {
    if n < 0 then "-" + NatDigits(-n) else NatDigits(n)
  }

  /** A formatted number is a numeral, with a sign only when negative. */
  lemma FormatIsNumeral(n: int)
    ensures IsNumeral(Format(n))
    ensures Format(n)[0] == '-' <==> n < 0
  {
    NatDigitsAreDigits(if n < 0 then -n else n);
    if n < 0 {
      assert Format(n)[1..] == NatDigits(-n);
    }
  }

  lemma {:induction false} DigitsValueOfNatDigits(n: nat)
    ensures AllDigits(NatDigits(n)) && DigitsValue(NatDigits(n)) == n
  {
    NatDigitsAreDigits(n);
    if n >= 10 {
      var s := NatDigits(n);
      assert s[..|s| - 1] == NatDigits(n / 10);
      NatDigitsAreDigits(n / 10);
      DigitsValueOfNatDigits(n / 10);
    }
  }

  /** Reading back a formatted number gives the number. */
  lemma ParseFormat(n: int)
    ensures Parse(Format(n)) == n
  {
    FormatIsNumeral(n);
    if n < 0 {
      assert Format(n)[1..] == NatDigits(-n);
      DigitsValueOfNatDigits(-n);
    } else {
      DigitsValueOfNatDigits(n);
    }
  }

  /** Two numbers format alike only when they are equal. */
  lemma FormatInjective(a: int, b: int)
    ensures Format(a) == Format(b) <==> a == b
  {
    ParseFormat(a);
    ParseFormat(b);
  }

  /** QString::toLower, on the ASCII letters. */
  function LowerChar(c: char): char {
    if 'A' <= c <= 'Z' then ((c as int) + 32) as char else c
  }

  function Lower(s: string): (r: string)
    ensures |r| == |s|
    decreases |s|
  {
    if s == [] then [] else [LowerChar(s[0])] + Lower(s[1..])
  }

  /** toLower works character by character. */
  lemma {:induction false} LowerIs(s: string)
    ensures |Lower(s)| == |s| && forall i :: 0 <= i < |s| ==> Lower(s)[i] == LowerChar(s[i])
    decreases |s|
  {
    if s != [] {
      LowerIs(s[1..]);
      assert forall i :: 1 <= i < |s| ==> Lower(s)[i] == Lower(s[1..])[i - 1];
    }
  }

  /** A lower-case text has no upper-case letters, so lowering it again
      changes nothing: the text-list match compares texts that are both
      already lower case. */
  lemma LowerIdempotent(s: string)
    ensures forall i :: 0 <= i < |s| ==> !('A' <= Lower(s)[i] <= 'Z')
    ensures Lower(Lower(s)) == Lower(s)
  {
    LowerIs(s);
    LowerIs(Lower(s));
  }

  /** The text needle occurs in hay starting at position k. */
  predicate OccursAt(hay: string, needle: string, k: nat) {
    k + |needle| <= |hay| && hay[k..k + |needle|] == needle
  }

  /** QString::contains: needle occurs somewhere in hay (the empty text occurs everywhere). */
  predicate Contains(hay: string, needle: string)
    ensures needle == [] ==> Contains(hay, needle)
    ensures Contains(hay, needle) ==> |needle| <= |hay|
    decreases |hay|
  {
    |needle| <= |hay| && (needle <= hay || Contains(hay[1..], needle))
  }

  lemma {:induction false} ContainsMeansOccurs(hay: string, needle: string)
    ensures Contains(hay, needle) <==> exists k: nat :: OccursAt(hay, needle, k)
    decreases |hay|
  {
    if |needle| <= |hay| {
      if needle <= hay {
        assert OccursAt(hay, needle, 0);
      } else {
        ContainsMeansOccurs(hay[1..], needle);
        if exists k: nat :: OccursAt(hay[1..], needle, k) {
          var k: nat :| OccursAt(hay[1..], needle, k);
          assert hay[1..][k..k + |needle|] == hay[k + 1..k + 1 + |needle|];
          assert OccursAt(hay, needle, k + 1);
        }
        if exists k: nat :: OccursAt(hay, needle, k) {
          var k: nat :| OccursAt(hay, needle, k);
          assert k != 0;
          assert hay[1..][k - 1..k - 1 + |needle|] == hay[k..k + |needle|];
          assert OccursAt(hay[1..], needle, k - 1);
        }
      }
    }
  }

  /** QList::indexOf: the first position of x in s, or -1 when x does not occur in s. */
  function IndexOf<T(==)>(s: seq<T>, x: T): (r: int)
    ensures -1 <= r < |s|
    decreases |s|
  {
    if s == [] then -1
    else if s[0] == x then 0
    else if IndexOf(s[1..], x) == -1 then -1
    else IndexOf(s[1..], x) + 1
  }

  /** indexOf answers -1 exactly when x is missing, and otherwise a position
      holding x with no earlier one holding it. */
  lemma {:induction false} IndexOfFirst<T>(s: seq<T>, x: T)
    ensures IndexOf(s, x) == -1 <==> x !in s
    ensures IndexOf(s, x) >= 0 ==> s[IndexOf(s, x)] == x && forall j :: 0 <= j < IndexOf(s, x) ==> s[j] != x
    decreases |s|
  {
    if s != [] && s[0] != x {
      IndexOfFirst(s[1..], x);
      assert s == [s[0]] + s[1..];
      assert forall j :: 1 <= j < |s| ==> s[j] == s[1..][j - 1];
    }
  }

  /** qBound(0, i, n - 1): the position i forced into the positions of a list of n elements. */
  function ListIndex(i: int, n: nat): (r: nat)
    requires n > 0
    ensures r < n
    ensures 0 <= i < n ==> r == i
    ensures i < 0 ==> r == 0
    ensures i >= n ==> r == n - 1
  {
    Max(0, Min(i, n - 1))
  }
}
