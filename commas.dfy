/** `numberWithCommas` of the report component: the decimal form of a prize
    with the regular expression `/\B(?=(\d{3})+(?!\d))/g` replaced by ",".
    The replacement is modelled position by position, as the regular
    expression engine scans the string, and `GroupThousands` is an
    independent right-to-left definition of digit grouping; the two are
    proved to agree on every integer. */
module Commas {

  predicate IsDigit(c: char) {
    '0' <= c <= '9'
  }

  /** The characters `\b` and `\B` count as word characters. */
  predicate IsWordChar(c: char) {
    IsDigit(c) || 'a' <= c <= 'z' || 'A' <= c <= 'Z' || c == '_'
  }

  predicate AllDigits(s: string) {
    forall i :: 0 <= i < |s| ==> IsDigit(s[i])
  }

  function DigitChar(d: nat): (c: char)
    requires d < 10
    ensures IsDigit(c)
  {
    "0123456789"[d]
  }

  /** The decimal digits of `n`, most significant first. */
  function NatToString(n: nat): (s: string)
    ensures |s| >= 1 && AllDigits(s)
    ensures s[0] == '0' <==> n == 0
    ensures |s| == 1 || s[0] != '0'
  {
    if n < 10 then [DigitChar(n)]
    else NatToString(n / 10) + [DigitChar(n % 10)]
  }

  /** `x.toString()` for an integer number. */
  function IntToString(x: int): string {
    if x < 0 then "-" + NatToString(-x) else NatToString(x)
  }

  /** The value of a string of decimal digits. */
  function DigitsValue(s: string): nat
    requires AllDigits(s)
  {
    if s == [] then 0
    else 10 * DigitsValue(s[..|s| - 1]) + (s[|s| - 1] as int - '0' as int)
  }

  /** The decimal form reads back as the number it came from. */
  lemma {:induction false} NatToStringValue(n: nat)
    ensures DigitsValue(NatToString(n)) == n
  {
    var s := NatToString(n);
    if n >= 10 {
      NatToStringValue(n / 10);
      assert s[..|s| - 1] == NatToString(n / 10);
    }
  }

  /** The length of the run of digits starting at position `i`. */
  function DigitRun(s: string, i: nat): (k: nat)
    requires i <= |s|
    ensures i + k <= |s|
    decreases |s| - i
  {
    if i < |s| && IsDigit(s[i]) then 1 + DigitRun(s, i + 1) else 0
  }

  /** `\B` at position `i`: both neighbours are word characters or neither is. */
  predicate NotWordBoundary(s: string, i: nat)
    requires i <= |s|
  {
    (0 < i && IsWordChar(s[i - 1])) == (i < |s| && IsWordChar(s[i]))
  }

  /** The whole pattern matches (with empty width) at position `i`: `\B`
      holds and the digits that follow form a positive multiple of three
      not followed by a further digit. */
  predicate MatchesAt(s: string, i: nat)
    requires i <= |s|
  {
    NotWordBoundary(s, i) && DigitRun(s, i) > 0 && DigitRun(s, i) % 3 == 0
  }

  /** The output of the global replacement from position `i` on: a comma
      at every matching position, every character kept. */
  function ReplaceFrom(s: string, i: nat): string
    requires i <= |s|
    decreases |s| - i
  {
    (if MatchesAt(s, i) then "," else "")
    + (if i < |s| then [s[i]] + ReplaceFrom(s, i + 1) else "")
  }

  /** `numberWithCommas(x)` for an integer `x`. */
  function NumberWithCommas(x: int): string {
    ReplaceFrom(IntToString(x), 0)
  }

  /** Digit grouping defined from the right: the last three digits, and
      before them the grouping of the rest, separated by a comma. */
  function GroupThousands(d: string): (r: string)
    ensures |d| > 0 ==> |r| > 0 && r[0] == d[0]
  {
    if |d| <= 3 then d
    else GroupThousands(d[..|d| - 3]) + "," + d[|d| - 3..]
  }

  /** `s` with every comma removed. */
  function StripCommas(s: string): string {
    if s == [] then []
    else (if s[0] == ',' then [] else [s[0]]) + StripCommas(s[1..])
  }

  lemma {:induction false} StripCommasConcat(a: string, b: string)
    ensures StripCommas(a + b) == StripCommas(a) + StripCommas(b)
  {
    if a == [] {
      assert a + b == b;
    } else {
      assert (a + b)[1..] == a[1..] + b;
      StripCommasConcat(a[1..], b);
    }
  }

  lemma {:induction false} StripCommasNone(s: string)
    requires AllDigits(s)
    ensures StripCommas(s) == s
  {
    if s != [] {
      StripCommasNone(s[1..]);
    }
  }

  /** Removing the commas gives back the digits. */
  lemma {:induction false} GroupThousandsStrip(d: string)
    requires AllDigits(d)
    ensures StripCommas(GroupThousands(d)) == d
    decreases |d|
  {
    if |d| <= 3 {
      StripCommasNone(d);
    } else {
      var front, back := d[..|d| - 3], d[|d| - 3..];
      var g := GroupThousands(front);
      assert GroupThousands(d) == (g + ",") + back;
      GroupThousandsStrip(front);
      StripCommasConcat(g + ",", back);
      StripCommasConcat(g, ",");
      assert StripCommas(",") == [];
      StripCommasNone(back);
      assert d == front + back;
    }
  }

  /** Every group after a comma holds exactly three digits: a comma is
      followed by three digits and then either the end or another comma. */
  lemma {:induction false} GroupThousandsGroups(d: string, k: nat)
    requires AllDigits(d)
    requires k < |GroupThousands(d)| && GroupThousands(d)[k] == ','
    ensures k + 3 < |GroupThousands(d)|
    ensures AllDigits(GroupThousands(d)[k + 1..k + 4])
    ensures k + 4 == |GroupThousands(d)| || GroupThousands(d)[k + 4] == ','
    decreases |d|
  {
    if |d| <= 3 {
      assert false;
      return;
    }
    var front, back := d[..|d| - 3], d[|d| - 3..];
    var g := GroupThousands(front);
    var r := GroupThousands(d);
    assert r == g + "," + back;
    assert |r| == |g| + 4;
    if k < |g| {
      assert g[k] == r[k] == ',';
      GroupThousandsGroups(front, k);
      assert r[k + 1..k + 4] == g[k + 1..k + 4];
      assert k + 4 < |g| ==> r[k + 4] == g[k + 4];
      assert k + 4 == |g| ==> r[k + 4] == ',';
    } else {
      assert k == |g|;
      assert r[k + 1..k + 4] == back;
    }
  }

  // The regular expression on a string of digits.

  lemma {:induction false} DigitRunAllDigits(s: string, i: nat)
    requires AllDigits(s) && i <= |s|
    ensures DigitRun(s, i) == |s| - i
    decreases |s| - i
  {
    if i < |s| {
      DigitRunAllDigits(s, i + 1);
    }
  }

  /** On a digit string the pattern matches exactly at the inner positions
      followed by a multiple of three digits. */
  lemma MatchesAtDigits(s: string, i: nat)
    requires AllDigits(s) && i <= |s|
    ensures MatchesAt(s, i) <==> 0 < i < |s| && (|s| - i) % 3 == 0
  {
    DigitRunAllDigits(s, i);
  }

  /** With no match from `i` on, the replacement copies the rest. */
  lemma {:induction false} ReplaceFromShort(s: string, i: nat)
    requires AllDigits(s) && |s| <= 3 && i <= |s|
    ensures ReplaceFrom(s, i) == s[i..]
    decreases |s| - i
  {
    MatchesAtDigits(s, i);
    if i < |s| {
      ReplaceFromShort(s, i + 1);
      assert s[i..] == [s[i]] + s[i + 1..];
    }
  }

  /** Splitting off the last three digits: the replacement on the front
      part, then a comma, then those three digits. */
  lemma {:induction false} ReplaceFromSplit(s: string, i: nat)
    requires AllDigits(s) && |s| > 3 && i <= |s| - 3
    ensures AllDigits(s[..|s| - 3])
    ensures ReplaceFrom(s, i) == ReplaceFrom(s[..|s| - 3], i) + "," + s[|s| - 3..]
    decreases |s| - i
  {
    var a := s[..|s| - 3];
    var n := |a|;
    MatchesAtDigits(s, i);
    MatchesAtDigits(a, i);
    if i == n {
      ReplaceFromLastThree(s);
      assert ReplaceFrom(a, n) == "";
    } else {
      ReplaceFromSplit(s, i + 1);
      assert a[i] == s[i];
    }
  }

  /** Three digits before the end: a comma, then the three digits. */
  lemma ReplaceFromLastThree(s: string)
    requires AllDigits(s) && |s| > 3
    ensures ReplaceFrom(s, |s| - 3) == "," + s[|s| - 3..]
  {
    var n := |s| - 3;
    MatchesAtDigits(s, n);
    MatchesAtDigits(s, n + 1);
    MatchesAtDigits(s, n + 2);
    MatchesAtDigits(s, n + 3);
    assert MatchesAt(s, n) && !MatchesAt(s, n + 1) && !MatchesAt(s, n + 2) && !MatchesAt(s, n + 3);
    var r3 := ReplaceFrom(s, n + 3);
    assert r3 == "";
    var r2 := ReplaceFrom(s, n + 2);
    assert r2 == [s[n + 2]] + r3;
    var r1 := ReplaceFrom(s, n + 1);
    assert r1 == [s[n + 1]] + r2;
    assert ReplaceFrom(s, n) == "," + [s[n]] + r1;
    assert s[n..] == [s[n], s[n + 1], s[n + 2]];
  }

  /** The regular expression groups a digit string exactly as
      `GroupThousands` does. */
  lemma {:induction false} ReplaceDigitsIsGrouping(d: string)
    requires AllDigits(d)
    ensures ReplaceFrom(d, 0) == GroupThousands(d)
    decreases |d|
  {
    if |d| <= 3 {
      ReplaceFromShort(d, 0);
    } else {
      ReplaceFromSplit(d, 0);
      ReplaceDigitsIsGrouping(d[..|d| - 3]);
    }
  }

  /** A leading non-word character (the minus sign) is copied and the rest
      is replaced as if it stood alone. */
  lemma {:induction false} ReplaceFromSign(c: char, d: string, i: nat)
    requires !IsWordChar(c) && AllDigits(d) && i <= |d|
    ensures ReplaceFrom([c] + d, i + 1) == ReplaceFrom(d, i)
    decreases |d| - i
  {
    var s := [c] + d;
    DigitRunShift(c, d, i);
    assert i > 0 ==> s[i] == d[i - 1];
    assert MatchesAt(s, i + 1) == MatchesAt(d, i);
    if i < |d| {
      ReplaceFromSign(c, d, i + 1);
    }
  }

  lemma {:induction false} DigitRunShift(c: char, d: string, i: nat)
    requires i <= |d|
    ensures DigitRun([c] + d, i + 1) == DigitRun(d, i)
    decreases |d| - i
  {
    if i < |d| {
      DigitRunShift(c, d, i + 1);
    }
  }

  /** `numberWithCommas` is digit grouping of the absolute value, behind
      a minus sign for a negative number. */
  lemma NumberWithCommasIsGrouping(x: int)
    ensures NumberWithCommas(x)
         == if x < 0 then "-" + GroupThousands(NatToString(-x))
            else GroupThousands(NatToString(x))
  {
    if x < 0 {
      var d := NatToString(-x);
      var s := "-" + d;
      assert !MatchesAt(s, 0);
      ReplaceFromSign('-', d, 0);
      ReplaceDigitsIsGrouping(d);
    } else {
      ReplaceDigitsIsGrouping(NatToString(x));
    }
  }

  /** For a prize (a natural number): the output starts with a digit, never
      a comma, removing the commas gives back `x.toString()`, and every
      comma is followed by a group of exactly three digits. */
  lemma NumberWithCommasNat(x: nat)
    ensures |NumberWithCommas(x)| > 0 && IsDigit(NumberWithCommas(x)[0])
    ensures StripCommas(NumberWithCommas(x)) == IntToString(x)
    ensures forall k :: 0 <= k < |NumberWithCommas(x)| && NumberWithCommas(x)[k] == ',' ==>
              k + 3 < |NumberWithCommas(x)| && AllDigits(NumberWithCommas(x)[k + 1..k + 4])
              && (k + 4 == |NumberWithCommas(x)| || NumberWithCommas(x)[k + 4] == ',')
  {
    NumberWithCommasIsGrouping(x);
    GroupThousandsStrip(NatToString(x));
    forall k | 0 <= k < |NumberWithCommas(x)| && NumberWithCommas(x)[k] == ','
      ensures k + 3 < |NumberWithCommas(x)| && AllDigits(NumberWithCommas(x)[k + 1..k + 4])
      ensures k + 4 == |NumberWithCommas(x)| || NumberWithCommas(x)[k + 4] == ','
    {
      GroupThousandsGroups(NatToString(x), k);
    }
  }
}
