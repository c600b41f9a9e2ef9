/**
 * Text helpers the ledger relies on: the decimal rendering of integers that
 * JavaScript's `Number.prototype.toString` produces, and the lexicographic order
 * on strings that SQLite's default (BINARY) collation sorts by.
 */
module Text {

  predicate IsDigit(c: char) {
    '0' <= c <= '9'
  }

  predicate AllDigits(s: string) {
    forall i :: 0 <= i < |s| ==> IsDigit(s[i])
  }

  function DigitChar(d: nat): (c: char)
    requires d < 10
    ensures IsDigit(c) && c as int - '0' as int == d
  {
    ('0' as int + d) as char
  }

  function Pow10(k: nat): (p: nat)
    ensures p >= 1
  {
    if k == 0 then 1 else 10 * Pow10(k - 1)
  }

  /** Decimal digits of `n`, most significant first, without leading zeros. */
  function NatToString(n: nat): (s: string)
    ensures |s| >= 1 && AllDigits(s)
    ensures s[0] == '0' ==> n == 0
    decreases n
  {
    if n < 10 then [DigitChar(n)] else NatToString(n / 10) + [DigitChar(n % 10)]
  }

  /** `String(i)` for an integer value: a minus sign in front of negative numbers. */
  function IntToString(i: int): string {
    if i < 0 then "-" + NatToString(-i) else NatToString(i)
  }

  /** The number a string of decimal digits denotes. */
  function DigitsValue(s: string): nat
    requires AllDigits(s)
  {
    if s == [] then 0 else DigitsValue(s[..|s| - 1]) * 10 + (s[|s| - 1] as int - '0' as int)
  }

  /** Rendering a number in decimal loses nothing: reading the digits back gives the number. */
  lemma {:induction false} NatToStringRoundTrip(n: nat)
    ensures DigitsValue(NatToString(n)) == n
    decreases n
  {
    if n >= 10 {
      var s := NatToString(n);
      assert s[..|s| - 1] == NatToString(n / 10);
      NatToStringRoundTrip(n / 10);
    }
  }

  /** `String(i)` holds no space. */
  lemma IntToStringHasNoSpace(i: int)
    ensures ' ' !in IntToString(i)
  {
  }

  /** Different integers print differently. */
  lemma IntToStringInjective(a: int, b: int)
    requires IntToString(a) == IntToString(b)
    ensures a == b
  {
    NatToStringRoundTrip(if a < 0 then -a else a);
    NatToStringRoundTrip(if b < 0 then -b else b);
    if a < 0 && b < 0 {
      assert NatToString(-a) == IntToString(a)[1..] == IntToString(b)[1..] == NatToString(-b);
    }
  }

  /** Two words, each followed by text starting with a space, that spell the same string are the same word. */
  lemma SpaceEndsWord(x: string, r: string, y: string, r': string)
    requires ' ' !in x && ' ' !in y
    requires |r| >= 1 && r[0] == ' ' && |r'| >= 1 && r'[0] == ' '
    requires x + r == y + r'
    ensures x == y && r == r'
  {
    assert x == (x + r)[..|x|] && r == (x + r)[|x|..];
    assert y == (y + r')[..|y|] && r' == (y + r')[|y|..];
  }

  /**
   * Fixed text, a word without spaces, a separator starting with a space,
   * another word and more fixed text: equal strings of this shape have equal
   * words.
   */
  lemma TwoWordsInjective(p: string, m: string, q: string, x: string, u: string, y: string, v: string)
    requires |m| >= 1 && m[0] == ' '
    requires ' ' !in x && ' ' !in y
    requires p + x + m + u + q == p + y + m + v + q
    ensures x == y && u == v
  {
    var rx, ry := m + (u + q), m + (v + q);
    assert p + x + m + u + q == p + (x + rx);
    assert p + y + m + v + q == p + (y + ry);
    assert x + rx == (p + (x + rx))[|p|..];
    assert y + ry == (p + (y + ry))[|p|..];
    SpaceEndsWord(x, rx, y, ry);
    assert u + q == rx[|m|..] && v + q == ry[|m|..];
    assert u == (u + q)[..|u|] && v == (v + q)[..|v|];
  }

  /**
   * A text made of fixed parts and two printed integers, where the part between
   * the integers starts with a space, gives both integers back.
   */
  lemma TwoNumbersInjective(p: string, m: string, q: string, a: int, b: int, c: int, d: int)
    requires |m| >= 1 && m[0] == ' '
    requires p + IntToString(a) + m + IntToString(b) + q == p + IntToString(c) + m + IntToString(d) + q
    ensures a == c && b == d
  {
    IntToStringHasNoSpace(a);
    IntToStringHasNoSpace(c);
    TwoWordsInjective(p, m, q, IntToString(a), IntToString(b), IntToString(c), IntToString(d));
    IntToStringInjective(a, c);
    IntToStringInjective(b, d);
  }

  /** A number has at most `k` decimal digits exactly when it is below 10^k. */
  lemma {:induction false} NatToStringLength(n: nat, k: nat)
    requires k >= 1
    ensures |NatToString(n)| <= k <==> n < Pow10(k)
    decreases n
  {
    if n >= 10 {
      if k == 1 {
        assert |NatToString(n)| == |NatToString(n / 10)| + 1;
      } else {
        NatToStringLength(n / 10, k - 1);
        assert n / 10 < Pow10(k - 1) <==> n < 10 * Pow10(k - 1);
      }
    } else {
      assert Pow10(k) == 10 * Pow10(k - 1);
    }
  }

  /** `a` sorts no later than `b`: character by character, a proper prefix first. */
  predicate LexLeq(a: string, b: string)
    decreases |a|
  {
    a == [] || (b != [] && (a[0] < b[0] || (a[0] == b[0] && LexLeq(a[1..], b[1..]))))
  }

  /** Any two strings are comparable. */
  lemma {:induction false} LexLeqTotal(a: string, b: string)
    ensures LexLeq(a, b) || LexLeq(b, a)
    decreases |a|
  {
    if a != [] && b != [] && a[0] == b[0] {
      LexLeqTotal(a[1..], b[1..]);
    }
  }

  lemma {:induction false} LexLeqTransitive(a: string, b: string, c: string)
    requires LexLeq(a, b) && LexLeq(b, c)
    ensures LexLeq(a, c)
    decreases |a|
  {
    if a != [] && a[0] == b[0] && b[0] == c[0] {
      LexLeqTransitive(a[1..], b[1..], c[1..]);
    }
  }

  /** Strings that sort no later than each other both ways are equal. */
  lemma {:induction false} LexLeqAntisymmetric(a: string, b: string)
    requires LexLeq(a, b) && LexLeq(b, a)
    ensures a == b
    decreases |a|
  {
    if a != [] {
      LexLeqAntisymmetric(a[1..], b[1..]);
      assert a == [a[0]] + a[1..] && b == [b[0]] + b[1..];
    }
  }
}
