/**
 * `formatNumber` (index.js): `num.toString()` with every match of
 * `/\B(?=(\d{3})+(?!\d))/g` replaced by a comma. Inside a run of digits the
 * pattern matches exactly the positions that are not at the start of the run
 * and are followed by a positive multiple of three digits; a leading '-' is
 * not a word character, so no comma goes right after it.
 */
module Format {
  import opened Text

  /** A run of digits with a comma before each digit that has a positive multiple of three digits after it, the first excepted. */
  function Group(d: string): string
    decreases |d|
  {
    if |d| <= 3 then d else Group(d[..|d| - 3]) + "," + d[|d| - 3..]
  }

  /**
   * `formatNumber(n)`: removing its commas gives `n.toString()`, and for
   * `n >= 0` the digits stand in groups of three after a first group of one
   * to three.
   */
  function FormatNumber(n: int): (r: string)
    ensures RemoveCommas(r) == IntToString(n)
    ensures n >= 0 ==> WellGrouped(r)
  {
    if n < 0 then
      GroupRemoveCommas(NatToString(-n));
      RemoveCommasAppend("-", Group(NatToString(-n)));
      "-" + Group(NatToString(-n))
    else
      GroupRemoveCommas(NatToString(n));
      GroupWellGrouped(NatToString(n));
      Group(NatToString(n))
  }

  function RemoveCommas(s: string): string {
    if s == [] then [] else (if s[0] == ',' then [] else [s[0]]) + RemoveCommas(s[1..])
  }

  /**
   * Digits in groups: no comma first or last, exactly three characters after
   * each comma, one to three before the first, and digits everywhere else.
   * Put positionally: a comma stands exactly where the number of characters
   * from it to the end is a multiple of four, and the length is not one.
   */
  predicate WellGrouped(s: string) {
    && |s| % 4 != 0
    && (forall i :: 0 <= i < |s| ==> (s[i] == ',' <==> (|s| - i) % 4 == 0))
    && (forall i :: 0 <= i < |s| && s[i] != ',' ==> IsDigit(s[i]))
  }

  lemma {:induction false} RemoveCommasAppend(a: string, b: string)
    ensures RemoveCommas(a + b) == RemoveCommas(a) + RemoveCommas(b)
  {
    if a == [] {
      assert a + b == b;
    } else {
      assert (a + b)[1..] == a[1..] + b;
      RemoveCommasAppend(a[1..], b);
    }
  }

  lemma {:induction false} RemoveCommasOfDigits(d: string)
    requires AllDigits(d)
    ensures RemoveCommas(d) == d
  {
    if d != [] {
      RemoveCommasOfDigits(d[1..]);
    }
  }

  /** Grouping only inserts commas: removing them gives the digits back. */
  lemma {:induction false} GroupRemoveCommas(d: string)
    requires AllDigits(d)
    ensures RemoveCommas(Group(d)) == d
    decreases |d|
  {
    if |d| <= 3 {
      RemoveCommasOfDigits(d);
    } else {
      var p, t := d[..|d| - 3], d[|d| - 3..];
      calc {
        RemoveCommas(Group(d));
        RemoveCommas(Group(p) + "," + t);
      == { RemoveCommasAppend(Group(p) + ",", t); }
        RemoveCommas(Group(p) + ",") + RemoveCommas(t);
      == { RemoveCommasAppend(Group(p), ","); }
        RemoveCommas(Group(p)) + RemoveCommas(",") + RemoveCommas(t);
      == { GroupRemoveCommas(p); RemoveCommasOfDigits(t); }
        p + t;
      }
      assert d == p + t;
    }
  }

  lemma {:induction false} GroupWellGrouped(d: string)
    requires AllDigits(d) && |d| >= 1
    ensures WellGrouped(Group(d))
    decreases |d|
  {
    if |d| > 3 {
      var p, t := d[..|d| - 3], d[|d| - 3..];
      GroupWellGrouped(p);
      var g, s := Group(p), Group(d);
      assert s == g + "," + t;
      forall i | 0 <= i < |s| ensures s[i] == ',' <==> (|s| - i) % 4 == 0 {
        if i < |g| {
          assert s[i] == g[i];
          assert (|s| - i) % 4 == (|g| - i) % 4;
        } else if i > |g| {
          assert s[i] == t[i - |g| - 1];
        }
      }
      forall i | 0 <= i < |s| && s[i] != ',' ensures IsDigit(s[i]) {
        if i < |g| {
          assert s[i] == g[i];
        } else if i > |g| {
          assert s[i] == t[i - |g| - 1];
        }
      }
    }
  }

  /** A non-negative number is printed unchanged exactly when it is below 1000. */
  lemma FormatNumberSmall(n: nat)
    ensures FormatNumber(n) == NatToString(n) <==> n < 1000
  {
    NatToStringLength(n, 3);
    assert Pow10(3) == 1000;
    var d, s := NatToString(n), FormatNumber(n);
    if n < 1000 {
      assert s == Group(d);
    } else {
      // A well-grouped string of four or more characters has a comma four from the end; a printed number has a digit there.
      assert IsDigit(d[|d| - 4]);
    }
  }

  lemma {:induction false} WellGroupedPrefix(s: string)
    requires WellGrouped(s) && |s| > 4
    ensures WellGrouped(s[..|s| - 4]) && s[|s| - 4] == ','
    ensures s == s[..|s| - 4] + "," + s[|s| - 3..] && AllDigits(s[|s| - 3..])
  {
    var p := s[..|s| - 4];
    forall i | 0 <= i < |p| ensures p[i] == ',' <==> (|p| - i) % 4 == 0 {
      assert p[i] == s[i];
      assert (|s| - i) % 4 == (|p| - i) % 4;
    }
    assert s == p + [s[|s| - 4]] + s[|s| - 3..];
  }

  lemma {:induction false} WellGroupedDigitCount(s: string)
    requires WellGrouped(s)
    ensures |RemoveCommas(s)| >= 1
    ensures |s| <= 3 ==> RemoveCommas(s) == s
    ensures |s| > 4 ==> |RemoveCommas(s)| >= 4
    decreases |s|
  {
    if |s| <= 3 {
      assert AllDigits(s) by {
        forall i | 0 <= i < |s| ensures IsDigit(s[i]) {
          assert (|s| - i) % 4 != 0;
        }
      }
      RemoveCommasOfDigits(s);
    } else {
      WellGroupedPrefix(s);
      var p, t := s[..|s| - 4], s[|s| - 3..];
      WellGroupedDigitCount(p);
      RemoveCommasAppend(p + ",", t);
      RemoveCommasAppend(p, ",");
      RemoveCommasOfDigits(t);
    }
  }

  /** At most one well-grouped string carries a given run of digits. */
  lemma {:induction false} WellGroupedUnique(s: string, t: string)
    requires WellGrouped(s) && WellGrouped(t)
    requires RemoveCommas(s) == RemoveCommas(t)
    ensures s == t
    decreases |s|
  {
    WellGroupedDigitCount(s);
    WellGroupedDigitCount(t);
    if |s| > 4 && |t| > 4 {
      WellGroupedPrefix(s);
      WellGroupedPrefix(t);
      var ps, ts := s[..|s| - 4], s[|s| - 3..];
      var pt, tt := t[..|t| - 4], t[|t| - 3..];
      RemoveCommasAppend(ps + ",", ts);
      RemoveCommasAppend(ps, ",");
      RemoveCommasOfDigits(ts);
      RemoveCommasAppend(pt + ",", tt);
      RemoveCommasAppend(pt, ",");
      RemoveCommasOfDigits(tt);
      var ds := RemoveCommas(s);
      assert RemoveCommas(ps) == ds[..|ds| - 3] && ts == ds[|ds| - 3..];
      assert RemoveCommas(pt) == ds[..|ds| - 3] && tt == ds[|ds| - 3..];
      WellGroupedUnique(ps, pt);
    }
  }

  /**
   * `formatNumber(n)` for `n >= 0` is the one well-grouped string whose digits
   * are `n.toString()`.
   */
  lemma FormatNumberIsTheGrouping(n: nat, s: string)
    requires WellGrouped(s) && RemoveCommas(s) == NatToString(n)
    ensures s == FormatNumber(n)
  {
    WellGroupedUnique(s, FormatNumber(n));
  }
}
