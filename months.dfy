/**
 * Month keys of the form "YYYY-MM" and the two helpers that compute them
 * (app.js:19-21 and app.js:30-35).
 *
 * `addMonths` splits its argument at '-', reads both fields with JavaScript's
 * `Number`, builds a `Date` for the first day of that month, moves it by
 * `delta` months and prints the year and the zero-padded month again. On
 * integers this is arithmetic on the month index `year * 12 + (month - 1)`.
 */
module Months {
  import opened Wrappers

  predicate IsDigit(c: char) {
    '0' <= c <= '9'
  }

  predicate AllDigits(s: string) {
    forall i :: 0 <= i < |s| ==> IsDigit(s[i])
  }

  function DigitChar(d: nat): (c: char)
    requires d < 10
    ensures IsDigit(c) && c as int - '0' as int == d
  {
    ('0' as int + d) as char
  }

  function DigitValue(c: char): (d: nat)
    requires IsDigit(c)
    ensures d < 10 && DigitChar(d) == c
  {
    c as int - '0' as int
  }

  /** What `Number` makes of a string of decimal digits; the empty string reads as 0. */
  function DigitsValue(s: string): nat
    requires AllDigits(s)
  {
    if s == [] then 0 else DigitsValue(s[..|s| - 1]) * 10 + DigitValue(s[|s| - 1])
  }

  /** `String(n)` for a non-negative integer: decimal digits without leading zeros. */
  function NatToString(n: nat): (s: string)
    ensures |s| >= 1 && (s[0] == '0' ==> n == 0)
    decreases n
  {
    if n < 10 then [DigitChar(n)] else NatToString(n / 10) + [DigitChar(n % 10)]
  }

  /** Reading back what `String` printed gives the number again. */
  lemma {:induction false} NatToStringValue(n: nat)
    ensures AllDigits(NatToString(n)) && DigitsValue(NatToString(n)) == n
    decreases n
  {
    if n >= 10 {
      NatToStringValue(n / 10);
      var s := NatToString(n);
      assert s[..|s| - 1] == NatToString(n / 10);
      assert s == NatToString(n / 10) + [DigitChar(n % 10)];
    }
  }

  /** `String(i)` for any integer: a minus sign in front of a negative one. */
  function IntToString(i: int): string {
    if i < 0 then "-" + NatToString(-i) else NatToString(i)
  }

  /** `String(n).padStart(2, "0")` for 0 <= n < 100. */
  function Pad2(n: nat): (s: string)
    requires n < 100
    ensures |s| == 2
  {
    [DigitChar(n / 10), DigitChar(n % 10)]
  }

  /** The two padded digits read back as n. */
  lemma Pad2Value(n: nat)
    requires n < 100
    ensures AllDigits(Pad2(n)) && DigitsValue(Pad2(n)) == n
  {
    var s := Pad2(n);
    assert s[..1] == [DigitChar(n / 10)] && s[..1][..0] == [];
    assert DigitsValue(s[..1]) == n / 10;
  }

  /** The year the `Date` constructor uses: a two-digit year y means 1900 + y. */
  function FullYear(y: nat): nat {
    if y <= 99 then 1900 + y else y
  }

  /** The month key printed for month index i (year i / 12, month i % 12 + 1). */
  function Key(i: int): string {
    IntToString(i / 12) + "-" + Pad2(i % 12 + 1)
  }

  /** Every key ends in '-' and a two-digit month from 01 to 12. */
  lemma KeyShape(i: int)
    ensures var k := Key(i);
      && |k| >= 3 && k[|k| - 3] == '-'
      && AllDigits(k[|k| - 2..]) && 1 <= DigitsValue(k[|k| - 2..]) <= 12
  {
    var k := Key(i);
    Pad2Value(i % 12 + 1);
    assert k[|k| - 2..] == Pad2(i % 12 + 1);
  }

  /** Position of the first c in s, or -1 (`indexOf`). */
  function IndexOf(s: string, c: char): (r: int)
    ensures -1 <= r < |s|
  {
    if s == [] then -1
    else if s[0] == c then 0
    else
      var r := IndexOf(s[1..], c);
      if r < 0 then -1 else r + 1
  }

  /** `indexOf` finds the first occurrence, and -1 exactly when there is none. */
  lemma {:induction false} IndexOfSpec(s: string, c: char)
    ensures IndexOf(s, c) == -1 <==> c !in s
    ensures 0 <= IndexOf(s, c) ==> s[IndexOf(s, c)] == c && c !in s[..IndexOf(s, c)]
    decreases |s|
  {
    if s != [] && s[0] != c {
      IndexOfSpec(s[1..], c);
      var r := IndexOf(s[1..], c);
      assert s == [s[0]] + s[1..];
      assert r >= 0 ==> s[..r + 1] == [s[0]] + s[1..][..r];
    }
  }


  /**
   * The first two fields of `ym.split("-")`; the second is missing when ym
   * has no '-'.
   */
  function Fields(ym: string): (string, Option<string>) {
    var i := IndexOf(ym, '-');
    if i < 0 then (ym, None)
    else
      var rest := ym[i + 1..];
      var j := IndexOf(rest, '-');
      (ym[..i], Some(if j < 0 then rest else rest[..j]))
  }

  /** `Number(f)` on the fields modelled here: decimal digits read, anything else is NaN. */
  function ParseNumber(f: string): Option<nat> {
    if AllDigits(f) then Some(DigitsValue(f)) else None
  }

  /**
   * The month index of `new Date(y, m - 1, 1)` for the fields of ym, or None
   * when that date is invalid (a field is missing or not a number).
   */
  function MonthIndex(ym: string): (r: Option<int>)
    ensures r.Some? ==> r.value >= 1199
  {
    var (yf, mf) := Fields(ym);
    if mf.None? then None
    else
      match (ParseNumber(yf), ParseNumber(mf.value))
      case (Some(y), Some(m)) => Some(FullYear(y) * 12 + m - 1)
      case _ => None
  }

  /**
   * `addMonths(ym, delta)`: the key `delta` months after ym; an invalid date
   * prints as "NaN-NaN".
   */
  function AddMonths(ym: string, delta: int): (r: string)
    ensures r == "NaN-NaN" <==> MonthIndex(ym).None?
  {
    match MonthIndex(ym)
    case None => "NaN-NaN"
    case Some(i) => KeyIsNotNaN(i + delta); Key(i + delta)
  }

  /** A printed key ends in digits, so it is never the invalid date's "NaN-NaN". */
  lemma KeyIsNotNaN(i: int)
    ensures Key(i) != "NaN-NaN"
  {
    KeyShape(i);
    var k := Key(i);
    assert k[|k| - 2..][0] == k[|k| - 2];
    assert IsDigit(k[|k| - 2]);
  }

  /** The result of `addMonths` is "NaN-NaN" or ends in '-' and a month from 01 to 12. */
  lemma AddMonthsShape(ym: string, delta: int)
    ensures var r := AddMonths(ym, delta);
      || r == "NaN-NaN"
      || (&& |r| >= 3 && r[|r| - 3] == '-'
          && AllDigits(r[|r| - 2..]) && 1 <= DigitsValue(r[|r| - 2..]) <= 12)
  {
    var m := MonthIndex(ym);
    if m.Some? {
      var j := m.value + delta;
      AddMonthsOfIndex(ym, m.value, delta, j);
      KeyShape(j);
    }
  }

  /** `ymFromDate(ymd)`: the first seven characters of a "YYYY-MM-DD" date. */
  function YmFromDate(ymd: string): (r: string)
    ensures r <= ymd && |r| <= 7
    ensures |ymd| >= 7 ==> |r| == 7
    ensures |ymd| < 7 ==> r == ymd
  {
    if |ymd| < 7 then ymd else ymd[..7]
  }

  /** A canonical "YYYY-MM" key: four-digit year without a leading zero, month 01 to 12. */
  predicate WellFormed(ym: string) {
    && |ym| == 7
    && AllDigits(ym[..4]) && ym[0] != '0'
    && ym[4] == '-'
    && AllDigits(ym[5..]) && 1 <= DigitsValue(ym[5..]) <= 12
  }

  function Year(ym: string): nat
    requires WellFormed(ym)
  {
    DigitsValue(ym[..4])
  }

  function Index(ym: string): int
    requires WellFormed(ym)
  {
    Year(ym) * 12 + DigitsValue(ym[5..]) - 1
  }

  /** Digits without a leading zero are exactly what `String` prints for their value. */
  lemma {:induction false} CanonicalDigits(s: string)
    requires AllDigits(s) && |s| >= 1 && (s[0] != '0' || |s| == 1)
    ensures NatToString(DigitsValue(s)) == s
    decreases |s|
  {
    if |s| > 1 {
      var p := s[..|s| - 1];
      assert p[0] == s[0];
      CanonicalDigits(p);
      var v := DigitsValue(s);
      var d := DigitValue(s[|s| - 1]);
      assert v == DigitsValue(p) * 10 + d;
      assert DigitsValue(p) != 0 by {
        assert NatToString(0) == "0";
      }
      assert v / 10 == DigitsValue(p) && v % 10 == d;
      assert s == p + [s[|s| - 1]];
    }
  }

  /** The first c in a + [c] + b is the one after a, when a has none. */
  lemma {:induction false} IndexOfAfter(a: string, c: char, b: string)
    requires c !in a
    ensures IndexOf(a + [c] + b, c) == |a|
    decreases |a|
  {
    if a != [] {
      assert (a + [c] + b)[1..] == a[1..] + [c] + b;
      IndexOfAfter(a[1..], c, b);
    }
  }

  lemma NoDashInDigits(s: string)
    requires AllDigits(s)
    ensures '-' !in s
  {
    assert forall j :: 0 <= j < |s| ==> s[j] != '-' by {
      forall j | 0 <= j < |s| ensures s[j] != '-' {
        assert IsDigit(s[j]);
      }
    }
  }

  /** Splitting two digit strings joined by '-' gives them back. */
  lemma FieldsOfJoin(ys: string, ms: string)
    requires AllDigits(ys) && AllDigits(ms)
    ensures Fields(ys + "-" + ms) == (ys, Some(ms))
  {
    var k := ys + "-" + ms;
    NoDashInDigits(ys);
    NoDashInDigits(ms);
    IndexOfAfter(ys, '-', ms);
    IndexOfSpec(ms, '-');
    assert k[..|ys|] == ys;
    assert k[|ys| + 1..] == ms;
  }

  /** The month index read from two digit fields joined by '-'. */
  lemma MonthIndexOfJoin(ys: string, ms: string)
    requires AllDigits(ys) && AllDigits(ms)
    ensures MonthIndex(ys + "-" + ms) == Some(FullYear(DigitsValue(ys)) * 12 + DigitsValue(ms) - 1)
  {
    FieldsOfJoin(ys, ms);
  }

  /** Reading back a key whose year is at least 100 gives its month index. */
  lemma KeyIndex(i: int)
    requires i >= 1200
    ensures MonthIndex(Key(i)) == Some(i)
  {
    var ys := NatToString(i / 12);
    var ms := Pad2(i % 12 + 1);
    NatToStringValue(i / 12);
    Pad2Value(i % 12 + 1);
    assert Key(i) == ys + "-" + ms;
    MonthIndexOfJoin(ys, ms);
  }

  /** `addMonths` moves a readable month by `delta` on the month index. */
  lemma AddMonthsOfIndex(ym: string, i: int, delta: int, j: int)
    requires MonthIndex(ym) == Some(i) && j == i + delta
    ensures AddMonths(ym, delta) == Key(j)
  {
  }

  /** Four digits without a leading zero make a number of at least 1000. */
  lemma FourDigitYear(ys: string)
    requires |ys| == 4 && AllDigits(ys) && ys[0] != '0'
    ensures DigitsValue(ys) >= 1000
  {
    assert ys[..3][..2] == ys[..2] && ys[..2][..1] == ys[..1] && ys[..1][..0] == [];
    assert DigitsValue(ys[..1]) == DigitValue(ys[0]) >= 1;
    assert DigitsValue(ys[..2]) == DigitsValue(ys[..1]) * 10 + DigitValue(ys[1]);
    assert DigitsValue(ys[..3]) == DigitsValue(ys[..2]) * 10 + DigitValue(ys[2]);
  }

  /** Padding the value of two digits gives the digits back. */
  lemma TwoDigitMonth(ms: string)
    requires |ms| == 2 && AllDigits(ms)
    ensures DigitsValue(ms) < 100 && Pad2(DigitsValue(ms)) == ms
  {
    var m := DigitsValue(ms);
    assert ms[..1] == [ms[0]] && ms[..1][..0] == [];
    assert DigitsValue(ms[..1]) == DigitValue(ms[0]);
    assert m / 10 == DigitValue(ms[0]) && m % 10 == DigitValue(ms[1]);
  }

  /** A canonical key is the key of its own month index. */
  lemma WellFormedIsKey(ym: string)
    requires WellFormed(ym)
    ensures Index(ym) >= 12000 && Key(Index(ym)) == ym
  {
    var ys, ms := ym[..4], ym[5..];
    CanonicalDigits(ys);
    FourDigitYear(ys);
    TwoDigitMonth(ms);
    var y := Year(ym);
    var m := DigitsValue(ms);
    assert Index(ym) / 12 == y && Index(ym) % 12 + 1 == m;
    assert ym == ys + "-" + ms;
  }

  /**
   * For a canonical key, going `delta` months forward and `delta` months back
   * returns the key, as long as the month in between lies in a year of at
   * least 100.
   */
  lemma AddMonthsRoundTrip(ym: string, delta: int)
    requires WellFormed(ym)
    requires Index(ym) + delta >= 1200
    ensures AddMonths(AddMonths(ym, delta), -delta) == ym
  {
    var i := Index(ym);
    WellFormedIndex(ym);
    StepFrom(ym, i, delta, i + delta);
    AddMonthsOfIndex(Key(i + delta), i + delta, -delta, i);
  }

  lemma WellFormedIndex(ym: string)
    requires WellFormed(ym)
    ensures Index(ym) >= 12000 && Key(Index(ym)) == ym && MonthIndex(ym) == Some(Index(ym))
  {
    WellFormedIsKey(ym);
    KeyIndex(Index(ym));
  }

  lemma StepFrom(ym: string, i: int, delta: int, j: int)
    requires MonthIndex(ym) == Some(i) && j == i + delta && j >= 1200
    ensures AddMonths(ym, delta) == Key(j)
    ensures MonthIndex(Key(j)) == Some(j)
  {
    AddMonthsOfIndex(ym, i, delta, j);
    KeyIndex(j);
  }

  /** The key of month index y * 12 is January of year y. */
  lemma KeyOfJanuary(y: nat, i: int)
    requires i == y * 12
    ensures Key(i) == NatToString(y) + "-01"
  {
    assert i / 12 == y && i % 12 == 0;
    assert Pad2(1) == "01";
  }

  /** One month after the last month of year y - 1 is January of year y. */
  lemma JanuaryAfter(ym: string, i: int, y: nat)
    requires MonthIndex(ym) == Some(i) && i + 1 == y * 12
    ensures AddMonths(ym, 1) == NatToString(y) + "-01"
  {
    var j := y * 12;
    AddMonthsOfIndex(ym, i, 1, j);
    KeyOfJanuary(y, j);
  }

  /** A canonical key reads as its month index. */
  lemma WellFormedMonthIndex(ym: string)
    requires WellFormed(ym)
    ensures MonthIndex(ym) == Some(Index(ym))
  {
    FourDigitYear(ym[..4]);
    MonthIndexOfJoin(ym[..4], ym[5..]);
    assert ym == ym[..4] + "-" + ym[5..];
  }

  /** December plus one month is January of the next year. */
  lemma DecemberRollsOver(ym: string)
    requires WellFormed(ym) && ym[5..] == "12"
    ensures AddMonths(ym, 1) == NatToString(Year(ym) + 1) + "-01"
  {
    var y := Year(ym);
    WellFormedMonthIndex(ym);
    Pad2Value(12);
    assert DigitsValue(ym[5..]) == 12;
    JanuaryAfter(ym, Index(ym), y + 1);
  }

  /** The month before a canonical key is a different key. */
  lemma PreviousMonthDiffers(ym: string)
    requires WellFormed(ym)
    ensures AddMonths(ym, -1) != ym
  {
    WellFormedIndex(ym);
    StepFrom(ym, Index(ym), -1, Index(ym) - 1);
  }

  /** The date written for the first day of a month maps back to that month. */
  lemma MonthOfFirstDay(ym: string)
    requires |ym| == 7
    ensures YmFromDate(ym + "-01") == ym
  {
  }
}
