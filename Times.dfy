/**
 * Timestamps as the renderer shows them: CSV cells use "YYYY-MM-DD HH:MM:SS +0000"
 * (UTC), long mode and the key/value views use "Mon DD  YYYY" with the day
 * right-aligned in two positions, and the one-line views append a relative
 * age ("7 months ago", "about 1 year ago") measured against an injected "now".
 */
module Times {
  import opened Wrappers
  import opened Text

  /** A UTC calendar timestamp. */
  datatype DateTime = DateTime(year: nat, month: nat, day: nat, hour: nat, minute: nat, second: nat)

  predicate IsLeapYear(y: nat) {
    y % 4 == 0 && (y % 100 != 0 || y % 400 == 0)
  }

  function DaysInMonth(y: nat, m: nat): nat
  {
    if m == 2 then (if IsLeapYear(y) then 29 else 28)
    else if m == 4 || m == 6 || m == 9 || m == 11 then 30
    else 31
  }

  /** A real calendar moment with a year of at most four digits. */
  predicate Valid(t: DateTime) {
    && t.year <= 9999
    && 1 <= t.month <= 12
    && 1 <= t.day <= DaysInMonth(t.year, t.month)
    && t.hour < 24 && t.minute < 60 && t.second < 60
  }

  // ------------------------------------------------------------ zero padding

  function Pow10(w: nat): nat {
    if w == 0 then 1 else 10 * Pow10(w - 1)
  }

  function Zeros(n: nat): (s: string)
    ensures |s| == n && forall i :: 0 <= i < n ==> s[i] == '0'
  {
    seq(n, _ => '0')
  }

  /** strftime's zero-padded numeric fields (%Y, %m, %d, %H, %M, %S). */
  function ZeroPad(n: nat, w: nat): string
  {
    var d := NatToString(n);
    if |d| < w then Zeros(w - |d|) + d else d
  }

  lemma {:induction false} WidthBound(n: nat, w: nat)
    requires 1 <= w && n < Pow10(w)
    ensures |NatToString(n)| <= w
    decreases w
  {
    if n >= 10 {
      assert w > 1;
      WidthBound(n / 10, w - 1);
    }
  }

  lemma {:induction false} ZerosValue(n: nat)
    ensures AllDigits(Zeros(n)) && DigitsValue(Zeros(n)) == 0
    decreases n
  {
    if n > 0 {
      assert Zeros(n)[..n - 1] == Zeros(n - 1);
      ZerosValue(n - 1);
    }
  }

  lemma {:induction false} LeadingZerosValue(z: nat, s: string)
    requires AllDigits(s)
    ensures AllDigits(Zeros(z) + s) && DigitsValue(Zeros(z) + s) == DigitsValue(s)
    decreases |s|
  {
    var t := Zeros(z) + s;
    if s == [] {
      assert t == Zeros(z);
      ZerosValue(z);
    } else {
      assert t[..|t| - 1] == Zeros(z) + s[..|s| - 1];
      LeadingZerosValue(z, s[..|s| - 1]);
    }
  }

  /** A zero-padded field has exactly its width and reads back as the number. */
  lemma ZeroPadValue(n: nat, w: nat)
    requires 1 <= w && n < Pow10(w)
    ensures |ZeroPad(n, w)| == w && AllDigits(ZeroPad(n, w)) && DigitsValue(ZeroPad(n, w)) == n
  {
    WidthBound(n, w);
    var d := NatToString(n);
    if |d| < w {
      LeadingZerosValue(w - |d|, d);
    }
  }

  // ------------------------------------------------------------ CSV format

  /** The CSV date-time layout, `YYYY-MM-DD HH:MM:SS +0000`, the form every CSV date cell takes. */
  function CsvTime(t: DateTime): string
  {
    Join([CsvDate(t), CsvClock(t), "+0000"], ' ')
  }

  function CsvDate(t: DateTime): string
  {
    Join([ZeroPad(t.year, 4), ZeroPad(t.month, 2), ZeroPad(t.day, 2)], '-')
  }

  function CsvClock(t: DateTime): string
  {
    Join([ZeroPad(t.hour, 2), ZeroPad(t.minute, 2), ZeroPad(t.second, 2)], ':')
  }

  /** A numeric field of exactly `w` digits. */
  function FixedField(s: string, w: nat): Option<nat>
  {
    if |s| == w && AllDigits(s) then Some(DigitsValue(s)) else None
  }

  /** Reads a CSV date cell back; anything not of that exact shape is refused. */
  function ParseCsvTime(s: string): (r: Option<DateTime>)
    ensures r.Some? ==> Valid(r.value)
  {
    var parts := Split(s, ' ');
    if |parts| != 3 || parts[2] != "+0000" then None
    else
      var date, clock := Split(parts[0], '-'), Split(parts[1], ':');
      if |date| != 3 || |clock| != 3 then None
      else
        var y, mo, d := FixedField(date[0], 4), FixedField(date[1], 2), FixedField(date[2], 2);
        var h, mi, se := FixedField(clock[0], 2), FixedField(clock[1], 2), FixedField(clock[2], 2);
        if y.None? || mo.None? || d.None? || h.None? || mi.None? || se.None? then None
        else
          var t := DateTime(y.value, mo.value, d.value, h.value, mi.value, se.value);
          if Valid(t) then Some(t) else None
  }

  lemma FixedFieldOfPad(n: nat, w: nat)
    requires 1 <= w && n < Pow10(w)
    ensures FixedField(ZeroPad(n, w), w) == Some(n)
    ensures forall c :: !IsDigit(c) ==> c !in ZeroPad(n, w)
  {
    ZeroPadValue(n, w);
  }

  /** Every valid timestamp survives the trip through its CSV cell. */
  lemma CsvTimeRoundTrip(t: DateTime)
    requires Valid(t)
    ensures ParseCsvTime(CsvTime(t)) == Some(t)
  {
    CsvDateFields(t);
    CsvClockFields(t);
    SplitJoin([CsvDate(t), CsvClock(t), "+0000"], ' ');
  }

  lemma CsvDateFields(t: DateTime)
    requires Valid(t)
    ensures ' ' !in CsvDate(t)
    ensures var f := Split(CsvDate(t), '-');
      |f| == 3 && FixedField(f[0], 4) == Some(t.year) &&
      FixedField(f[1], 2) == Some(t.month) && FixedField(f[2], 2) == Some(t.day)
  {
    FixedFieldOfPad(t.year, 4);
    FixedFieldOfPad(t.month, 2);
    FixedFieldOfPad(t.day, 2);
    DigitFields([ZeroPad(t.year, 4), ZeroPad(t.month, 2), ZeroPad(t.day, 2)], '-');
  }

  lemma CsvClockFields(t: DateTime)
    requires Valid(t)
    ensures ' ' !in CsvClock(t)
    ensures var f := Split(CsvClock(t), ':');
      |f| == 3 && FixedField(f[0], 2) == Some(t.hour) &&
      FixedField(f[1], 2) == Some(t.minute) && FixedField(f[2], 2) == Some(t.second)
  {
    FixedFieldOfPad(t.hour, 2);
    FixedFieldOfPad(t.minute, 2);
    FixedFieldOfPad(t.second, 2);
    DigitFields([ZeroPad(t.hour, 2), ZeroPad(t.minute, 2), ZeroPad(t.second, 2)], ':');
  }

  /** Digit fields joined by a separator that is neither a digit nor a blank split back apart. */
  lemma DigitFields(xs: seq<string>, sep: char)
    requires |xs| >= 1 && !IsDigit(sep) && sep != ' '
    requires forall i :: 0 <= i < |xs| ==> AllDigits(xs[i])
    ensures Split(Join(xs, sep), sep) == xs
    ensures ' ' !in Join(xs, sep)
  {
    forall i | 0 <= i < |xs| ensures sep !in xs[i] && ' ' !in xs[i] {
      DigitsAvoid(xs[i], sep);
      DigitsAvoid(xs[i], ' ');
    }
    SplitJoin(xs, sep);
    JoinAvoids(xs, sep, ' ');
  }

  // ------------------------------------------------------- long-mode dates

  function MonthAbbrev(m: nat): (s: string)
    ensures |s| == 3
  {
    if 1 <= m <= 12 then ["Jan", "Feb", "Mar", "Apr", "May", "Jun",
                          "Jul", "Aug", "Sep", "Oct", "Nov", "Dec"][m - 1]
    else "???"
  }

  /** strftime("%b %e  %Y"): month abbreviation, space-padded day, two spaces, year. */
  function LongDate(t: DateTime): string
  {
    MonthAbbrev(t.month) + " " + RJust(NatToString(t.day), 2) + "  " + ZeroPad(t.year, 4)
  }

  function MonthOf(abbrev: string): Option<nat>
  {
    if abbrev == "Jan" then Some(1) else if abbrev == "Feb" then Some(2)
    else if abbrev == "Mar" then Some(3) else if abbrev == "Apr" then Some(4)
    else if abbrev == "May" then Some(5) else if abbrev == "Jun" then Some(6)
    else if abbrev == "Jul" then Some(7) else if abbrev == "Aug" then Some(8)
    else if abbrev == "Sep" then Some(9) else if abbrev == "Oct" then Some(10)
    else if abbrev == "Nov" then Some(11) else if abbrev == "Dec" then Some(12)
    else None
  }

  /** Reads a long-mode date back as (year, month, day). */
  function ParseLongDate(s: string): Option<(nat, nat, nat)>
  {
    if |s| == 12 && s[3] == ' ' && s[6..8] == "  " && MonthOf(s[..3]).Some?
       && IsDigit(s[5]) && (s[4] == ' ' || IsDigit(s[4])) && AllDigits(s[8..])
    then
      var day := if s[4] == ' ' then DigitsValue(s[5..6]) else DigitsValue(s[4..6]);
      Some((DigitsValue(s[8..]), MonthOf(s[..3]).value, day))
    else None
  }

  /**
   * A long-mode date is always twelve characters wide, and it determines the
   * calendar day: reading it back gives the year, month and day shown.
   */
  lemma LongDateRoundTrip(t: DateTime)
    requires Valid(t)
    ensures |LongDate(t)| == 12
    ensures ParseLongDate(LongDate(t)) == Some((t.year, t.month, t.day))
  {
    var m, dd, y := MonthAbbrev(t.month), RJust(NatToString(t.day), 2), ZeroPad(t.year, 4);
    ZeroPadValue(t.year, 4);
    DayField(t.day);
    LongDateLayout(m, dd, y);
    assert MonthOf(m) == Some(t.month) by { MonthNames(t.month); }
  }

  /** The three fields of a long-mode date sit at fixed columns. */
  lemma LongDateLayout(m: string, dd: string, y: string)
    requires |m| == 3 && |dd| == 2 && |y| == 4
    ensures var s := m + " " + dd + "  " + y;
      |s| == 12 && s[..3] == m && s[3] == ' ' && s[4..6] == dd && s[4] == dd[0] && s[5] == dd[1] &&
      s[6..8] == "  " && s[8..] == y
  {
    var s := m + " " + dd + "  " + y;
    assert s[..3] == m;
    assert s[4..6] == dd;
    assert s[6..8] == "  ";
    assert s[8..] == y;
  }

  /** The space-padded day field reads back as the day. */
  lemma DayField(d: nat)
    requires 1 <= d <= 31
    ensures var dd := RJust(NatToString(d), 2);
      |dd| == 2 && IsDigit(dd[1]) && (dd[0] == ' ' || IsDigit(dd[0])) &&
      (if dd[0] == ' ' then DigitsValue(dd[1..2]) else DigitsValue(dd)) == d
  {
    WidthBound(d, 2);
    var n := NatToString(d);
    var dd := RJust(n, 2);
    if d < 10 {
      assert dd == " " + n && dd[1..2] == n;
    } else {
      assert dd == n;
      assert n[0] != '0';
    }
  }

  lemma MonthNames(m: nat)
    requires 1 <= m <= 12
    ensures MonthOf(MonthAbbrev(m)) == Some(m)
  {
  }

  // ---------------------------------------------------------- relative age

  /** Days from 1 March of year 0 to 1 March of year `400 * era + k`'s cycle start plus `k` years. */
  function YearStart(k: nat): nat
  {
    k * 365 + k / 4 - k / 100
  }

  /** Day number (relative to 1 March of year 0) of 1 March of year `p`. */
  function MarchFirst(p: int): int
  {
    (p / 400) * 146097 + YearStart(p % 400)
  }

  /** Days from 1 March to the first of the month `mp` months later. */
  function MonthStart(mp: nat): nat
  {
    (153 * mp + 2) / 5
  }

  /** Days since 1970-01-01 of a calendar date; years are counted from March. */
  function DaysFromCivil(y: nat, m: nat, d: nat): int
  {
    var p: int := if m <= 2 then y - 1 else y;
    var mp := if m > 2 then m - 3 else m + 9;
    MarchFirst(p) + MonthStart(mp) + d - 1 - 719468
  }

  function EpochSeconds(t: DateTime): int
  {
    DaysFromCivil(t.year, t.month, t.day) * 86400 + t.hour * 3600 + t.minute * 60 + t.second
  }

  /** The day after `t` in the calendar (time of day kept). */
  function NextDay(t: DateTime): DateTime
  {
    if t.day < DaysInMonth(t.year, t.month) then t.(day := t.day + 1)
    else if t.month < 12 then t.(month := t.month + 1, day := 1)
    else t.(year := t.year + 1, month := 1, day := 1)
  }

  /** Consecutive calendar days are exactly one day apart in the day count. */
  lemma NextDayIsOneDayLater(t: DateTime)
    requires Valid(t)
    ensures EpochSeconds(NextDay(t)) == EpochSeconds(t) + 86400
  {
    var n := NextDay(t);
    NextDayCount(t);
    assert DaysFromCivil(n.year, n.month, n.day) * 86400 == DaysFromCivil(t.year, t.month, t.day) * 86400 + 86400;
  }

  lemma NextDayCount(t: DateTime)
    requires Valid(t)
    ensures var n := NextDay(t); DaysFromCivil(n.year, n.month, n.day) == DaysFromCivil(t.year, t.month, t.day) + 1
  {
    var y, m, d := t.year, t.month, t.day;
    if d < DaysInMonth(y, m) {
      assert NextDay(t) == t.(day := d + 1);
      WithinMonth(y, m, d);
    } else if m < 12 {
      assert NextDay(t) == t.(month := m + 1, day := 1);
      MonthEnd(y, m);
    } else {
      assert NextDay(t) == t.(year := y + 1, month := 1, day := 1);
      YearEnd(y);
    }
  }

  lemma WithinMonth(y: nat, m: nat, d: nat)
    ensures DaysFromCivil(y, m, d + 1) == DaysFromCivil(y, m, d) + 1
  {
  }

  /** The first of the next month follows the last day of a month before December. */
  lemma MonthEnd(y: nat, m: nat)
    requires 1 <= m < 12
    ensures DaysFromCivil(y, m + 1, 1) == DaysFromCivil(y, m, DaysInMonth(y, m)) + 1
  {
    if m == 2 {
      MarchFollowsFebruary(y);
    } else if m == 1 {
      assert MonthStart(11) == MonthStart(10) + 31;
    } else {
      MonthLength(y, m);
    }
  }

  /** New Year's Day follows 31 December. */
  lemma YearEnd(y: nat)
    ensures DaysFromCivil(y + 1, 1, 1) == DaysFromCivil(y, 12, 31) + 1
  {
    assert MonthStart(10) == MonthStart(9) + 31;
  }

  /** From March to November, a month's first day plus its length is the next month's first day. */
  lemma MonthLength(y: nat, m: nat)
    requires 3 <= m <= 11
    ensures MonthStart(m - 2) == MonthStart(m - 3) + DaysInMonth(y, m)
  {
    if m == 3 { } else if m == 4 { } else if m == 5 { } else if m == 6 { }
    else if m == 7 { } else if m == 8 { } else if m == 9 { } else if m == 10 { } else { }
  }

  /** Within one 400-year cycle, a March-to-March year has 366 days exactly when it ends in a leap February. */
  lemma YearStartStep(k: nat)
    requires k < 399
    ensures YearStart(k + 1) == YearStart(k) + 365 + (if (k + 1) % 4 == 0 && (k + 1) % 100 != 0 then 1 else 0)
  {
    assert (k + 1) / 4 == k / 4 + (if (k + 1) % 4 == 0 then 1 else 0);
    assert (k + 1) / 100 == k / 100 + (if (k + 1) % 100 == 0 then 1 else 0);
  }

  /** Quotient and remainder by one of the calendar's moduli are fixed by any in-range decomposition. */
  lemma DivModOf(a: int, b: int, q: int, r: int)
    requires b == 4 || b == 100 || b == 400
    requires a == q * b + r && 0 <= r < b
    ensures a / b == q && a % b == r
  {
    if b == 4 {
      assert a == q * 4 + r;
    } else if b == 100 {
      assert a == q * 100 + r;
    } else {
      assert a == q * 400 + r;
    }
  }

  /** The year from 1 March of `p` to 1 March of `p + 1` is 365 days, plus one when `p + 1` is a leap year. */
  lemma MarchToMarch(p: int)
    requires p + 1 >= 0
    ensures MarchFirst(p + 1) == MarchFirst(p) + 365 + (if IsLeapYear(p + 1) then 1 else 0)
  {
    var era, k := p / 400, p % 400;
    if k == 399 {
      DivModOf(p + 1, 400, era + 1, 0);
      DivModOf(p + 1, 4, era * 100 + 100, 0);
      assert IsLeapYear(p + 1);
    } else {
      DivModOf(p + 1, 400, era, k + 1);
      YearStartStep(k);
      DivModOf(p + 1, 4, era * 100 + (k + 1) / 4, (k + 1) % 4);
      DivModOf(p + 1, 100, era * 4 + (k + 1) / 100, (k + 1) % 100);
    }
  }

  /** March 1st follows the last day of February, in leap and common years alike. */
  lemma MarchFollowsFebruary(y: nat)
    ensures DaysFromCivil(y, 3, 1) == DaysFromCivil(y, 2, DaysInMonth(y, 2)) + 1
  {
    MarchToMarch(y - 1);
  }

  /**
   * The age phrase of a post, measured in whole minutes rounded to nearest.
   * Only the two bands that the fixed-clock outputs exercise are modelled:
   * 60 to under 365 days shows "N months ago" (N = minutes / 43200, rounded),
   * 365 days to under 365 days plus three months shows "about 1 year ago";
   * any other age gives None.
   */
  function TimeAgo(posted: DateTime, now: DateTime): Option<string>
  {
    AgeInWords(MinutesBetween(posted, now))
  }

  /** Whole minutes from `posted` to `now`, rounded to the nearest minute. */
  function MinutesBetween(posted: DateTime, now: DateTime): int
  {
    (EpochSeconds(now) - EpochSeconds(posted) + 30) / 60
  }

  /** The phrase for an age given in minutes. */
  function AgeInWords(minutes: int): Option<string>
  {
    if 86400 <= minutes < 525600 then Some(NatToString((minutes + 21600) / 43200) + " months ago")
    else if 525600 <= minutes < 657000 then Some("about 1 year ago")
    else None
  }

  /**
   * In the month band the count shown is the nearest whole number of 30-day
   * months to the age, and lies between 2 and 12.
   */
  lemma MonthsAreNearest(minutes: int)
    requires 86400 <= minutes < 525600
    ensures exists n: nat ::
      && 2 <= n <= 12
      && AgeInWords(minutes) == Some(NatToString(n) + " months ago")
      && -21600 <= minutes - n * 43200 < 21600
  {
    var n := (minutes + 21600) / 43200;
    assert 2 <= n <= 12;
    assert n * 43200 <= minutes + 21600 < n * 43200 + 43200;
    assert AgeInWords(minutes) == Some(NatToString(n) + " months ago");
  }

  /** Ages shorter than sixty days, and ages of fifteen months or more, are outside the modelled bands. */
  lemma AgeBands(minutes: int)
    ensures AgeInWords(minutes).Some? <==> 86400 <= minutes < 657000
    ensures AgeInWords(minutes) == Some("about 1 year ago") <==> 525600 <= minutes < 657000
  {
    if 86400 <= minutes < 525600 {
      var n := (minutes + 21600) / 43200;
      var w := NatToString(n);
      assert (w + " months ago")[0] == w[0] && IsDigit(w[0]);
      assert "about 1 year ago"[0] == 'a';
    }
  }

  /** The instant every expected output in the suite is rendered at. */
  const FrozenNow: DateTime := DateTime(2011, 11, 24, 16, 20, 0)

  /** Day counts of the dates the samples below use. */
  lemma SampleDays()
    ensures DaysFromCivil(2011, 11, 24) == 15302
    ensures DaysFromCivil(2010, 10, 17) == 14899
    ensures DaysFromCivil(2010, 9, 9) == 14861
    ensures DaysFromCivil(2011, 4, 23) == 15087
    ensures DaysFromCivil(2011, 4, 6) == 15070
  {
    assert YearStart(11) == 4017 && YearStart(10) == 3652;
    assert MarchFirst(2011) == 734502 && MarchFirst(2010) == 734137;
    assert MonthStart(8) == 245 && MonthStart(7) == 214 && MonthStart(6) == 184 && MonthStart(1) == 31;
  }

  /** Posts of October and September 2010 read "about 1 year ago" at the frozen clock. */
  lemma YearOldSamples()
    ensures TimeAgo(DateTime(2010, 10, 17, 20, 48, 55), FrozenNow) == Some("about 1 year ago")
    ensures TimeAgo(DateTime(2010, 9, 9, 18, 11, 48), FrozenNow) == Some("about 1 year ago")
  {
    SampleDays();
    assert EpochSeconds(FrozenNow) == 15302 * 86400 + 58800;
    assert MinutesBetween(DateTime(2010, 10, 17, 20, 48, 55), FrozenNow) == 580051;
    assert MinutesBetween(DateTime(2010, 9, 9, 18, 11, 48), FrozenNow) == 634928;
  }

  /** Posts of 23 April 2011 read "7 months ago" at the frozen clock. */
  lemma SevenMonthSamples()
    ensures TimeAgo(DateTime(2011, 4, 23, 22, 7, 41), FrozenNow) == Some("7 months ago")
    ensures TimeAgo(DateTime(2011, 4, 23, 22, 0, 18), FrozenNow) == Some("7 months ago")
  {
    SampleDays();
    assert MinutesBetween(DateTime(2011, 4, 23, 22, 7, 41), FrozenNow) == 309252;
    assert MinutesBetween(DateTime(2011, 4, 23, 22, 0, 18), FrozenNow) == 309260;
    assert NatToString(7) + " months ago" == "7 months ago";
  }

  /** A post of 6 April 2011 reads "8 months ago", whatever its time of day. */
  lemma EightMonthsAgo(t: DateTime)
    requires Valid(t) && t.year == 2011 && t.month == 4 && t.day == 6
    ensures TimeAgo(t, FrozenNow) == Some("8 months ago")
  {
    SampleDays();
    var m := MinutesBetween(t, FrozenNow);
    assert 333600 <= m <= 335060;
    assert (m + 21600) / 43200 == 8;
    assert NatToString(8) + " months ago" == "8 months ago";
  }
}
