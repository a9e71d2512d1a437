/** lib/date.ts: resolving a partial "Mon D" label to a calendar date.

    A JavaScript `Date` at UTC midnight is modelled by its calendar fields
    (`Date`), and its `getTime()` by `DayNumber`, the count of days from
    0000-01-01 in the proleptic Gregorian calendar that `Date` uses (the two
    differ by a constant factor and offset, so comparisons and whole-day
    differences agree). */
module Dates {
  import opened Wrappers
  import opened Text

  /** `MONTHS`: lower-case three-letter keys to zero-based month numbers. */
  const MONTHS: map<string, int> := map[
    "jan" := 0, "feb" := 1, "mar" := 2, "apr" := 3, "may" := 4, "jun" := 5,
    "jul" := 6, "aug" := 7, "sep" := 8, "oct" := 9, "nov" := 10, "dec" := 11]

  /** `OUT_OF_ORDER_DAY_TOLERANCE`: how far past the previous date a label may
      land before it is taken to belong to the year before. */
  const OUT_OF_ORDER_DAY_TOLERANCE: int := 45

  lemma MonthsAreZeroBased()
    ensures forall key :: key in MONTHS ==> 0 <= MONTHS[key] <= 11
  {
  }

  // ---------------------------------------------------------------------------
  // The calendar

  /** A UTC calendar day; `month` is 1..12 (`getUTCMonth() + 1`). */
  datatype Date = Date(year: int, month: int, day: int)

  predicate IsLeapYear(y: int) {
    y % 4 == 0 && (y % 100 != 0 || y % 400 == 0)
  }

  function DaysInMonth(y: int, m: int): int
    requires 1 <= m <= 12
  {
    if m == 2 then (if IsLeapYear(y) then 29 else 28)
    else if m == 4 || m == 6 || m == 9 || m == 11 then 30
    else 31
  }

  predicate ValidDate(d: Date) {
    1 <= d.month <= 12 && 1 <= d.day <= DaysInMonth(d.year, d.month)
  }

  function YearLength(y: int): int {
    if IsLeapYear(y) then 366 else 365
  }

  /** Days of year y before the first of month m. */
  function DaysBeforeMonth(y: int, m: int): int
    requires 1 <= m <= 12
  {
    [0, 31, 59, 90, 120, 151, 181, 212, 243, 273, 304, 334][m - 1]
      + (if m > 2 && IsLeapYear(y) then 1 else 0)
  }

  lemma DaysBeforeNextMonth(y: int, m: int)
    requires 1 <= m <= 12
    ensures m < 12 ==> DaysBeforeMonth(y, m + 1) == DaysBeforeMonth(y, m) + DaysInMonth(y, m)
    ensures m == 12 ==> DaysBeforeMonth(y, m) + DaysInMonth(y, m) == YearLength(y)
  {
  }

  /** Days from 0000-01-01 to the first of January of year y. */
  function DaysBeforeYear(y: int): int
    decreases if y < 0 then -y else y
  {
    if y == 0 then 0
    else if y > 0 then DaysBeforeYear(y - 1) + YearLength(y - 1)
    else DaysBeforeYear(y + 1) - YearLength(y)
  }

  lemma DaysBeforeNextYear(y: int)
    ensures DaysBeforeYear(y + 1) == DaysBeforeYear(y) + YearLength(y)
  {
  }

  function DayNumber(d: Date): int
    requires 1 <= d.month <= 12
  {
    DaysBeforeYear(d.year) + DaysBeforeMonth(d.year, d.month) + d.day - 1
  }

  /** Every valid day of a year comes before every day of the next year. */
  lemma {:induction false} YearBeforeNextYear(a: Date, b: Date)
    requires ValidDate(a) && ValidDate(b) && b.year == a.year + 1
    ensures DayNumber(a) < DayNumber(b)
  {
    DaysBeforeNextYear(a.year);
    DaysBeforeNextMonth(a.year, a.month);
    if a.month < 12 {
      assert DaysBeforeMonth(a.year, a.month + 1) <= DaysBeforeMonth(a.year, 12);
      DaysBeforeNextMonth(a.year, 12);
    }
  }

  // ---------------------------------------------------------------------------
  // `Date.UTC(year, month, day)` for a zero-based month and a day in 1..31

  /** `Date.UTC` reads a year in 0..99 as 1900 + year. */
  function FullYear(year: int): int {
    if 0 <= year <= 99 then 1900 + year else year
  }

  /** The date `Date.UTC(year, month0, day)` stands for. A day past the end of
      the month is not rejected: it rolls over into the next month. December
      has 31 days, so the year never changes. */
  function UtcDate(year: int, month0: int, day: int): (r: Date)
    requires 0 <= month0 <= 11 && 1 <= day <= 31
    ensures ValidDate(r) && r.year == FullYear(year)
    ensures DayNumber(r) == DayNumber(Date(FullYear(year), month0 + 1, 1)) + day - 1
  {
    var y := FullYear(year);
    var m := month0 + 1;
    DaysBeforeNextMonth(y, m);
    if day <= DaysInMonth(y, m) then Date(y, m, day)
    else Date(y, m + 1, day - DaysInMonth(y, m))
  }

  // ---------------------------------------------------------------------------
  // Decimal numerals

  function DigitValue(c: char): int { c as int - '0' as int }

  function DigitChar(n: int): (c: char)
    requires 0 <= n <= 9
    ensures IsDigit(c) && DigitValue(c) == n
  {
    ('0' as int + n) as char
  }

  predicate AllDigits(s: string) {
    forall i :: 0 <= i < |s| ==> IsDigit(s[i])
  }

  /** `Number(s)` for a string of decimal digits. */
  function DecimalValue(s: string): (n: nat)
    requires AllDigits(s)
  {
    if s == [] then 0 else DecimalValue(s[..|s| - 1]) * 10 + DigitValue(s[|s| - 1])
  }

  /** `String(n)` for a natural number. */
  function DecimalString(n: nat): (s: string)
    ensures s != [] && AllDigits(s)
  {
    if n < 10 then [DigitChar(n)] else DecimalString(n / 10) + [DigitChar(n % 10)]
  }

  lemma {:induction false} DecimalRoundTrip(n: nat)
    ensures DecimalValue(DecimalString(n)) == n
  {
    if n >= 10 {
      DecimalRoundTrip(n / 10);
      var s := DecimalString(n);
      assert s[..|s| - 1] == DecimalString(n / 10);
    }
  }

  lemma FourDigitYear(n: nat)
    requires 1000 <= n <= 9999
    ensures |DecimalString(n)| == 4
  {
    assert (n / 10) / 10 == n / 100 && (n / 100) / 10 == n / 1000;
    assert |DecimalString(n / 1000)| == 1;
    assert |DecimalString(n / 100)| == 2;
    assert |DecimalString(n / 10)| == 3;
  }

  /** `String(n)` for any integer. */
  function IntString(n: int): string {
    if n < 0 then "-" + DecimalString(-n) else DecimalString(n)
  }

  /** `String(n).padStart(2, "0")` for 0..99. */
  function Pad2(n: int): (s: string)
    requires 0 <= n <= 99
    ensures |s| == 2 && AllDigits(s) && DecimalValue(s) == n
  {
    if n < 10 then
      var s := "0" + [DigitChar(n)];
      assert s[..1] == "0" && "0"[..0] == [];
      assert DecimalValue("0") == 0;
      s
    else
      DecimalRoundTrip(n);
      DecimalString(n)
  }

  /** `toIsoDateUTC`: `${year}-${MM}-${DD}`. */
  function ToIsoDate(d: Date): string
    requires ValidDate(d)
  {
    IntString(d.year) + "-" + Pad2(d.month) + "-" + Pad2(d.day)
  }

  /** For a four-digit year the output is the `full-date` form of section 5.6 of
      RFC 3339, and the three numerals read back as the year, month and day. */
  lemma IsoDateFields(d: Date)
    requires ValidDate(d) && 1000 <= d.year <= 9999
    ensures var s := ToIsoDate(d);
      && |s| == 10 && s[4] == '-' && s[7] == '-'
      && AllDigits(s[..4]) && AllDigits(s[5..7]) && AllDigits(s[8..])
      && DecimalValue(s[..4]) == d.year
      && DecimalValue(s[5..7]) == d.month
      && DecimalValue(s[8..]) == d.day
  {
    var s := ToIsoDate(d);
    FourDigitYear(d.year);
    DecimalRoundTrip(d.year);
    assert s[..4] == DecimalString(d.year);
    assert s[5..7] == Pad2(d.month);
    assert s[8..] == Pad2(d.day);
  }

  // ---------------------------------------------------------------------------
  // Cleaning and parsing the label

  /** `.replace(/^T(?=[A-Za-z])/, "")` */
  function DropLeadingT(s: string): string {
    if |s| >= 2 && s[0] == 'T' && IsLetter(s[1]) then s[1..] else s
  }

  /** `.replace(/:$/, "")` */
  function DropTrailingColon(s: string): string {
    if s != [] && s[|s| - 1] == ':' then s[..|s| - 1] else s
  }

  /** `normalizeDateLabel`: trim, then drop a stray leading "T" and one
      trailing colon, then collapse whitespace runs to one space. */
  function NormalizeDateLabel(monthDay: string): (r: string)
    ensures |r| <= |monthDay|
  {
    CollapseSpaces(DropTrailingColon(DropLeadingT(Trim(monthDay))))
  }

  /** The cleaned label has single spaces and does not start with one. */
  lemma NormalizeDateLabelShape(monthDay: string)
    ensures var r := NormalizeDateLabel(monthDay);
      SingleSpaced(r) && (r == [] || r[0] != ' ')
  {
    var t := Trim(monthDay);
    var u := DropTrailingColon(DropLeadingT(t));
    TrimShape(monthDay);
    assert u != [] ==> !IsSpace(u[0]);
    CollapseSpacesShape(u);
  }

  /** The first index of a space, or |c| when there is none. */
  function FirstSpace(c: string): (k: nat)
    ensures k <= |c| && (k < |c| ==> c[k] == ' ')
    ensures forall i :: 0 <= i < k ==> c[i] != ' '
  {
    if c == [] || c[0] == ' ' then 0 else 1 + FirstSpace(c[1..])
  }

  /** `[A-Za-z]{3,}` */
  predicate IsMonthWord(w: string) {
    |w| >= 3 && forall i :: 0 <= i < |w| ==> IsLetter(w[i])
  }

  /** `\d{1,2}` */
  predicate IsDayDigits(ds: string) {
    1 <= |ds| <= 2 && AllDigits(ds)
  }

  datatype MonthDay = MonthDay(month0: int, day: int)

  /** What `parseMonthDay` can return: a zero-based month and a day in 1..31. */
  type ParsedMonthDay = md: MonthDay | 0 <= md.month0 <= 11 && 1 <= md.day <= 31
    witness MonthDay(0, 1)

  /** `parseMonthDay`: the cleaned label must match `^([A-Za-z]{3,})\s+(\d{1,2})$`;
      the month is the lower-cased first three letters looked up in `MONTHS`
      and the day must lie in 1..31. A thrown `Error` is an `Err`. */
  function ParseMonthDay(monthDay: string): (r: Result<MonthDay>)
    ensures r.Ok? ==> 0 <= r.value.month0 <= 11 && 1 <= r.value.day <= 31
  {
    ParseCleanLabel(NormalizeDateLabel(monthDay), monthDay)
  }

  /** The body of `parseMonthDay` once the label is cleaned to c; the original
      label only appears in the error messages. */
  function ParseCleanLabel(c: string, monthDay: string): (r: Result<MonthDay>)
    ensures r.Ok? ==> 0 <= r.value.month0 <= 11 && 1 <= r.value.day <= 31
  {
    var k := FirstSpace(c);
    if !(k < |c| && IsMonthWord(c[..k]) && IsDayDigits(c[k + 1..])) then
      Err("Invalid date format: " + monthDay)
    else
      var key := Lower(c[..3]);
      var day := DecimalValue(c[k + 1..]);
      if key !in MONTHS || day < 1 || day > 31 then Err("Invalid date value: " + monthDay)
      else
        MonthsAreZeroBased();
        Ok(MonthDay(MONTHS[key], day))
  }

  /** `isSupportedMonthDayLabel`: `parseMonthDay` does not throw. */
  predicate IsSupportedMonthDayLabel(monthDay: string) {
    ParseMonthDay(monthDay).Ok?
  }

  /** The cleaned label c splits at index k into a month word, one space and a
      day in 1..31. */
  predicate IsMonthDayAt(c: string, k: int) {
    && 0 <= k < |c| && c[k] == ' ' && IsMonthWord(c[..k]) && IsDayDigits(c[k + 1..])
    && Lower(c[..3]) in MONTHS && 1 <= DecimalValue(c[k + 1..]) <= 31
  }

  lemma SplitIsFirstSpace(c: string, k: int)
    requires 0 <= k < |c| && c[k] == ' ' && IsMonthWord(c[..k])
    ensures FirstSpace(c) == k
  {
    forall i | 0 <= i < k ensures c[i] != ' ' { assert IsLetter(c[..k][i]); }
  }

  /** A label is a date header exactly when its cleaned form is a word of at
      least three letters, one space and one or two digits, the word's first
      three letters name a month, and the day is in 1..31. */
  lemma SupportedLabelIff(monthDay: string)
    ensures IsSupportedMonthDayLabel(monthDay) <==>
      exists k :: IsMonthDayAt(NormalizeDateLabel(monthDay), k)
  {
    CleanLabelIff(NormalizeDateLabel(monthDay), monthDay);
  }

  lemma CleanLabelIff(c: string, monthDay: string)
    ensures ParseCleanLabel(c, monthDay).Ok? <==> exists k :: IsMonthDayAt(c, k)
  {
    var k0 := FirstSpace(c);
    if ParseCleanLabel(c, monthDay).Ok? {
      assert IsMonthDayAt(c, k0);
    } else {
      forall k ensures !IsMonthDayAt(c, k) {
        if 0 <= k < |c| && c[k] == ' ' && IsMonthWord(c[..k]) { SplitIsFirstSpace(c, k); }
      }
    }
  }

  /** A label written as a month word, one space and one or two digits is
      already clean, and it parses to the month named by the word's first three
      letters and the day the digits spell, or fails with "Invalid date value". */
  lemma ParseOfMonthDayLabel(w: string, ds: string)
    requires IsMonthWord(w) && w[0] != 'T' && IsDayDigits(ds)
    ensures var key := Lower(w[..3]);
      var day := DecimalValue(ds);
      ParseMonthDay(w + " " + ds) ==
        if key in MONTHS && 1 <= day <= 31 then Ok(MonthDay(MONTHS[key], day))
        else Err("Invalid date value: " + (w + " " + ds))
  {
    var s := w + " " + ds;
    CleanMonthDayLabel(w, ds);
    assert ParseMonthDay(s) == ParseCleanLabel(s, s);
    MonthDayLabelShape(w, ds);
    assert s[|w| + 1..] == ds;
    PrefixOfConcat(w + " ", ds, 3);
    PrefixOfConcat(w, " ", 3);
    assert IsMonthWord(s[..|w|]) && IsDayDigits(s[|w| + 1..]);
  }

  lemma PrefixOfConcat(a: string, b: string, n: nat)
    requires n <= |a|
    ensures (a + b)[..n] == a[..n]
  {
  }

  /** Only the first three letters of the month word matter: "Janxyz 5" reads
      as "jan 5", and "Decline 10" as December 10. */
  lemma MonthFromFirstThreeLetters(w1: string, w2: string, ds: string)
    requires IsMonthWord(w1) && IsMonthWord(w2) && w1[0] != 'T' && w2[0] != 'T'
    requires Lower(w1[..3]) == Lower(w2[..3]) && IsDayDigits(ds)
    ensures ParseMonthDay(w1 + " " + ds).Ok? == ParseMonthDay(w2 + " " + ds).Ok?
    ensures ParseMonthDay(w1 + " " + ds).Ok? ==>
      ParseMonthDay(w1 + " " + ds).value == ParseMonthDay(w2 + " " + ds).value
  {
    ParseOfMonthDayLabel(w1, ds);
    ParseOfMonthDayLabel(w2, ds);
  }

  lemma CleanMonthDayLabel(w: string, ds: string)
    requires IsMonthWord(w) && w[0] != 'T' && IsDayDigits(ds)
    ensures NormalizeDateLabel(w + " " + ds) == w + " " + ds
    ensures FirstSpace(w + " " + ds) == |w|
  {
    var s := w + " " + ds;
    MonthDayLabelShape(w, ds);
    TrimOfTrimmed(s);
    assert DropLeadingT(s) == s;
    assert DropTrailingColon(s) == s;
    CollapseOfSingleSpaced(s);
    SplitIsFirstSpace(s, |w|);
  }

  lemma MonthDayLabelShape(w: string, ds: string)
    requires IsMonthWord(w) && IsDayDigits(ds)
    ensures var s := w + " " + ds;
      IsTrimmed(s) && SingleSpaced(s) && s[|s| - 1] != ':' && s[|w|] == ' ' && s[..|w|] == w
  {
    var s := w + " " + ds;
    assert s[0] == w[0] && s[|s| - 1] == ds[|ds| - 1];
    assert IsLetter(w[0]);
    forall i | 0 <= i < |s| ensures IsSpace(s[i]) ==> s[i] == ' ' {
      if i < |w| { assert s[i] == w[i]; } else if i > |w| { assert s[i] == ds[i - |w| - 1]; }
    }
    forall i, j | 0 <= i && j == i + 1 && j < |s| ensures !(s[i] == ' ' && s[j] == ' ') {
      if i < |w| { assert s[i] == w[i]; } else { assert s[j] == ds[i - |w|]; }
    }
  }

  lemma DeclineIsDecember()
    ensures ParseMonthDay("Decline 10") == Ok(MonthDay(11, 10))
  {
    ParseOfMonthDayLabel("Decline", "10");
    assert "Decline" + " " + "10" == "Decline 10";
    assert "Decline"[..3] == "Dec";
    assert Lower("Dec") == "dec";
    assert DecimalValue("10") == 10 by { assert "10"[..1] == "1"; }
  }

  // ---------------------------------------------------------------------------
  // Choosing the year

  /** The year choice of `parseMonthDayToIso` for an already parsed label.
      Without a previous date the year is now's UTC year, one less when that
      date would be after today (UTC). With one it is the previous date's year,
      one less when the date would be more than `OUT_OF_ORDER_DAY_TOLERANCE`
      whole days after it. */
  function ResolveYear(md: ParsedMonthDay, previous: Option<Date>, now: Date): (r: Date)
    requires ValidDate(now)
    requires previous.Some? ==> ValidDate(previous.value)
    ensures ValidDate(r)
  {
    match previous
    case None =>
      var candidate := UtcDate(now.year, md.month0, md.day);
      if DayNumber(candidate) > DayNumber(now) then UtcDate(now.year - 1, md.month0, md.day)
      else candidate
    case Some(prev) =>
      var candidate := UtcDate(prev.year, md.month0, md.day);
      var diffDays := DayNumber(candidate) - DayNumber(prev);
      if diffDays > OUT_OF_ORDER_DAY_TOLERANCE then UtcDate(prev.year - 1, md.month0, md.day)
      else candidate
  }

  /** `parseMonthDayToIso` before formatting: the label must parse, and then
      the year is chosen. */
  function ResolveMonthDay(monthDay: string, previous: Option<Date>, now: Date): (r: Result<Date>)
    requires ValidDate(now)
    requires previous.Some? ==> ValidDate(previous.value)
    ensures r.Ok? <==> IsSupportedMonthDayLabel(monthDay)
    ensures r.Ok? ==> r.value == ResolveYear(ParseMonthDay(monthDay).value, previous, now)
    ensures r.Err? ==> r == Err(ParseMonthDay(monthDay).message)
  {
    match ParseMonthDay(monthDay)
    case Err(e) => Err(e)
    case Ok(md) => Ok(ResolveYear(md, previous, now))
  }

  /** `parseMonthDayToIso` */
  function ParseMonthDayToIso(monthDay: string, previous: Option<Date>, now: Date): (r: Result<string>)
    requires ValidDate(now)
    requires previous.Some? ==> ValidDate(previous.value)
    ensures r.Ok? <==> IsSupportedMonthDayLabel(monthDay)
  {
    match ResolveMonthDay(monthDay, previous, now)
    case Err(e) => Err(e)
    case Ok(d) => Ok(ToIsoDate(d))
  }

  /** Without a previous date the result is never after today (UTC). Its year
      is now's, less one exactly when the label's date in now's year is after
      today, and it is the day-th day counted from the first of its month. */
  lemma {:induction false} NoAnchorNeverAfterToday(md: ParsedMonthDay, now: Date)
    requires ValidDate(now) && now.year >= 101
    ensures var r := ResolveYear(md, None, now);
      var sameYear := UtcDate(now.year, md.month0, md.day);
      && DayNumber(r) <= DayNumber(now)
      && (r.year == now.year || r.year == now.year - 1)
      && (r.year == now.year - 1 <==> DayNumber(sameYear) > DayNumber(now))
      && r.month - 1 - md.month0 in {0, 1}
      && DayNumber(r) == DayNumber(Date(r.year, md.month0 + 1, 1)) + md.day - 1
  {
    var sameYear := UtcDate(now.year, md.month0, md.day);
    if DayNumber(sameYear) > DayNumber(now) {
      var r := UtcDate(now.year - 1, md.month0, md.day);
      YearBeforeNextYear(r, now);
    }
  }

  /** With a previous date the result is never more than
      `OUT_OF_ORDER_DAY_TOLERANCE` days after it. Its year is the previous
      date's, less one exactly when the label's date in that year lies more than
      45 whole days after the previous date. */
  lemma {:induction false} AnchorWithinTolerance(md: ParsedMonthDay, previous: Date, now: Date)
    requires ValidDate(now) && ValidDate(previous) && previous.year >= 101
    ensures var r := ResolveYear(md, Some(previous), now);
      var sameYear := UtcDate(previous.year, md.month0, md.day);
      && DayNumber(r) <= DayNumber(previous) + OUT_OF_ORDER_DAY_TOLERANCE
      && (r.year == previous.year || r.year == previous.year - 1)
      && (r.year == previous.year - 1 <==> DayNumber(sameYear) - DayNumber(previous) > 45)
      && DayNumber(r) == DayNumber(Date(r.year, md.month0 + 1, 1)) + md.day - 1
  {
    var sameYear := UtcDate(previous.year, md.month0, md.day);
    if DayNumber(sameYear) - DayNumber(previous) > 45 {
      var r := UtcDate(previous.year - 1, md.month0, md.day);
      YearBeforeNextYear(r, previous);
    }
  }
}
