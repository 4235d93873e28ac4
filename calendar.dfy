/**
 * The calendar side of the pipeline: `iterate_days` (src/boe_sumario_text_json.py:76-81),
 * the `strftime` formats `%Y%m%d`, `%Y-%m-%d` and `%Y-%m`, reading `%Y-%m-%d` back
 * (what `pd.to_datetime` does with those strings), and `qmap` (lines 299-300, 321-324).
 */
module Calendar {
  import opened Wrappers
  import opened Seqs

  /** A proleptic Gregorian date, as Python's `datetime.date`. */
  datatype Date = Date(year: int, month: int, day: int)

  predicate IsLeap(y: int) {
    (y % 4 == 0 && y % 100 != 0) || y % 400 == 0
  }

  function YearLength(y: int): int {
    if IsLeap(y) then 366 else 365
  }

  function DaysInMonth(y: int, m: int): int {
    if m == 2 then (if IsLeap(y) then 29 else 28)
    else if m == 4 || m == 6 || m == 9 || m == 11 then 30
    else 31
  }

  /** The dates `datetime.date` accepts. */
  predicate Valid(d: Date) {
    1 <= d.year <= 9999 && 1 <= d.month <= 12 && 1 <= d.day <= DaysInMonth(d.year, d.month)
  }

  /** Days of `y` before the first of month `m` (1..13). */
  function DaysBefore(y: int, m: int): int
    requires 1 <= m <= 13
  {
    [0, 31, 59, 90, 120, 151, 181, 212, 243, 273, 304, 334, 365][m - 1] + (if m > 2 && IsLeap(y) then 1 else 0)
  }

  /** The 1-based position of `d` in its year. */
  function DayOfYear(d: Date): int
    requires 1 <= d.month <= 12
  {
    DaysBefore(d.year, d.month) + d.day
  }

  /** `d + timedelta(days=1)`. */
  function NextDay(d: Date): Date {
    if d.day < DaysInMonth(d.year, d.month) then Date(d.year, d.month, d.day + 1)
    else if d.month < 12 then Date(d.year, d.month + 1, 1)
    else Date(d.year + 1, 1, 1)
  }

  /** Python's `a <= b` on dates. */
  predicate DateLe(a: Date, b: Date) {
    a.year < b.year || (a.year == b.year && (a.month < b.month || (a.month == b.month && a.day <= b.day)))
  }

  predicate DateLt(a: Date, b: Date) {
    DateLe(a, b) && a != b
  }

  /** `n` consecutive days starting at `d`. */
  function DaysFrom(d: Date, n: nat): seq<Date>
    decreases n
  {
    if n == 0 then [] else [d] + DaysFrom(NextDay(d), n - 1)
  }

  /** The days `iterate_days(year)` yields: from January 1st, `YearLength(year)` of them. */
  function YearDays(year: int): seq<Date> {
    DaysFrom(Date(year, 1, 1), YearLength(year))
  }

  lemma DaysBeforeStep(y: int, m: int)
    requires 1 <= m <= 12
    ensures DaysBefore(y, m + 1) == DaysBefore(y, m) + DaysInMonth(y, m)
  {
  }

  lemma {:induction false} DaysBeforeMonotone(y: int, m1: int, m2: int)
    requires 1 <= m1 <= m2 <= 13
    ensures DaysBefore(y, m1) <= DaysBefore(y, m2)
    decreases m2 - m1
  {
    if m1 < m2 {
      DaysBeforeStep(y, m1);
      DaysBeforeMonotone(y, m1 + 1, m2);
    }
  }

  /** A valid date's position lies in 1..YearLength, and is the last exactly on December 31st. */
  lemma DayOfYearRange(d: Date)
    requires Valid(d)
    ensures 1 <= DayOfYear(d) <= YearLength(d.year)
    ensures DayOfYear(d) == YearLength(d.year) <==> d.month == 12 && d.day == 31
  {
    DaysBeforeStep(d.year, d.month);
    DaysBeforeMonotone(d.year, d.month + 1, 13);
    if d.month < 12 {
      DaysBeforeStep(d.year, d.month + 1);
      DaysBeforeMonotone(d.year, d.month + 2, 13);
    }
  }

  /** Within one year, date order and day-of-year order agree. */
  lemma DayOfYearOrder(a: Date, b: Date)
    requires Valid(a) && Valid(b) && a.year == b.year
    ensures DateLt(a, b) <==> DayOfYear(a) < DayOfYear(b)
    ensures a == b <==> DayOfYear(a) == DayOfYear(b)
  {
    if a.month < b.month {
      DaysBeforeStep(a.year, a.month);
      DaysBeforeMonotone(a.year, a.month + 1, b.month);
    } else if b.month < a.month {
      DaysBeforeStep(a.year, b.month);
      DaysBeforeMonotone(a.year, b.month + 1, a.month);
    }
  }

  /** The next day of a valid date other than December 31st is the next position of the same year;
      the day after December 31st is January 1st of the next year. */
  lemma NextDayFacts(d: Date)
    requires Valid(d)
    ensures d.month == 12 && d.day == 31 ==> NextDay(d) == Date(d.year + 1, 1, 1)
    ensures !(d.month == 12 && d.day == 31) ==>
      Valid(NextDay(d)) && NextDay(d).year == d.year && DayOfYear(NextDay(d)) == DayOfYear(d) + 1
  {
    DaysBeforeStep(d.year, d.month);
  }

  lemma {:induction false} DaysFromFacts(d: Date, n: nat)
    requires Valid(d) && DayOfYear(d) + n - 1 <= YearLength(d.year)
    ensures |DaysFrom(d, n)| == n
    ensures forall i :: 0 <= i < n ==>
      Valid(DaysFrom(d, n)[i]) && DaysFrom(d, n)[i].year == d.year && DayOfYear(DaysFrom(d, n)[i]) == DayOfYear(d) + i
    decreases n
  {
    if n > 1 {
      DayOfYearRange(d);
      NextDayFacts(d);
      DaysFromFacts(NextDay(d), n - 1);
    }
  }

  /** The days of a year: `YearLength(year)` valid dates of that year, the i-th being the
      (i+1)-th day of the year, from January 1st to December 31st in strictly ascending order,
      each the day after the one before, and every date of the year among them. */
  lemma YearDaysSpec(year: int)
    requires 1 <= year <= 9999
    ensures var days := YearDays(year);
      && |days| == YearLength(year)
      && (forall i :: 0 <= i < |days| ==> Valid(days[i]) && days[i].year == year && DayOfYear(days[i]) == i + 1)
      && days[0] == Date(year, 1, 1) && days[|days| - 1] == Date(year, 12, 31)
      && (forall i :: 0 < i < |days| ==> days[i] == NextDay(days[i - 1]))
      && (forall i, j :: 0 <= i < j < |days| ==> DateLt(days[i], days[j]))
      && (forall d :: Valid(d) && d.year == year ==> d in days)
  {
    var days := YearDays(year);
    var n := YearLength(year);
    DaysFromFacts(Date(year, 1, 1), n);
    DayOfYearRange(days[n - 1]);
    forall i | 0 < i < n ensures days[i] == NextDay(days[i - 1]) {
      DaysFromStep(Date(year, 1, 1), n, i);
    }
    forall i, j | 0 <= i < j < n ensures DateLt(days[i], days[j]) {
      DayOfYearOrder(days[i], days[j]);
    }
    forall d | Valid(d) && d.year == year ensures d in days {
      DayOfYearRange(d);
      DayOfYearOrder(d, days[DayOfYear(d) - 1]);
    }
  }

  /** Every day `iterate_days` yields is a valid date. */
  lemma YearDaysValid(year: int)
    requires 1 <= year <= 9999
    ensures forall i :: 0 <= i < |YearDays(year)| ==> Valid(YearDays(year)[i])
  {
    YearDaysSpec(year);
  }

  lemma {:induction false} DaysFromStep(d: Date, n: nat, i: nat)
    requires 0 < i < n
    ensures |DaysFrom(d, n)| == n && DaysFrom(d, n)[i] == NextDay(DaysFrom(d, n)[i - 1])
    decreases n
  {
    DaysFromLength(d, n);
    if i > 1 {
      DaysFromStep(NextDay(d), n - 1, i - 1);
    } else {
      DaysFromLength(NextDay(d), n - 1);
    }
  }

  lemma {:induction false} DaysFromLength(d: Date, n: nat)
    ensures |DaysFrom(d, n)| == n
    decreases n
  {
    if n > 0 { DaysFromLength(NextDay(d), n - 1); }
  }

  /** `iterate_days(year)`: from `date(year, 1, 1)` while `d <= date(year, 12, 31)`, advancing one day. */
  method IterateDays(year: int) returns (days: seq<Date>)
    requires 1 <= year <= 9999
    ensures days == YearDays(year)
  {
    var d := Date(year, 1, 1);
    var end := Date(year, 12, 31);
    var n := YearLength(year);
    days := [];
    DaysFromLength(d, n);
    assert DayCursor(year, d, 0);
    while DateLe(d, end)
      invariant |days| <= n == YearLength(year)
      invariant days + DaysFrom(d, n - |days|) == YearDays(year)
      invariant DayCursor(year, d, |days|)
      decreases n - |days|
    {
      IterateGuard(year, d, |days|);
      IterateStep(year, d, |days|);
      AppendAssoc(days, [d], DaysFrom(NextDay(d), n - |days| - 1));
      days := days + [d];
      d := NextDay(d);
    }
    IterateGuard(year, d, |days|);
    assert days + [] == days;
  }

  /** Where the loop of `iterate_days` stands after `k` days: on the (k+1)-th day of the year,
      or on January 1st of the next year once all days are out. */
  predicate DayCursor(year: int, d: Date, k: int) {
    && (k < YearLength(year) ==> Valid(d) && d.year == year && DayOfYear(d) == k + 1)
    && (k == YearLength(year) ==> d == Date(year + 1, 1, 1))
  }

  /** The loop condition `d <= date(year, 12, 31)` holds exactly while days remain. */
  lemma IterateGuard(year: int, d: Date, k: nat)
    requires 1 <= year <= 9999 && k <= YearLength(year) && DayCursor(year, d, k)
    ensures DateLe(d, Date(year, 12, 31)) <==> k < YearLength(year)
  {
    if k < YearLength(year) {
      DayOfYearRange(d);
    }
  }

  /** One turn of the loop: the rest of the year is `d` followed by the rest after it. */
  lemma IterateStep(year: int, d: Date, k: nat)
    requires 1 <= year <= 9999 && k < YearLength(year) && DayCursor(year, d, k)
    ensures DaysFrom(d, YearLength(year) - k) == [d] + DaysFrom(NextDay(d), YearLength(year) - k - 1)
    ensures DayCursor(year, NextDay(d), k + 1)
  {
    DayOfYearRange(d);
    NextDayFacts(d);
  }

  /** One decimal digit. */
  function Digit(n: int): char
    requires 0 <= n <= 9
  {
    ('0' as int + n) as char
  }

  predicate IsDigit(c: char) { '0' <= c <= '9' }

  function DigitValue(c: char): int
    requires IsDigit(c)
  {
    c as int - '0' as int
  }

  /** `%02d` */
  function Pad2(n: int): string
    requires 0 <= n <= 99
  {
    [Digit(n / 10), Digit(n % 10)]
  }

  /** `%04d`, the form `%Y` takes for the years 1000..9999. */
  function Pad4(n: int): string
    requires 0 <= n <= 9999
  {
    Pad2(n / 100) + Pad2(n % 100)
  }

  /** `d.strftime("%Y%m%d")`, the date in the catalog URL. */
  function FormatCompact(d: Date): string
    requires Valid(d)
  {
    Pad4(d.year) + Pad2(d.month) + Pad2(d.day)
  }

  /** `d.strftime("%Y-%m-%d")`, the `fecha` column. */
  function FormatIso(d: Date): string
    requires Valid(d)
  {
    Pad4(d.year) + "-" + Pad2(d.month) + "-" + Pad2(d.day)
  }

  /** `strftime("%Y-%m")`, the `mes` column. */
  function MonthLabel(d: Date): string
    requires Valid(d)
  {
    Pad4(d.year) + "-" + Pad2(d.month)
  }

  function Value2(s: string): int
    requires |s| == 2 && IsDigit(s[0]) && IsDigit(s[1])
  {
    10 * DigitValue(s[0]) + DigitValue(s[1])
  }

  /** Reading a `YYYY-MM-DD` string back into a date; `None` for anything else or an impossible date
      (`pd.to_datetime(..., errors="coerce")` gives `NaT` there). */
  function ParseIso(s: string): Option<Date> {
    if |s| == 10 && s[4] == '-' && s[7] == '-'
       && IsDigit(s[0]) && IsDigit(s[1]) && IsDigit(s[2]) && IsDigit(s[3])
       && IsDigit(s[5]) && IsDigit(s[6]) && IsDigit(s[8]) && IsDigit(s[9])
    then
      var d := Date(100 * Value2(s[0..2]) + Value2(s[2..4]), Value2(s[5..7]), Value2(s[8..10]));
      if Valid(d) then Some(d) else None
    else None
  }

  lemma Pad2RoundTrip(n: int)
    requires 0 <= n <= 99
    ensures IsDigit(Pad2(n)[0]) && IsDigit(Pad2(n)[1]) && Value2(Pad2(n)) == n
  {
  }

  lemma Value2RoundTrip(s: string)
    requires |s| == 2 && IsDigit(s[0]) && IsDigit(s[1])
    ensures Pad2(Value2(s)) == s
  {
  }

  /** Formatting a valid date as `YYYY-MM-DD` and reading it back gives the date again. */
  lemma IsoRoundTrip(d: Date)
    requires Valid(d)
    ensures ParseIso(FormatIso(d)) == Some(d)
  {
    var s := FormatIso(d);
    Pad2RoundTrip(d.year / 100);
    Pad2RoundTrip(d.year % 100);
    Pad2RoundTrip(d.month);
    Pad2RoundTrip(d.day);
    assert s[0..2] == Pad2(d.year / 100) && s[2..4] == Pad2(d.year % 100);
    assert s[5..7] == Pad2(d.month) && s[8..10] == Pad2(d.day);
  }

  /** A string that reads as a date is that date's `YYYY-MM-DD` form. */
  lemma IsoCanonical(s: string)
    requires ParseIso(s).Some?
    ensures FormatIso(ParseIso(s).value) == s
  {
    var d := ParseIso(s).value;
    Value2RoundTrip(s[0..2]);
    Value2RoundTrip(s[2..4]);
    Value2RoundTrip(s[5..7]);
    Value2RoundTrip(s[8..10]);
    assert d.year / 100 == Value2(s[0..2]) && d.year % 100 == Value2(s[2..4]);
    assert FormatIso(d) == s[0..2] + s[2..4] + "-" + s[5..7] + "-" + s[8..10];
  }

  /** `mes` is the `YYYY-MM` prefix of `fecha`. */
  lemma MonthLabelIsPrefix(d: Date)
    requires Valid(d)
    ensures |FormatIso(d)| == 10 && MonthLabel(d) == FormatIso(d)[..7]
  {
  }

  /** `qmap` */
  const QMap: map<int, string> :=
    map[1 := "Q1", 2 := "Q1", 3 := "Q1", 4 := "Q2", 5 := "Q2", 6 := "Q2",
        7 := "Q3", 8 := "Q3", 9 := "Q3", 10 := "Q4", 11 := "Q4", 12 := "Q4"]

  /** `qmap` sends each month to its quarter: `Q` followed by `(month - 1) / 3 + 1`. */
  lemma QMapQuarter(m: int)
    requires 1 <= m <= 12
    ensures m in QMap && QMap[m] == ['Q', Digit((m - 1) / 3 + 1)]
  {
  }
}
