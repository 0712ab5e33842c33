/** Release timestamps: `datetime.strptime(s, "%Y-%m-%dT%H:%M:%SZ").timestamp()`.

    The parser follows the regular expression CPython's `_strptime` builds for that
    format: `%Y` is exactly four digits, the other directives accept one or two
    digits (`%d` also a space followed by a digit), the literal `T` and `Z` match
    either case, and the whole string must be consumed.  The parsed fields must
    then form a real date (`datetime` refuses 30 February and second 60).

    `timestamp()` on the resulting naive datetime reads it as LOCAL time; the model
    takes the local offset from UTC, in seconds east of Greenwich, as a parameter.
    CPython finds the instant by asking for wall-clock readings near it, and
    raises `ValueError` when one of them leaves the years 1..9999; so a date in
    the first or the last year of the calendar may not convert.
    Day counts use CPython's closed forms and are checked against definitions that
    count days year by year and month by month. */
module Timestamps {
  import opened Outcomes
  import opened PyStr

  datatype DateTime = DateTime(year: int, month: int, day: int, hour: int, minute: int, second: int)

  predicate IsLeapYear(y: int) {
    y % 4 == 0 && (y % 100 != 0 || y % 400 == 0)
  }

  function DaysInYear(y: int): int {
    if IsLeapYear(y) then 366 else 365
  }

  function DaysInMonth(y: int, m: int): int
    requires 1 <= m <= 12
  {
    if m == 2 then (if IsLeapYear(y) then 29 else 28)
    else if m == 4 || m == 6 || m == 9 || m == 11 then 30
    else 31
  }

  /** The field ranges `datetime` accepts. */
  predicate ValidDateTime(dt: DateTime) {
    && 1 <= dt.year <= 9999
    && 1 <= dt.month <= 12
    && 1 <= dt.day <= DaysInMonth(dt.year, dt.month)
    && 0 <= dt.hour <= 23
    && 0 <= dt.minute <= 59
    && 0 <= dt.second <= 59
  }

  /** Chronological order of date-times: lexicographic on the fields. */
  predicate Before(a: DateTime, b: DateTime) {
    || a.year < b.year
    || (a.year == b.year && a.month < b.month)
    || (a.year == b.year && a.month == b.month && a.day < b.day)
    || (a.year == b.year && a.month == b.month && a.day == b.day && a.hour < b.hour)
    || (a.year == b.year && a.month == b.month && a.day == b.day && a.hour == b.hour && a.minute < b.minute)
    || (a.year == b.year && a.month == b.month && a.day == b.day && a.hour == b.hour && a.minute == b.minute
        && a.second < b.second)
  }

  // ----- day counts, closed forms -----

  /** Leap years among 1 .. y-1. */
  function LeapYearsBefore(y: int): int
    requires y >= 1
  {
    (y - 1) / 4 - (y - 1) / 100 + (y - 1) / 400
  }

  /** Days from 1970-01-01 to 1 January of year `y` (negative before 1970). */
  function DaysBeforeYear(y: int): int
    requires y >= 1
  {
    365 * (y - 1970) + LeapYearsBefore(y) - LeapYearsBefore(1970)
  }

  /** Days in year `y` before the first of month `m`. */
  function DaysBeforeMonth(y: int, m: int): int
    requires 1 <= m <= 12
  {
    [0, 31, 59, 90, 120, 151, 181, 212, 243, 273, 304, 334][m - 1] + (if m > 2 && IsLeapYear(y) then 1 else 0)
  }

  /** Days since 1970-01-01 of the date part. */
  function EpochDays(dt: DateTime): int
    requires ValidDateTime(dt)
  {
    DaysBeforeYear(dt.year) + DaysBeforeMonth(dt.year, dt.month) + dt.day - 1
  }

  /** Seconds since 1970-01-01T00:00:00 UTC of a date-time read as UTC. */
  function EpochSeconds(dt: DateTime): int
    requires ValidDateTime(dt)
  {
    EpochDays(dt) * 86400 + dt.hour * 3600 + dt.minute * 60 + dt.second
  }

  // ----- day counts, by counting -----

  function DaysBeforeYearByCounting(y: int): int
    requires y >= 1
    decreases if y < 1970 then 1970 - y else y - 1970
  {
    if y == 1970 then 0
    else if y > 1970 then DaysBeforeYearByCounting(y - 1) + DaysInYear(y - 1)
    else DaysBeforeYearByCounting(y + 1) - DaysInYear(y)
  }

  function DaysBeforeMonthByCounting(y: int, m: int): int
    requires 1 <= m <= 12
  {
    if m == 1 then 0 else DaysBeforeMonthByCounting(y, m - 1) + DaysInMonth(y, m - 1)
  }

  lemma DivStep4(y: int)
    ensures y / 4 - (y - 1) / 4 == (if y % 4 == 0 then 1 else 0)
  {
  }

  lemma DivStep100(y: int)
    ensures y / 100 - (y - 1) / 100 == (if y % 100 == 0 then 1 else 0)
  {
  }

  lemma DivStep400(y: int)
    ensures y / 400 - (y - 1) / 400 == (if y % 400 == 0 then 1 else 0)
    ensures y % 400 == 0 ==> y % 100 == 0
    ensures y % 100 == 0 ==> y % 4 == 0
  {
  }

  /** Moving past year `y` adds one to the leap-year count exactly when `y` is a leap year. */
  lemma LeapYearsStep(y: int)
    requires y >= 1
    ensures LeapYearsBefore(y + 1) == LeapYearsBefore(y) + (if IsLeapYear(y) then 1 else 0)
  {
    DivStep4(y);
    DivStep100(y);
    DivStep400(y);
  }

  lemma {:induction false} DaysBeforeYearCounts(y: int)
    requires y >= 1
    ensures DaysBeforeYear(y) == DaysBeforeYearByCounting(y)
    decreases if y < 1970 then 1970 - y else y - 1970
  {
    if y > 1970 {
      DaysBeforeYearCounts(y - 1);
      LeapYearsStep(y - 1);
    } else if y < 1970 {
      DaysBeforeYearCounts(y + 1);
      LeapYearsStep(y);
    }
  }

  lemma {:induction false} DaysBeforeMonthCounts(y: int, m: int)
    requires 1 <= m <= 12
    ensures DaysBeforeMonth(y, m) == DaysBeforeMonthByCounting(y, m)
  {
    if m > 1 {
      DaysBeforeMonthCounts(y, m - 1);
    }
  }

  /** The closed-form day count agrees with counting every year and month. */
  lemma EpochDaysCounts(dt: DateTime)
    requires ValidDateTime(dt)
    ensures EpochDays(dt) == DaysBeforeYearByCounting(dt.year) + DaysBeforeMonthByCounting(dt.year, dt.month) + dt.day - 1
  {
    DaysBeforeYearCounts(dt.year);
    DaysBeforeMonthCounts(dt.year, dt.month);
  }

  // ----- epoch seconds follow the calendar -----

  lemma {:induction false} DaysBeforeYearGrows(y1: int, y2: int)
    requires 1 <= y1 < y2
    ensures DaysBeforeYear(y1) + DaysInYear(y1) <= DaysBeforeYear(y2)
    decreases y2 - y1
  {
    LeapYearsStep(y1);
    if y1 + 1 < y2 {
      DaysBeforeYearGrows(y1 + 1, y2);
    }
  }

  lemma DaysBeforeMonthGrows(y: int, m1: int, m2: int)
    requires 1 <= m1 < m2 <= 12
    ensures DaysBeforeMonth(y, m1) + DaysInMonth(y, m1) <= DaysBeforeMonth(y, m2)
  {
  }

  lemma DayOfYearBound(y: int, m: int, d: int)
    requires 1 <= m <= 12 && 1 <= d <= DaysInMonth(y, m)
    ensures 0 <= DaysBeforeMonth(y, m) + d - 1 < DaysInYear(y)
  {
  }

  /** Later date-times have larger timestamps: ordering records by publish date
      orders them chronologically. */
  lemma EpochSecondsIncreasing(a: DateTime, b: DateTime)
    requires ValidDateTime(a) && ValidDateTime(b) && Before(a, b)
    ensures EpochSeconds(a) < EpochSeconds(b)
  {
    DayOfYearBound(a.year, a.month, a.day);
    DayOfYearBound(b.year, b.month, b.day);
    if a.year < b.year {
      DaysBeforeYearGrows(a.year, b.year);
      assert EpochDays(a) < EpochDays(b);
    } else if a.month < b.month {
      DaysBeforeMonthGrows(a.year, a.month, b.month);
      assert EpochDays(a) < EpochDays(b);
    } else {
      assert EpochDays(a) <= EpochDays(b);
    }
  }

  /** Every date-time `datetime` can hold lies between its first and last second. */
  lemma DateTimeRange(dt: DateTime)
    requires ValidDateTime(dt)
    ensures FirstSecond <= EpochSeconds(dt) <= LastSecond
  {
    var first, last := DateTime(1, 1, 1, 0, 0, 0), DateTime(9999, 12, 31, 23, 59, 59);
    SecondsRange();
    if dt != first {
      EpochSecondsIncreasing(first, dt);
    }
    if dt != last {
      EpochSecondsIncreasing(dt, last);
    }
  }

  // ----- the strptime parser -----

  datatype Directive = Month | Day | Hour | Minute | Second

  /** The alternatives of the directive's regular expression in CPython's `_strptime`:
      `%m` is `1[0-2]|0[1-9]|[1-9]`, `%d` is `3[01]|[12]\d|0[1-9]|[1-9]| [1-9]`,
      `%H` is `2[0-3]|[0-1]\d|\d`, `%M` is `[0-5]\d|\d`, `%S` is `6[0-1]|[0-5]\d|\d`. */
  predicate TokenOk(f: Directive, t: string) {
    match f
    case Month =>
      || (|t| == 2 && ((t[0] == '1' && '0' <= t[1] <= '2') || (t[0] == '0' && '1' <= t[1] <= '9')))
      || (|t| == 1 && '1' <= t[0] <= '9')
    case Day =>
      || (|t| == 2 && (|| (t[0] == '3' && '0' <= t[1] <= '1')
                       || ('1' <= t[0] <= '2' && IsDigit(t[1]))
                       || ((t[0] == '0' || t[0] == ' ') && '1' <= t[1] <= '9')))
      || (|t| == 1 && '1' <= t[0] <= '9')
    case Hour =>
      || (|t| == 2 && ((t[0] == '2' && '0' <= t[1] <= '3') || ('0' <= t[0] <= '1' && IsDigit(t[1]))))
      || (|t| == 1 && IsDigit(t[0]))
    case Minute =>
      || (|t| == 2 && '0' <= t[0] <= '5' && IsDigit(t[1]))
      || (|t| == 1 && IsDigit(t[0]))
    case Second =>
      || (|t| == 2 && ((t[0] == '6' && '0' <= t[1] <= '1') || ('0' <= t[0] <= '5' && IsDigit(t[1]))))
      || (|t| == 1 && IsDigit(t[0]))
  }

  /** `int(token)`; a leading space (only `%d` allows one) is skipped. */
  function TokenValue(t: string): nat
    requires 1 <= |t| <= 2
    requires forall i :: 0 <= i < |t| ==> IsDigit(t[i]) || (i == 0 && |t| == 2 && t[i] == ' ')
  {
    if |t| == 2 && t[0] == ' ' then DigitValue(t[1]) else DigitsValue(t)
  }

  /** A literal of the format, matched case-insensitively. */
  predicate MatchesLiteral(x: char, lit: char) {
    x == lit || ('A' <= lit <= 'Z' && x as int == lit as int + 32)
  }

  datatype Scan = Scan(value: nat, next: nat)

  /** One directive at position `i` followed by the literal `delim`; on success
      `next` is the position after the literal.  A two-character token and a
      one-character token can never both be followed by the literal, since the
      literals are not digits. */
  function ScanField(s: string, i: nat, f: Directive, delim: char): (r: Option<Scan>)
    requires i <= |s|
    requires !IsDigit(delim) && delim != ' '
    ensures r.Some? ==> i + 2 <= r.value.next <= |s|
  {
    if i + 2 < |s| && TokenOk(f, s[i..i + 2]) && MatchesLiteral(s[i + 2], delim) then
      Some(Scan(TokenValue(s[i..i + 2]), i + 3))
    else if i + 1 < |s| && TokenOk(f, s[i..i + 1]) && MatchesLiteral(s[i + 1], delim) then
      Some(Scan(TokenValue(s[i..i + 1]), i + 2))
    else None
  }

  /** `datetime.strptime(s, "%Y-%m-%dT%H:%M:%SZ")`; `None` where it raises ValueError. */
  function ParseDateString(s: string): (r: Option<DateTime>)
    ensures r.Some? ==> ValidDateTime(r.value)
  {
    if |s| < 5 || !AllDigits(s[..4]) || s[4] != '-' then None
    else
      var mo :- ScanField(s, 5, Month, '-');
      var d :- ScanField(s, mo.next, Day, 'T');
      var h :- ScanField(s, d.next, Hour, ':');
      var mi :- ScanField(s, h.next, Minute, ':');
      var se :- ScanField(s, mi.next, Second, 'Z');
      var dt := DateTime(DigitsValue(s[..4]), mo.value, d.value, h.value, mi.value, se.value);
      if se.next == |s| && ValidDateTime(dt) then Some(dt) else None
  }

  // ----- timestamp() of a naive date-time -----

  /** The first and the last second a `datetime` can hold, read as UTC. */
  const FirstSecond: int := -62135596800   // 0001-01-01T00:00:00
  const LastSecond: int := 253402300799     // 9999-12-31T23:59:59

  /** The same range in seconds since the epoch. */
  lemma SecondsRange()
    ensures EpochSeconds(DateTime(1, 1, 1, 0, 0, 0)) == FirstSecond
    ensures EpochSeconds(DateTime(9999, 12, 31, 23, 59, 59)) == LastSecond
  {
    assert LeapYearsBefore(1) == 0 && LeapYearsBefore(1970) == 477 && LeapYearsBefore(9999) == 2424;
    assert DaysBeforeYear(1) == -719162 && DaysBeforeYear(9999) == 2932532;
    assert DaysBeforeMonth(9999, 12) == 334;
  }

  /** `local(u)` inside `timestamp()`: the wall-clock reading of the instant `u`,
      as seconds of a naive date-time, on a machine whose local time is
      `utcOffset` seconds ahead of UTC.  Building that date-time raises
      `ValueError` when its year leaves 1..9999. */
  function LocalClock(u: int, utcOffset: int): (r: Option<int>)
    ensures r.Some? <==> FirstSecond <= u + utcOffset <= LastSecond
    ensures r.Some? ==> r.value - u == utcOffset
  {
    if FirstSecond <= u + utcOffset <= LastSecond then Some(u + utcOffset) else None
  }

  /** The year holding day `days` (counted from 1970-01-01), searching from `y`. */
  lemma {:induction false} YearOfDay(days: int, y: int) returns (r: int)
    requires 1 <= y <= 9999 && DaysBeforeYear(y) <= days < DaysBeforeYear(10000)
    ensures y <= r <= 9999 && DaysBeforeYear(r) <= days < DaysBeforeYear(r) + DaysInYear(r)
    decreases 9999 - y
  {
    LeapYearsStep(y);
    if days < DaysBeforeYear(y) + DaysInYear(y) {
      r := y;
    } else {
      r := YearOfDay(days, y + 1);
    }
  }

  /** The month holding day `d` of year `y` (counted from 0), searching from `m`. */
  lemma {:induction false} MonthOfDay(y: int, d: int, m: int) returns (r: int)
    requires 1 <= m <= 12 && DaysBeforeMonth(y, m) <= d < DaysInYear(y)
    ensures m <= r <= 12 && DaysBeforeMonth(y, r) <= d < DaysBeforeMonth(y, r) + DaysInMonth(y, r)
    decreases 12 - m
  {
    if m == 12 || d < DaysBeforeMonth(y, m) + DaysInMonth(y, m) {
      r := m;
    } else {
      r := MonthOfDay(y, d, m + 1);
    }
  }

  /** Every second from the first to the last a `datetime` holds is the UTC
      reading of a date-time: the range has no holes. */
  lemma SecondsAreDateTimes(x: int)
    requires FirstSecond <= x <= LastSecond
    ensures exists dt :: ValidDateTime(dt) && EpochSeconds(dt) == x
  {
    assert LeapYearsBefore(1) == 0 && LeapYearsBefore(1970) == 477 && LeapYearsBefore(10000) == 2424;
    assert DaysBeforeYear(1) * 86400 == FirstSecond && DaysBeforeYear(10000) * 86400 == LastSecond + 1;
    var days, rest := x / 86400, x % 86400;
    var y := YearOfDay(days, 1);
    var m := MonthOfDay(y, days - DaysBeforeYear(y), 1);
    var dt := DateTime(y, m, days - DaysBeforeYear(y) - DaysBeforeMonth(y, m) + 1, rest / 3600, rest % 3600 / 60, rest % 60);
    assert ValidDateTime(dt);
    assert EpochDays(dt) == days;
  }

  /** A wall-clock reading succeeds exactly when it is a date-time `datetime` can
      hold, and it is then the instant shifted by the offset. */
  lemma LocalClockReadsDateTime(u: int, utcOffset: int)
    ensures LocalClock(u, utcOffset).Some? <==> exists dt :: ValidDateTime(dt) && EpochSeconds(dt) == u + utcOffset
    ensures LocalClock(u, utcOffset).Some? ==> LocalClock(u, utcOffset).value == u + utcOffset
  {
    if FirstSecond <= u + utcOffset <= LastSecond {
      SecondsAreDateTimes(u + utcOffset);
    }
    forall dt | ValidDateTime(dt) && EpochSeconds(dt) == u + utcOffset
      ensures FirstSecond <= u + utcOffset <= LastSecond
    {
      DateTimeRange(dt);
    }
  }

  /** CPython's `timestamp()` for a naive date-time with `fold == 0`, whose
      seconds read as UTC are `t`: it solves `local(u) == t` for the instant `u`,
      first with the offset at `t`, then probing one day earlier for a second
      solution, and falls back to the other offset inside a gap.  At a fixed
      offset the solution is unique: the result subtracts the offset, and there
      is none exactly when a probe leaves the representable years. */
  function LocalToSeconds(t: int, utcOffset: int): (r: Option<int>)
    ensures t <= LastSecond ==>
            r == if FirstSecond <= t + utcOffset <= LastSecond && FirstSecond <= t - 24 * 3600
                 then Some(t - utcOffset) else None
  {
    var lt :- LocalClock(t, utcOffset);
    var a := lt - t;
    var u1 := t - a;
    var t1 :- LocalClock(u1, utcOffset);
    var b :- if t1 == t then
               var u2 := u1 - 24 * 3600;
               var l2 :- LocalClock(u2, utcOffset);
               Some(l2 - u2)
             else Some(t1 - u1);
    if t1 == t && a == b then Some(u1)
    else
      var u2 := t - b;
      match LocalClock(u2, utcOffset)
      case None => None
      case Some(t2) =>
        if t2 == t then Some(u2)
        else if t1 == t then Some(u1)
        else Some(if u1 < u2 then u2 else u1)
  }

  /** Whether `timestamp()` converts `dt` at a fixed offset: the wall clock at
      `dt` shifted by the offset, and `dt` one day earlier, both stay inside the
      years 1..9999. */
  predicate InLocalRange(dt: DateTime, utcOffset: int)
    requires ValidDateTime(dt)
  {
    && FirstSecond <= EpochSeconds(dt) + utcOffset <= LastSecond
    && FirstSecond <= EpochSeconds(dt) - 24 * 3600
  }

  /** `int(datetime.strptime(s, "%Y-%m-%dT%H:%M:%SZ").timestamp())` for a machine
      whose local time is `utcOffset` seconds ahead of UTC. */
  function ConvertDateString(s: string, utcOffset: int): (r: Result<int>)
    ensures r.Ok? <==> ParseDateString(s).Some? && InLocalRange(ParseDateString(s).value, utcOffset)
    ensures ParseDateString(s).None? ==> r == Err(DateStringInvalid(s))
    ensures ParseDateString(s).Some? && !InLocalRange(ParseDateString(s).value, utcOffset)
            ==> r == Err(TimestampOutOfRange(s))
    ensures r.Ok? ==> r.value == EpochSeconds(ParseDateString(s).value) - utcOffset
  {
    match ParseDateString(s)
    case None => Err(DateStringInvalid(s))
    case Some(dt) =>
      DateTimeRange(dt);
      match LocalToSeconds(EpochSeconds(dt), utcOffset)
      case None => Err(TimestampOutOfRange(s))
      case Some(u) => Ok(u)
  }

  // ----- the canonical form and the round trip -----

  function Pad2(n: nat): (t: string)
    requires n < 100
    ensures |t| == 2 && AllDigits(t)
  {
    [DigitChar(n / 10), DigitChar(n % 10)]
  }

  function Pad4(n: nat): (t: string)
    requires n < 10000
    ensures |t| == 4 && AllDigits(t)
  {
    [DigitChar(n / 1000), DigitChar(n / 100 % 10), DigitChar(n / 10 % 10), DigitChar(n % 10)]
  }

  /** The `YYYY-MM-DDTHH:MM:SSZ` text the releases API sends. */
  function Format(dt: DateTime): (s: string)
    requires ValidDateTime(dt)
    ensures |s| == 20
  {
    DatePart(dt) + TimePart(dt)
  }

  /** `YYYY-MM-DD`. */
  function DatePart(dt: DateTime): (s: string)
    requires ValidDateTime(dt)
    ensures |s| == 10
  {
    Pad4(dt.year) + "-" + Pad2(dt.month) + "-" + Pad2(dt.day)
  }

  /** `THH:MM:SSZ`. */
  function TimePart(dt: DateTime): (s: string)
    requires ValidDateTime(dt)
    ensures |s| == 10
  {
    "T" + Pad2(dt.hour) + ":" + Pad2(dt.minute) + ":" + Pad2(dt.second) + "Z"
  }


  lemma Pad2Value(n: nat)
    requires n < 100
    ensures TokenValue(Pad2(n)) == n
  {
    var t := Pad2(n);
    assert t[..1][..0] == [];
    assert DigitsValue(t[..1]) == DigitValue(t[0]) == n / 10;
    assert DigitsValue(t) == DigitsValue(t[..1]) * 10 + DigitValue(t[1]);
  }

  lemma Pad4Value(n: nat)
    requires n < 10000
    ensures DigitsValue(Pad4(n)) == n
  {
    var t := Pad4(n);
    assert t[..1][..0] == [];
    assert DigitsValue(t[..1]) == n / 1000;
    assert t[..2][..1] == t[..1];
    assert DigitsValue(t[..2]) == n / 1000 * 10 + n / 100 % 10 == n / 100;
    assert t[..3][..2] == t[..2];
    assert DigitsValue(t[..3]) == n / 100 * 10 + n / 10 % 10 == n / 10;
    assert t[..4][..3] == t[..3];
    assert DigitsValue(t) == n / 10 * 10 + n % 10;
  }

  /** A zero-padded field in range is accepted by its directive and scanned back. */
  lemma ScanPadded(s: string, i: nat, f: Directive, delim: char, n: nat)
    requires i + 3 <= |s| && !IsDigit(delim) && delim != ' '
    requires n < 100 && s[i..i + 2] == Pad2(n) && s[i + 2] == delim
    requires match f
             case Month => 1 <= n <= 12
             case Day => 1 <= n <= 31
             case Hour => n <= 23
             case Minute => n <= 59
             case Second => n <= 59
    ensures ScanField(s, i, f, delim) == Some(Scan(n, i + 3))
  {
    Pad2Value(n);
  }

  lemma DateLayout(dt: DateTime)
    requires ValidDateTime(dt)
    ensures var s := DatePart(dt);
      && s[..4] == Pad4(dt.year) && s[4] == '-'
      && s[5..7] == Pad2(dt.month) && s[7] == '-'
      && s[8..10] == Pad2(dt.day)
  {
    var s := DatePart(dt);
    assert s == Pad4(dt.year) + ("-" + Pad2(dt.month) + "-" + Pad2(dt.day));
    assert s[5..7] == Pad2(dt.month);
  }

  lemma TimeLayout(dt: DateTime)
    requires ValidDateTime(dt)
    ensures var s := TimePart(dt);
      && s[0] == 'T'
      && s[1..3] == Pad2(dt.hour) && s[3] == ':'
      && s[4..6] == Pad2(dt.minute) && s[6] == ':'
      && s[7..9] == Pad2(dt.second) && s[9] == 'Z'
  {
    var s := TimePart(dt);
    assert s[1..3] == Pad2(dt.hour);
    assert s[4..6] == Pad2(dt.minute);
    assert s[7..9] == Pad2(dt.second);
  }

  /** Where each field sits in the canonical text. */
  lemma FormatLayout(dt: DateTime)
    requires ValidDateTime(dt)
    ensures var s := Format(dt);
      && s[..4] == Pad4(dt.year) && s[4] == '-'
      && s[5..7] == Pad2(dt.month) && s[7] == '-'
      && s[8..10] == Pad2(dt.day) && s[10] == 'T'
      && s[11..13] == Pad2(dt.hour) && s[13] == ':'
      && s[14..16] == Pad2(dt.minute) && s[16] == ':'
      && s[17..19] == Pad2(dt.second) && s[19] == 'Z'
  {
    var s := Format(dt);
    var a, b := DatePart(dt), TimePart(dt);
    DateLayout(dt);
    TimeLayout(dt);
    assert s[..10] == a && s[10..] == b;
    assert s[..4] == a[..4] && s[5..7] == a[5..7] && s[8..10] == a[8..10];
    assert s[11..13] == b[1..3] && s[14..16] == b[4..6] && s[17..19] == b[7..9];
  }


  /** Parsing the canonical text of a date-time gives it back. */
  lemma ParseFormat(dt: DateTime)
    requires ValidDateTime(dt)
    ensures ParseDateString(Format(dt)) == Some(dt)
  {
    var s := Format(dt);
    FormatLayout(dt);
    Pad4Value(dt.year);
    ScanPadded(s, 5, Month, '-', dt.month);
    ScanPadded(s, 8, Day, 'T', dt.day);
    ScanPadded(s, 11, Hour, ':', dt.hour);
    ScanPadded(s, 14, Minute, ':', dt.minute);
    ScanPadded(s, 17, Second, 'Z', dt.second);
  }

  /** The epoch seconds of a date-time are the days before it, counted year by
      year and month by month, in seconds, plus its time of day. */
  lemma EpochSecondsCounts(dt: DateTime)
    requires ValidDateTime(dt)
    ensures EpochSeconds(dt)
            == (DaysBeforeYearByCounting(dt.year) + DaysBeforeMonthByCounting(dt.year, dt.month) + dt.day - 1) * 86400
               + dt.hour * 3600 + dt.minute * 60 + dt.second
  {
    EpochDaysCounts(dt);
  }

  /** `ConvertDateString`'s contract restated for a known parse. */
  lemma ConvertParsedRange(s: string, dt: DateTime, utcOffset: int)
    requires ParseDateString(s) == Some(dt)
    ensures ValidDateTime(dt)
    ensures ConvertDateString(s, utcOffset).Ok? <==> InLocalRange(dt, utcOffset)
    ensures InLocalRange(dt, utcOffset) ==> ConvertDateString(s, utcOffset) == Ok(EpochSeconds(dt) - utcOffset)
  {
  }

  /** A text that parses converts, unless `timestamp()` leaves the representable
      years, to the seconds since 1970-01-01T00:00:00 UTC, counting every year,
      month and day, minus the local offset. */
  lemma ConvertParsed(s: string, dt: DateTime, utcOffset: int)
    requires ParseDateString(s) == Some(dt)
    ensures ValidDateTime(dt)
    ensures ConvertDateString(s, utcOffset).Ok? <==> InLocalRange(dt, utcOffset)
    ensures !InLocalRange(dt, utcOffset) ==> ConvertDateString(s, utcOffset) == Err(TimestampOutOfRange(s))
    ensures InLocalRange(dt, utcOffset) ==> ConvertDateString(s, utcOffset) == Ok(EpochSeconds(dt) - utcOffset)
    ensures InLocalRange(dt, utcOffset) ==>
            ConvertDateString(s, utcOffset)
            == Ok((DaysBeforeYearByCounting(dt.year) + DaysBeforeMonthByCounting(dt.year, dt.month) + dt.day - 1) * 86400
                  + dt.hour * 3600 + dt.minute * 60 + dt.second - utcOffset)
  {
    ConvertParsedRange(s, dt, utcOffset);
    if InLocalRange(dt, utcOffset) {
      CountedConvert(ConvertDateString(s, utcOffset), dt, utcOffset);
    }
  }

  /** The counted form of a conversion result. */
  lemma CountedConvert(r: Result<int>, dt: DateTime, utcOffset: int)
    requires ValidDateTime(dt)
    requires r == Ok(EpochSeconds(dt) - utcOffset)
    ensures r == Ok((DaysBeforeYearByCounting(dt.year) + DaysBeforeMonthByCounting(dt.year, dt.month) + dt.day - 1) * 86400
                    + dt.hour * 3600 + dt.minute * 60 + dt.second - utcOffset)
  {
    EpochSecondsCounts(dt);
  }

  /** The conversion of the canonical text is the UTC epoch time shifted by the
      local offset, or the range error at the edges of the calendar. */
  lemma ConvertFormat(dt: DateTime, utcOffset: int)
    requires ValidDateTime(dt)
    ensures ConvertDateString(Format(dt), utcOffset)
            == if InLocalRange(dt, utcOffset) then Ok(EpochSeconds(dt) - utcOffset)
               else Err(TimestampOutOfRange(Format(dt)))
  {
    ParseFormat(dt);
    ConvertParsed(Format(dt), dt, utcOffset);
  }

  /** Later publish dates convert to larger timestamps. */
  lemma ConvertChronological(a: DateTime, b: DateTime, utcOffset: int)
    requires ValidDateTime(a) && ValidDateTime(b) && Before(a, b)
    requires InLocalRange(a, utcOffset) && InLocalRange(b, utcOffset)
    ensures ConvertDateString(Format(a), utcOffset).Ok?
    ensures ConvertDateString(Format(b), utcOffset).Ok?
    ensures ConvertDateString(Format(a), utcOffset).value < ConvertDateString(Format(b), utcOffset).value
  {
    ConvertFormat(a, utcOffset);
    ConvertFormat(b, utcOffset);
    EpochSecondsIncreasing(a, b);
  }

  /** Away from the first and last year, and at any offset within a day, every
      date-time converts. */
  lemma InsideCalendarInRange(dt: DateTime, utcOffset: int)
    requires ValidDateTime(dt) && 2 <= dt.year <= 9998 && -24 * 3600 <= utcOffset <= 24 * 3600
    ensures InLocalRange(dt, utcOffset)
  {
    var lo, hi := DateTime(2, 1, 1, 0, 0, 0), DateTime(9998, 12, 31, 23, 59, 59);
    assert LeapYearsBefore(2) == 0 && LeapYearsBefore(1970) == 477 && LeapYearsBefore(9998) == 2424;
    assert EpochSeconds(lo) == FirstSecond + 365 * 86400;
    assert EpochSeconds(hi) == LastSecond - 365 * 86400;
    if dt != lo {
      EpochSecondsIncreasing(lo, dt);
    }
    if dt != hi {
      EpochSecondsIncreasing(dt, hi);
    }
  }

  /** The first day of year 1 never converts: the probe one day earlier falls in
      year 0, whatever the offset. */
  lemma ConvertFirstDayRaises(dt: DateTime, utcOffset: int)
    requires dt.year == 1 && dt.month == 1 && dt.day == 1 && ValidDateTime(dt)
    ensures ConvertDateString(Format(dt), utcOffset) == Err(TimestampOutOfRange(Format(dt)))
  {
    SecondsRange();
    assert EpochDays(dt) == EpochDays(DateTime(1, 1, 1, 0, 0, 0));
    ConvertFormat(dt, utcOffset);
  }

  /** East of Greenwich the last second of year 9999 does not convert: its wall
      clock reading falls in year 10000. */
  lemma ConvertLastSecondRaises(dt: DateTime, utcOffset: int)
    requires dt.year == 9999 && dt.month == 12 && dt.day == 31 && dt.hour == 23 && dt.minute == 59 && dt.second == 59
    requires utcOffset > 0
    ensures ValidDateTime(dt)
    ensures ConvertDateString(Format(dt), utcOffset) == Err(TimestampOutOfRange(Format(dt)))
  {
    SecondsRange();
    assert dt == DateTime(9999, 12, 31, 23, 59, 59);
    ConvertFormat(dt, utcOffset);
  }

  /** 2022-03-05T08:28:10 is 19056 days and 30490 seconds after the epoch. */
  lemma EpochSecondsExample(dt: DateTime)
    requires dt == DateTime(2022, 3, 5, 8, 28, 10)
    ensures ValidDateTime(dt) && EpochSeconds(dt) == 1646468890
  {
    assert LeapYearsBefore(2022) == 490 && LeapYearsBefore(1970) == 477;
    assert DaysBeforeYear(2022) == 18993;
    assert DaysBeforeMonth(2022, 3) == 59;
    assert EpochDays(dt) == 19056;
  }

  lemma DatePartExample(dt: DateTime, s: string)
    requires dt == DateTime(2022, 3, 5, 8, 28, 10) && s == "2022-03-05"
    ensures ValidDateTime(dt) && DatePart(dt) == s
  {
    assert Pad4(2022) == "2022";
    assert Pad2(3) == "03" && Pad2(5) == "05";
  }

  lemma TimePartExample(dt: DateTime, s: string)
    requires dt == DateTime(2022, 3, 5, 8, 28, 10) && s == "T08:28:10Z"
    ensures ValidDateTime(dt) && TimePart(dt) == s
  {
    assert Pad2(8) == "08" && Pad2(28) == "28" && Pad2(10) == "10";
  }

  lemma FormatExample(dt: DateTime, s: string)
    requires dt == DateTime(2022, 3, 5, 8, 28, 10) && s == "2022-03-05T08:28:10Z"
    ensures ValidDateTime(dt) && Format(dt) == s
  {
    var a, b := "2022-03-05", "T08:28:10Z";
    DatePartExample(dt, a);
    TimePartExample(dt, b);
    assert s == a + b;
  }

  /** The example date is far from both ends of the calendar. */
  lemma ExampleInRange(dt: DateTime)
    requires dt == DateTime(2022, 3, 5, 8, 28, 10)
    ensures ValidDateTime(dt) && EpochSeconds(dt) == 1646468890 && InLocalRange(dt, 0)
  {
    EpochSecondsExample(dt);
    SecondsRange();
  }

  /** The example the source comments on, on a machine running on UTC; its
      canonical text is `FormatExample`'s. */
  lemma ConvertExample(dt: DateTime)
    requires dt == DateTime(2022, 3, 5, 8, 28, 10)
    ensures ValidDateTime(dt) && ConvertDateString(Format(dt), 0) == Ok(1646468890)
  {
    ExampleInRange(dt);
    ConvertAtValue(Format(dt), dt, 0, 1646468890);
  }

  /** A conversion inside the range, with the timestamp named. */
  lemma ConvertAtValue(s: string, dt: DateTime, utcOffset: int, t: int)
    requires ValidDateTime(dt) && Format(dt) == s && InLocalRange(dt, utcOffset) && EpochSeconds(dt) == t
    ensures ConvertDateString(s, utcOffset) == Ok(t - utcOffset)
  {
    ParseFormat(dt);
    ConvertParsedRange(s, dt, utcOffset);
  }
}
