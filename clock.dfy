/** Naive timestamps. A `datetime` is modelled as a whole number of seconds
    since 1970-01-01T00:00:00 in the proleptic Gregorian calendar; this module
    turns such a count into the calendar fields and renders it the way
    `strftime("%Y-%m-%d, T%H:%M")` does. */
module Clock {

  const SECONDS_PER_MINUTE := 60
  const SECONDS_PER_DAY := 86400

  /** Days from 0000-03-01 to 1970-01-01 in the proleptic Gregorian calendar. */
  const EPOCH_SHIFT := 719468
  /** Days in a 400-year cycle of the Gregorian calendar. */
  const DAYS_PER_ERA := 146097

  datatype Date = Date(year: int, month: int, day: int)

  datatype DateTime = DateTime(date: Date, hour: int, minute: int, second: int)

  /** The year of a 400-year cycle, counted from March, in which the cycle's
      day `doe` falls. */
  function YearOfEra(doe: int): (yoe: int)
    requires 0 <= doe < DAYS_PER_ERA
    ensures 0 <= yoe <= 399
  {
    (doe - doe / 1460 + doe / 36524 - doe / 146096) / 365
  }

  /** The first day of year `yoe` of a cycle, counted from the cycle's start. */
  function StartOfYearOfEra(yoe: int): int
  {
    365 * yoe + yoe / 4 - yoe / 100
  }

  lemma DayOfYearBoundInCentury(doe: int, c: int)
    requires 0 <= doe < 146096 && c == doe / 36524
    ensures var yoe := (doe - doe / 1460 + c) / 365;
      0 <= doe - (365 * yoe + yoe / 4 - yoe / 100) <= 365
  {
    assert 0 <= c <= 3;
    if c == 0 {
    } else if c == 1 {
    } else if c == 2 {
    } else {
    }
  }

  /** A day of a cycle is at most 365 days after the start of its year. */
  lemma DayOfYearBound(doe: int)
    requires 0 <= doe < DAYS_PER_ERA
    ensures 0 <= doe - StartOfYearOfEra(YearOfEra(doe)) <= 365
  {
    if doe < 146096 {
      DayOfYearBoundInCentury(doe, doe / 36524);
      assert YearOfEra(doe) == (doe - doe / 1460 + doe / 36524) / 365;
    } else {
      assert YearOfEra(doe) == 399;
    }
  }

  /** The days before month `mp` of a year that starts in March (`mp` is 0
      for March, 11 for February). */
  function DaysBeforeMonth(mp: int): int
  {
    (153 * mp + 2) / 5
  }

  /** The month, counted from March, of day `doy` of a year that starts in
      March; the day falls within the first 31 days of that month. */
  function MonthOfYear(doy: int): (mp: int)
    requires 0 <= doy <= 365
    ensures 0 <= mp <= 11
    ensures DaysBeforeMonth(mp) <= doy < DaysBeforeMonth(mp) + 31
  {
    (5 * doy + 2) / 153
  }

  /** The calendar month (1 for January) of month `mp` counted from March. */
  function MonthFromIndex(mp: int): (m: int)
    requires 0 <= mp <= 11
    ensures 1 <= m <= 12 && IndexOfMonth(m) == mp
  {
    if mp < 10 then mp + 3 else mp - 9
  }

  /** The month counted from March of calendar month `m`. */
  function IndexOfMonth(m: int): int
  {
    if m > 2 then m - 3 else m + 9
  }

  /** The date of day `doe` of the 400-year cycle `era`, where cycle 0 starts
      on 0000-03-01. */
  function DateOfEra(era: int, doe: int): (date: Date)
    requires 0 <= doe < DAYS_PER_ERA
    ensures 1 <= date.month <= 12 && 1 <= date.day <= 31
  {
    var yoe := YearOfEra(doe);
    var doy := (DayOfYearBound(doe); doe - StartOfYearOfEra(yoe));
    var mp := MonthOfYear(doy);
    var m := MonthFromIndex(mp);
    Date(yoe + era * 400 + (if m <= 2 then 1 else 0), m, doy - DaysBeforeMonth(mp) + 1)
  }

  /** The date `days` days after 1970-01-01. */
  function CivilFromDays(days: int): (date: Date)
    ensures 1 <= date.month <= 12 && 1 <= date.day <= 31
  {
    var z := days + EPOCH_SHIFT;
    DateOfEra(z / DAYS_PER_ERA, z % DAYS_PER_ERA)
  }

  /** The number of days from 1970-01-01 to `date`. */
  function DaysFromCivil(date: Date): int
  {
    var y := date.year - (if date.month <= 2 then 1 else 0);
    var era := y / 400;
    var yoe := y - era * 400;
    var doy := DaysBeforeMonth(IndexOfMonth(date.month)) + date.day - 1;
    era * DAYS_PER_ERA + StartOfYearOfEra(yoe) + doy - EPOCH_SHIFT
  }

  /** A year of cycle `era` belongs to that cycle. */
  lemma EraOfYear(era: int, yoe: int)
    requires 0 <= yoe <= 399
    ensures (yoe + era * 400) / 400 == era
  {
    var y := yoe + era * 400;
    var q, r := y / 400, y % 400;
    assert y == q * 400 + r && 0 <= r < 400;
    assert (era - q) * 400 == r - yoe;
  }

  /** Converting a day of a cycle to a date and back gives the same day. */
  lemma DateOfEraRoundTrip(era: int, doe: int)
    requires 0 <= doe < DAYS_PER_ERA
    ensures DaysFromCivil(DateOfEra(era, doe)) == era * DAYS_PER_ERA + doe - EPOCH_SHIFT
  {
    var yoe := YearOfEra(doe);
    DayOfYearBound(doe);
    var doy := doe - StartOfYearOfEra(yoe);
    var mp := MonthOfYear(doy);
    var date := DateOfEra(era, doe);
    assert IndexOfMonth(date.month) == mp;
    assert date.year - (if date.month <= 2 then 1 else 0) == yoe + era * 400;
    EraOfYear(era, yoe);
  }

  /** Converting a day count to a date and back gives the same count, so
      distinct days are distinct dates. */
  lemma CivilRoundTrip(days: int)
    ensures DaysFromCivil(CivilFromDays(days)) == days
  {
    var z := days + EPOCH_SHIFT;
    DateOfEraRoundTrip(z / DAYS_PER_ERA, z % DAYS_PER_ERA);
  }

  /** The calendar fields of the instant `t` seconds after the epoch. */
  function FromSeconds(t: int): (dt: DateTime)
    ensures InRange(dt)
  {
    var secondOfDay := t % SECONDS_PER_DAY;
    var secondOfHour := secondOfDay % 3600;
    DateTime(CivilFromDays(t / SECONDS_PER_DAY),
             secondOfDay / 3600, secondOfHour / 60, secondOfHour % 60)
  }

  /** The seconds since the epoch of a date and time of day. */
  function ToSeconds(dt: DateTime): int
  {
    DaysFromCivil(dt.date) * SECONDS_PER_DAY + dt.hour * 3600 + dt.minute * 60 + dt.second
  }

  /** The calendar fields determine the instant they were computed from. */
  lemma FromSecondsRoundTrip(t: int)
    ensures ToSeconds(FromSeconds(t)) == t
  {
    var days, secondOfDay := t / SECONDS_PER_DAY, t % SECONDS_PER_DAY;
    CivilRoundTrip(days);
    assert t == days * SECONDS_PER_DAY + secondOfDay;
    var secondOfHour := secondOfDay % 3600;
    assert secondOfDay == secondOfDay / 3600 * 3600 + secondOfHour;
    assert secondOfHour == secondOfHour / 60 * 60 + secondOfHour % 60;
  }

  /** The number that a string of decimal digits denotes. */
  function DigitsValue(s: string): int
  {
    if s == [] then 0 else DigitsValue(s[..|s| - 1]) * 10 + (s[|s| - 1] as int - '0' as int)
  }

  /** Every character of `s` is a decimal digit. */
  predicate IsDigits(s: string)
  {
    forall i :: 0 <= i < |s| ==> '0' <= s[i] <= '9'
  }

  /** `s` is made of decimal digits and denotes `n`. */
  predicate ReadsAs(s: string, n: int)
  {
    IsDigits(s) && DigitsValue(s) == n
  }

  /** The decimal digits of `n`, without leading zeros. */
  function Decimal(n: nat): (s: string)
    ensures |s| >= 1
    ensures IsDigits(s)
    ensures DigitsValue(s) == n
    ensures n < 10 ==> |s| == 1
    ensures 10 <= n < 100 ==> |s| == 2
    ensures 100 <= n < 1000 ==> |s| == 3
    ensures 1000 <= n < 10000 ==> |s| == 4
  {
    if n < 10 then [('0' as int + n) as char]
    else
      var s := Decimal(n / 10) + [('0' as int + n % 10) as char];
      assert s[..|s| - 1] == Decimal(n / 10);
      s
  }

  /** A field printed with at least two digits, as `%m`, `%d`, `%H`, `%M` do;
      below 100 it is exactly two digits that read back as the field. */
  function TwoDigits(n: nat): (s: string)
    ensures n < 100 ==> |s| == 2 && ReadsAs(s, n)
  {
    if n < 10 then
      var s := "0" + Decimal(n);
      assert s[..1] == "0";
      s
    else Decimal(n)
  }

  /** `%Y`: the year in decimal; years before the common era have no `datetime`. */
  function YearText(y: int): string
  {
    if y >= 0 then Decimal(y) else "-" + Decimal(-y)
  }

  /** Calendar fields within their ranges, as `FromSeconds` produces them. */
  predicate InRange(dt: DateTime)
  {
    1 <= dt.date.month <= 12 && 1 <= dt.date.day <= 31
    && 0 <= dt.hour < 24 && 0 <= dt.minute < 60 && 0 <= dt.second < 60
  }

  /** `s` is the 18 characters `YYYY-mm-dd, THH:MM`: the separators in their
      places and, between them, digit fields that read as the given year,
      month, day, hour and minute. */
  predicate LaidOut(s: string, year: int, month: int, day: int, hour: int, minute: int)
  {
    |s| == 18 && s[4] == '-' && s[7] == '-' && s[10..13] == ", T" && s[15] == ':'
    && ReadsAs(s[..4], year) && ReadsAs(s[5..7], month) && ReadsAs(s[8..10], day)
    && ReadsAs(s[13..15], hour) && ReadsAs(s[16..], minute)
  }

  /** `strftime("%Y-%m-%d, T%H:%M")` on calendar fields. For a four-digit
      year the text has the fixed layout `YYYY-mm-dd, THH:MM`, and each field
      reads back as the year, month, day, hour and minute. */
  function Format(dt: DateTime): (s: string)
    requires InRange(dt)
    ensures 1000 <= dt.date.year <= 9999 ==>
      LaidOut(s, dt.date.year, dt.date.month, dt.date.day, dt.hour, dt.minute)
  {
    var year, month, day := YearText(dt.date.year), TwoDigits(dt.date.month), TwoDigits(dt.date.day);
    var hour, minute := TwoDigits(dt.hour), TwoDigits(dt.minute);
    if |year| == 4 then
      Layout(year, month, day, hour, minute);
      year + "-" + month + "-" + day + ", T" + hour + ":" + minute
    else year + "-" + month + "-" + day + ", T" + hour + ":" + minute
  }

  /** Where the fields sit in `YYYY-mm-dd, THH:MM`. */
  lemma Layout(year: string, month: string, day: string, hour: string, minute: string)
    requires |year| == 4 && |month| == 2 && |day| == 2 && |hour| == 2 && |minute| == 2
    ensures var s := year + "-" + month + "-" + day + ", T" + hour + ":" + minute;
      |s| == 18 && s[4] == '-' && s[7] == '-' && s[10..13] == ", T" && s[15] == ':'
      && s[..4] == year && s[5..7] == month && s[8..10] == day && s[13..15] == hour
      && s[16..] == minute
  {
  }

  /** `t.strftime("%Y-%m-%d, T%H:%M")`: the fields of `t`, formatted. For a
      four-digit year the text is exactly `YYYY-mm-dd, THH:MM` with the
      instant's fields in decimal. */
  function Render(t: int): (s: string)
    ensures var dt := FromSeconds(t);
      1000 <= dt.date.year <= 9999 ==>
        LaidOut(s, dt.date.year, dt.date.month, dt.date.day, dt.hour, dt.minute)
  {
    Format(FromSeconds(t))
  }

  /** Division by 60 of a number given as a quotient and a remainder. */
  lemma DivideBy60(x: int, q: int, r: int)
    requires x == q * 60 + r && 0 <= r < 60
    ensures x / 60 == q && x % 60 == r
  {
  }

  /** Division by 1440 of a number given as a quotient and a remainder. */
  lemma DivideBy1440(x: int, q: int, r: int)
    requires x == q * 1440 + r && 0 <= r < 1440
    ensures x / 1440 == q && x % 1440 == r
  {
  }

  /** Division by 3600 of a number given as a quotient and a remainder. */
  lemma DivideBy3600(x: int, q: int, r: int)
    requires x == q * 3600 + r && 0 <= r < 3600
    ensures x / 3600 == q && x % 3600 == r
  {
  }

  /** Counting whole minutes first and splitting them into days, hours and
      minutes gives the same fields as splitting the seconds. */
  lemma MinuteArithmetic(t: int)
    ensures t / 60 / 1440 == t / SECONDS_PER_DAY
    ensures t / 60 % 1440 / 60 == t % SECONDS_PER_DAY / 3600
    ensures t / 60 % 60 == t % SECONDS_PER_DAY % 3600 / 60
    ensures t % 60 == t % SECONDS_PER_DAY % 3600 % 60
  {
    var days, secondOfDay := t / SECONDS_PER_DAY, t % SECONDS_PER_DAY;
    var minuteOfDay, second := secondOfDay / 60, secondOfDay % 60;
    DivideBy60(t, days * 1440 + minuteOfDay, second);
    DivideBy1440(t / 60, days, minuteOfDay);
    var hour, minute := minuteOfDay / 60, minuteOfDay % 60;
    DivideBy3600(secondOfDay, hour, minute * 60 + second);
    DivideBy60(secondOfDay % 3600, minute, second);
    DivideBy60(t / 60, days * 24 + hour, minute);
  }

  /** The fields of `t` other than the second depend only on its minute. */
  lemma MinuteSplit(t: int)
    ensures FromSeconds(t).second == t % SECONDS_PER_MINUTE
    ensures FromSeconds(t).date == CivilFromDays(t / SECONDS_PER_MINUTE / 1440)
    ensures FromSeconds(t).hour == t / SECONDS_PER_MINUTE % 1440 / 60
    ensures FromSeconds(t).minute == t / SECONDS_PER_MINUTE % 60
  {
    MinuteArithmetic(t);
  }

  /** For instants in the years 1000..9999, two instants render alike exactly
      when they fall in the same minute. */
  lemma RenderIdentifiesMinute(t1: int, t2: int)
    requires 1000 <= FromSeconds(t1).date.year <= 9999
    requires 1000 <= FromSeconds(t2).date.year <= 9999
    ensures Render(t1) == Render(t2) <==> t1 / SECONDS_PER_MINUTE == t2 / SECONDS_PER_MINUTE
  {
    MinuteSplit(t1);
    MinuteSplit(t2);
    if Render(t1) == Render(t2) {
      var dt1, dt2 := FromSeconds(t1), FromSeconds(t2);
      assert dt1.date == dt2.date && dt1.hour == dt2.hour && dt1.minute == dt2.minute;
      FromSecondsRoundTrip(t1);
      FromSecondsRoundTrip(t2);
      assert t1 - t1 % 60 == t2 - t2 % 60;
    }
  }

  /** 2025-04-13T00:00:00, the day of the bookings used by the route tests. */
  const APRIL_13_2025 := 1744502400

  lemma CivilExample()
    ensures CivilFromDays(20191) == Date(2025, 4, 13)
  {
    assert (20191 + EPOCH_SHIFT) / DAYS_PER_ERA == 5;
    assert (20191 + EPOCH_SHIFT) % DAYS_PER_ERA == 9174;
    assert YearOfEra(9174) == 25;
    assert StartOfYearOfEra(25) == 9131;
    assert MonthOfYear(43) == 1 && DaysBeforeMonth(1) == 31;
  }

  lemma DecimalExample()
    ensures Decimal(20) == "20" && Decimal(202) == "202"
  {
    assert Decimal(20) == Decimal(2) + ['0'];
    assert Decimal(202) == Decimal(20) + ['2'];
  }

  lemma YearTextExample()
    ensures YearText(2025) == "2025"
  {
    DecimalExample();
    assert Decimal(2025) == Decimal(202) + ['5'];
  }


  lemma TwoDigitsExample()
    ensures TwoDigits(4) == "04" && TwoDigits(13) == "13"
    ensures TwoDigits(15) == "15" && TwoDigits(0) == "00"
  {
    assert Decimal(1) == "1";
  }

  lemma FormatExample()
    ensures Format(DateTime(Date(2025, 4, 13), 15, 0, 0)) == "2025-04-13, T15:00"
  {
    YearTextExample();
    TwoDigitsExample();
  }

  lemma RenderExample()
    ensures FromSeconds(APRIL_13_2025 + 15 * 3600) == DateTime(Date(2025, 4, 13), 15, 0, 0)
    ensures Render(APRIL_13_2025 + 15 * 3600) == "2025-04-13, T15:00"
  {
    assert (APRIL_13_2025 + 15 * 3600) / SECONDS_PER_DAY == 20191;
    assert (APRIL_13_2025 + 15 * 3600) % SECONDS_PER_DAY == 54000;
    CivilExample();
    FormatExample();
  }
}
