/** The calendar conversion behind the announcement's time stamp. */
module Civil {
  datatype Date = Date(year: int, month: int, day: int)

  /** Years of 400 days' worth of leap rules start on 1 March, so a leap day ends its year:
      `doe` is the day of the 400-year era, `yoe` the year of it. */
  function YearOfEra(doe: int): int {
    (doe - doe / 1460 + doe / 36_524 - doe / 146_096) / 365
  }

  function DayOfYear(doe: int): int {
    var yoe := YearOfEra(doe);
    doe - (365 * yoe + yoe / 4 - yoe / 100)
  }

  function DateInYear(y: int, doy: int): Date {
    var mp := (5 * doy + 2) / 153;
    var d := doy - (153 * mp + 2) / 5 + 1;
    var m := if mp < 10 then mp + 3 else mp - 9;
    Date(if m <= 2 then y + 1 else y, m, d)
  }

  /** `civil_from_days`. Dafny's `/` and `%` by a positive constant are the source's `div_euclid`
      and `rem_euclid`, and its plain division where the operand is not negative. */
  function CivilFromDays(z: int): Date {
    var shifted := z + 719_468;
    var era := shifted / 146_097;
    var doe := shifted % 146_097;
    DateInYear(YearOfEra(doe) + era * 400, DayOfYear(doe))
  }

  // ---------- the Gregorian calendar ----------

  predicate Leap(y: int) {
    y % 4 == 0 && (y % 100 != 0 || y % 400 == 0)
  }

  function MonthLength(y: int, m: int): int {
    if m == 2 then (if Leap(y) then 29 else 28)
    else if m == 4 || m == 6 || m == 9 || m == 11 then 30
    else 31
  }

  predicate ValidDate(date: Date) {
    1 <= date.month <= 12 && 1 <= date.day <= MonthLength(date.year, date.month)
  }

  function Tomorrow(date: Date): (next: Date)
    requires ValidDate(date)
    ensures ValidDate(next)
  {
    if date.day < MonthLength(date.year, date.month) then date.(day := date.day + 1)
    else if date.month < 12 then Date(date.year, date.month + 1, 1)
    else Date(date.year + 1, 1, 1)
  }

  /** Leap years from year 1 through year `y`; years before count negative. */
  function LeapsThrough(y: int): int {
    y / 4 - y / 100 + y / 400
  }

  function DaysBeforeMonth(y: int, m: int): int
    decreases m
  {
    if m <= 1 then 0 else DaysBeforeMonth(y, m - 1) + MonthLength(y, m - 1)
  }

  /** Days from 1970-01-01 to 1 January of `y`. */
  function NewYear(y: int): int {
    365 * (y - 1970) + LeapsThrough(y - 1) - 477
  }

  function DaysFromCivil(date: Date): int {
    NewYear(date.year) + DaysBeforeMonth(date.year, date.month) + date.day - 1
  }

  lemma QuotientStep4(y: int)
    ensures y / 4 == (y - 1) / 4 + if y % 4 == 0 then 1 else 0
  {
  }

  lemma QuotientStep100(y: int)
    ensures y / 100 == (y - 1) / 100 + if y % 100 == 0 then 1 else 0
  {
  }

  lemma QuotientStep400(y: int)
    ensures y / 400 == (y - 1) / 400 + if y % 400 == 0 then 1 else 0
  {
  }

  lemma LeapsStep(y: int)
    ensures LeapsThrough(y) == LeapsThrough(y - 1) + if Leap(y) then 1 else 0
  {
    QuotientStep4(y);
    QuotientStep100(y);
    QuotientStep400(y);
    assert y % 400 == 0 ==> y % 100 == 0;
    assert y % 100 == 0 ==> y % 4 == 0;
  }

  lemma MonthStarts(y: int)
    ensures DaysBeforeMonth(y, 1) == 0 && DaysBeforeMonth(y, 2) == 31
    ensures var leap := if Leap(y) then 1 else 0;
            && DaysBeforeMonth(y, 3) == 59 + leap && DaysBeforeMonth(y, 4) == 90 + leap
            && DaysBeforeMonth(y, 5) == 120 + leap && DaysBeforeMonth(y, 6) == 151 + leap
            && DaysBeforeMonth(y, 7) == 181 + leap && DaysBeforeMonth(y, 8) == 212 + leap
            && DaysBeforeMonth(y, 9) == 243 + leap && DaysBeforeMonth(y, 10) == 273 + leap
            && DaysBeforeMonth(y, 11) == 304 + leap && DaysBeforeMonth(y, 12) == 334 + leap
            && DaysBeforeMonth(y, 13) == 365 + leap
  {
    assert DaysBeforeMonth(y, 4) == DaysBeforeMonth(y, 3) + 31;
    assert DaysBeforeMonth(y, 6) == DaysBeforeMonth(y, 5) + 31;
    assert DaysBeforeMonth(y, 8) == DaysBeforeMonth(y, 7) + 31;
    assert DaysBeforeMonth(y, 10) == DaysBeforeMonth(y, 9) + 30;
    assert DaysBeforeMonth(y, 12) == DaysBeforeMonth(y, 11) + 30;
  }

  lemma YearLength(y: int)
    ensures NewYear(y) + DaysBeforeMonth(y, 12) + MonthLength(y, 12) == NewYear(y + 1) + DaysBeforeMonth(y + 1, 1)
  {
    MonthStarts(y);
    LeapsStep(y);
  }

  /** The day count goes up by one from each date to the next. */
  lemma TomorrowIsOneLater(date: Date)
    requires ValidDate(date)
    ensures DaysFromCivil(Tomorrow(date)) == DaysFromCivil(date) + 1
  {
    if date.day == MonthLength(date.year, date.month) {
      if date.month == 12 {
        YearLength(date.year);
      } else {
        var y, m := date.year, date.month;
        assert DaysBeforeMonth(y, m + 1) == DaysBeforeMonth(y, m) + MonthLength(y, m);
      }
    }
  }

  lemma {:induction false} NewYearsGrow(y: int, y': int)
    requires y < y'
    ensures NewYear(y) + (if Leap(y) then 366 else 365) <= NewYear(y')
    decreases y' - y
  {
    LeapsStep(y);
    if y + 1 < y' {
      NewYearsGrow(y + 1, y');
    }
  }

  lemma {:induction false} MonthsGrow(y: int, m: int, m': int)
    requires 1 <= m < m' <= 13
    ensures DaysBeforeMonth(y, m) + MonthLength(y, m) <= DaysBeforeMonth(y, m')
    decreases m' - m
  {
    if m + 1 < m' {
      MonthsGrow(y, m, m' - 1);
    }
  }

  /** A valid date lies inside its year. */
  lemma InYear(date: Date)
    requires ValidDate(date)
    ensures NewYear(date.year) <= DaysFromCivil(date) < NewYear(date.year) + if Leap(date.year) then 366 else 365
  {
    MonthStarts(date.year);
    MonthsGrow(date.year, date.month, 13);
    if date.month > 1 {
      MonthsGrow(date.year, 1, date.month);
    }
  }

  /** Different dates have different day numbers. */
  lemma DaysFromCivilInjective(a: Date, b: Date)
    requires ValidDate(a) && ValidDate(b) && DaysFromCivil(a) == DaysFromCivil(b)
    ensures a == b
  {
    InYear(a);
    InYear(b);
    if a.year < b.year {
      NewYearsGrow(a.year, b.year);
    } else if b.year < a.year {
      NewYearsGrow(b.year, a.year);
    } else if a.month < b.month {
      MonthsGrow(a.year, a.month, b.month);
    } else if b.month < a.month {
      MonthsGrow(a.year, b.month, a.month);
    }
  }

  // ---------- the closed form ----------

  /** A day of the era as a century `q`, a four-year span `s` of it and a day `u` of that. */
  lemma SplitDay(doe: int) returns (q: int, s: int, u: int)
    requires 0 <= doe < 146_097
    ensures 0 <= q <= 3 && 0 <= s <= 24 && 0 <= u <= 1460
    ensures s == 24 && u == 1460 ==> q == 3
    ensures doe == 36_524 * q + 1461 * s + u
  {
    q := if doe == 146_096 then 3 else doe / 36_524;
    var r := doe - 36_524 * q;
    s := r / 1461;
    u := r % 1461;
  }

  /** The three correction terms give the year of the era: a span's fifth year never starts. */
  lemma YearOfEraIs(q: int, s: int, u: int)
    requires 0 <= q <= 3 && 0 <= s <= 24 && 0 <= u <= 1460
    requires s == 24 && u == 1460 ==> q == 3
    ensures var t := if u == 1460 then 3 else u / 365;
            YearOfEra(36_524 * q + 1461 * s + u) == 100 * q + 4 * s + t
  {
    var doe := 36_524 * q + 1461 * s + u;
    assert doe / 36_524 - doe / 146_096 == q;
    var e := if 24 * q + s + u >= 1460 then 1 else 0;
    assert doe / 1460 == 25 * q + s + e by {
      assert doe == 1460 * (25 * q + s) + (24 * q + s + u);
      assert 0 <= 24 * q + s + u - 1460 * e < 1460;
    }
    var n := 36_500 * q + 1460 * s + (u - e);
    assert YearOfEra(doe) == n / 365;
    assert n / 365 == 100 * q + 4 * s + (u - e) / 365;
  }

  lemma YearParts(q: int, s: int, t: int)
    requires 0 <= s <= 24 && 0 <= t <= 3
    ensures (100 * q + 4 * s + t) / 4 == 25 * q + s && (100 * q + 4 * s + t) / 100 == q
  {
    var low := 4 * s + t;
    assert 0 <= low < 100;
  }

  /** A span of four years ends with a leap day, but for three of the four centuries. */
  lemma LastOfSpan(q: int, s: int)
    requires 0 <= q <= 3 && 0 <= s <= 24 && (s == 24 ==> q == 3)
    ensures Leap(100 * q + 4 * s + 3 + 1)
  {
    var y := 100 * q + 4 * s + 4;
    assert y == 4 * (25 * q + s + 1);
    assert s < 24 ==> y % 100 == 4 * (s + 1);
    assert s == 24 ==> y == 400;
  }

  /** The year starts on the counted day, and only a year before a leap day has a day 365. */
  lemma EraYear(doe: int)
    requires 0 <= doe < 146_097
    ensures 0 <= YearOfEra(doe) < 400
    ensures 0 <= DayOfYear(doe) <= if Leap(YearOfEra(doe) + 1) then 365 else 364
  {
    var q, s, u := SplitDay(doe);
    YearOfEraIs(q, s, u);
    var t := if u == 1460 then 3 else u / 365;
    YearParts(q, s, t);
    assert DayOfYear(doe) == u - 365 * t;
    if u == 1460 {
      LastOfSpan(q, s);
    }
  }

  /** The month formula, for a day counted from 1 March. */
  lemma DateInYearIs(y: int, doy: int)
    requires 0 <= doy <= if Leap(y + 1) then 365 else 364
    ensures ValidDate(DateInYear(y, doy))
    ensures DaysFromCivil(DateInYear(y, doy)) == 365 * (y - 1970) + LeapsThrough(y) - 477 + 59 + doy
  {
    MonthStarts(y);
    MonthStarts(y + 1);
    LeapsStep(y);
    var mp := (5 * doy + 2) / 153;
    assert 0 <= mp <= 11;
    assert mp <= 5 || mp >= 6;
  }

  lemma Shift4(y: int, era: int)
    ensures (y + era * 400) / 4 == y / 4 + era * 100 && (y + era * 400) % 4 == y % 4
  {
  }

  lemma Shift100(y: int, era: int)
    ensures (y + era * 400) / 100 == y / 100 + era * 4 && (y + era * 400) % 100 == y % 100
  {
  }

  lemma Shift400(y: int, era: int)
    ensures (y + era * 400) / 400 == y / 400 + era && (y + era * 400) % 400 == y % 400
  {
  }

  lemma LeapShift(yoe: int, era: int)
    requires 0 <= yoe < 400
    ensures LeapsThrough(yoe + era * 400) == yoe / 4 - yoe / 100 + era * 97
    ensures Leap(yoe + era * 400 + 1) == Leap(yoe + 1)
  {
    Shift4(yoe, era);
    Shift100(yoe, era);
    Shift400(yoe, era);
    Shift4(yoe + 1, era);
    Shift100(yoe + 1, era);
    Shift400(yoe + 1, era);
  }

  /** The conversion gives a valid date, and counting days from it gives the day number back. */
  lemma CivilCountsBack(z: int)
    ensures ValidDate(CivilFromDays(z))
    ensures DaysFromCivil(CivilFromDays(z)) == z
  {
    var era, doe := (z + 719_468) / 146_097, (z + 719_468) % 146_097;
    EraYear(doe);
    var yoe := YearOfEra(doe);
    var y := yoe + era * 400;
    LeapShift(yoe, era);
    DateInYearIs(y, DayOfYear(doe));
  }

  lemma EpochDate(date: Date)
    requires ValidDate(date) && DaysFromCivil(date) == 0
    ensures date == Date(1970, 1, 1)
  {
    DaysFromCivilInjective(date, Date(1970, 1, 1));
  }

  lemma OneLaterIsTomorrow(today: Date, next: Date)
    requires ValidDate(today) && ValidDate(next) && DaysFromCivil(next) == DaysFromCivil(today) + 1
    ensures next == Tomorrow(today)
  {
    TomorrowIsOneLater(today);
    DaysFromCivilInjective(next, Tomorrow(today));
  }

  /** The conversion is the Gregorian calendar: it starts right and moves one date a day. */
  lemma CivilIsGregorian(z: int)
    ensures CivilFromDays(0) == Date(1970, 1, 1)
    ensures ValidDate(CivilFromDays(z)) && CivilFromDays(z + 1) == Tomorrow(CivilFromDays(z))
  {
    CivilCountsBack(0);
    EpochDate(CivilFromDays(0));
    CivilCountsBack(z);
    CivilCountsBack(z + 1);
    OneLaterIsTomorrow(CivilFromDays(z), CivilFromDays(z + 1));
  }

  /** The other inverse: every calendar date is reached, from its own day number. */
  lemma CivilReaches(date: Date)
    requires ValidDate(date)
    ensures CivilFromDays(DaysFromCivil(date)) == date
  {
    CivilCountsBack(DaysFromCivil(date));
    DaysFromCivilInjective(date, CivilFromDays(DaysFromCivil(date)));
  }

  // ---------- the time stamp ----------

  datatype Stamp = Stamp(date: Date, hour: int, minute: int, second: int)

  predicate ValidStamp(t: Stamp) {
    ValidDate(t.date) && 0 <= t.hour < 24 && 0 <= t.minute < 60 && 0 <= t.second < 60
  }

  /** The split of local seconds in `now_local`. */
  function StampOf(secs: int): Stamp {
    var tod := secs % 86_400;
    Stamp(CivilFromDays(secs / 86_400), tod / 3600, tod % 3600 / 60, tod % 60)
  }

  function SecondsOf(t: Stamp): int {
    DaysFromCivil(t.date) * 86_400 + t.hour * 3600 + t.minute * 60 + t.second
  }

  lemma ClockSplit(tod: int)
    requires 0 <= tod < 86_400
    ensures 0 <= tod / 3600 < 24 && 0 <= tod % 3600 / 60 < 60 && 0 <= tod % 60 < 60
    ensures tod == tod / 3600 * 3600 + tod % 3600 / 60 * 60 + tod % 60
  {
    var h, r := tod / 3600, tod % 3600;
    var mi := r / 60;
    assert tod == 60 * (60 * h + mi) + r % 60;
    assert tod % 60 == r % 60;
  }

  lemma ClockJoin(h: int, mi: int, s: int)
    requires 0 <= h < 24 && 0 <= mi < 60 && 0 <= s < 60
    ensures var tod := h * 3600 + mi * 60 + s;
            tod / 3600 == h && tod % 3600 / 60 == mi && tod % 60 == s
  {
    var tod := h * 3600 + mi * 60 + s;
    assert tod % 3600 == mi * 60 + s;
    assert tod == 60 * (60 * h + mi) + s;
  }

  /** The split is a bijection between seconds and calendar stamps. */
  lemma StampRoundTrip(secs: int, t: Stamp)
    ensures ValidStamp(StampOf(secs)) && SecondsOf(StampOf(secs)) == secs
    ensures ValidStamp(t) ==> StampOf(SecondsOf(t)) == t
  {
    CivilCountsBack(secs / 86_400);
    ClockSplit(secs % 86_400);
    if ValidStamp(t) {
      var tod := t.hour * 3600 + t.minute * 60 + t.second;
      assert SecondsOf(t) / 86_400 == DaysFromCivil(t.date) && SecondsOf(t) % 86_400 == tod;
      ClockJoin(t.hour, t.minute, t.second);
      CivilReaches(t.date);
    }
  }

  /** The clock's next tick. */
  function NextSecond(t: Stamp): (next: Stamp)
    requires ValidStamp(t)
    ensures ValidStamp(next)
  {
    if t.second < 59 then t.(second := t.second + 1)
    else if t.minute < 59 then t.(minute := t.minute + 1, second := 0)
    else if t.hour < 23 then Stamp(t.date, t.hour + 1, 0, 0)
    else Stamp(Tomorrow(t.date), 0, 0, 0)
  }

  lemma NextSecondIsOneLater(t: Stamp)
    requires ValidStamp(t)
    ensures SecondsOf(NextSecond(t)) == SecondsOf(t) + 1
  {
    TomorrowIsOneLater(t.date);
  }

  lemma StampAt(secs: int, t: Stamp)
    requires ValidStamp(t) && SecondsOf(t) == secs
    ensures StampOf(secs) == t
  {
    StampRoundTrip(0, t);
  }

  lemma EpochIsDayZero()
    ensures DaysFromCivil(Date(1970, 1, 1)) == 0
  {
    assert DaysBeforeMonth(1970, 1) == 0;
  }

  /** The stamp starts at midnight on 1 January 1970. */
  lemma StampStarts()
    ensures StampOf(0) == Stamp(Date(1970, 1, 1), 0, 0, 0)
  {
    EpochIsDayZero();
    StampAt(0, Stamp(Date(1970, 1, 1), 0, 0, 0));
  }

  /** And ticks like a clock. */
  lemma StampTicks(secs: int)
    ensures ValidStamp(StampOf(secs)) && StampOf(secs + 1) == NextSecond(StampOf(secs))
  {
    var t := StampOf(secs);
    StampRoundTrip(secs, t);
    NextSecondIsOneLater(t);
    StampAt(secs + 1, NextSecond(t));
  }
}
