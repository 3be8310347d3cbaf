/** Zip timestamps as seconds since the Unix epoch. */
module Civil {

  /** Division that rounds towards zero. */
  function TruncDiv(a: int, b: int): int
    requires b > 0
  {
    if a >= 0 then a / b else -(-a / b)
  }

  function AtLeastOne(n: nat): nat {
    if n == 0 then 1 else n
  }

  /** `days_from_civil`: days between the epoch and a date; a zero month or day counts as one. */
  function DaysFromCivil(year: int, month: nat, day: nat): int {
    var m, d := AtLeastOne(month), AtLeastOne(day);
    var y := if m <= 2 then year - 1 else year;
    var era := TruncDiv(if y >= 0 then y else y - 399, 400);
    var yearOfEra := y - era * 400;
    var monthShifted := (m + 9) % 12;
    var dayOfYear := (153 * monthShifted + 2) / 5 + d - 1;
    var dayOfEra := yearOfEra * 365 + TruncDiv(yearOfEra, 4) - TruncDiv(yearOfEra, 100) + dayOfYear;
    era * 146097 + dayOfEra - 719468
  }

  // ----- the calendar, counted out

  predicate IsLeap(y: int) {
    y % 4 == 0 && (y % 100 != 0 || y % 400 == 0)
  }

  function YearLength(y: int): int {
    if IsLeap(y) then 366 else 365
  }

  function MonthLength(y: int, m: nat): nat {
    if m == 2 then (if IsLeap(y) then 29 else 28)
    else if m in {4, 6, 9, 11} then 30 else 31
  }

  predicate ValidDate(y: int, m: nat, d: nat) {
    1 <= m <= 12 && 1 <= d <= MonthLength(y, m)
  }

  /** Days from the epoch to the first of January, one year at a time. */
  function YearStart(y: int): int
    decreases if y >= 1970 then y - 1970 else 1970 - y
  {
    if y == 1970 then 0
    else if y > 1970 then YearStart(y - 1) + YearLength(y - 1)
    else YearStart(y + 1) - YearLength(y)
  }

  /** Days from the first of January to the first of a month, one month at a time. */
  function MonthStart(y: int, m: nat): nat
    requires 1 <= m <= 13
  {
    if m == 1 then 0 else MonthStart(y, m - 1) + MonthLength(y, m - 1)
  }

  function CountedDays(y: int, m: nat, d: nat): int
    requires ValidDate(y, m, d)
  {
    YearStart(y) + MonthStart(y, m) + d - 1
  }

  // ----- the formula is the count

  /** Days in the years up to `y`, leap days included, from a fixed point. */
  function Leaps(y: int): int {
    365 * y + y / 4 - y / 100 + y / 400
  }

  lemma EraIsFloor(y: int)
    ensures TruncDiv(if y >= 0 then y else y - 399, 400) == y / 400
  {
  }

  lemma LeapsByEra(y: int)
    ensures var era := y / 400; var yoe := y - era * 400;
            0 <= yoe < 400 && era * 146097 + yoe * 365 + yoe / 4 - yoe / 100 == Leaps(y)
  {
    var era := y / 400;
    var yoe := y - era * 400;
    assert y / 4 == 100 * era + yoe / 4;
    assert y / 100 == 4 * era + yoe / 100;
  }

  /** The formula without eras. */
  lemma Flattened(year: int, m: nat, d: nat)
    requires 1 <= m <= 12 && d >= 1
    ensures DaysFromCivil(year, m, d)
         == Leaps(if m <= 2 then year - 1 else year) + (153 * ((m + 9) % 12) + 2) / 5 + d - 1 - 719468
  {
    var y := if m <= 2 then year - 1 else year;
    EraIsFloor(y);
    LeapsByEra(y);
  }

  lemma LeapsStep(y: int)
    ensures Leaps(y) - Leaps(y - 1) == YearLength(y)
  {
    StepOfQuotient(y, 4);
    StepOfQuotient(y, 100);
    StepOfQuotient(y, 400);
  }

  lemma StepOfQuotient(y: int, n: int)
    requires n in {4, 100, 400}
    ensures y / n - (y - 1) / n == if y % n == 0 then 1 else 0
  {
  }

  lemma {:induction false} YearStartIs(y: int)
    ensures YearStart(y) == Leaps(y - 1) + 306 - 719468
    decreases if y >= 1970 then y - 1970 else 1970 - y
  {
    if y > 1970 {
      YearStartIs(y - 1);
      LeapsStep(y - 1);
    } else if y < 1970 {
      YearStartIs(y + 1);
      LeapsStep(y);
    }
  }

  /** Where each month starts, as a table. */
  lemma MonthStarts(y: int, m: nat)
    requires 1 <= m <= 12
    ensures MonthStart(y, m) == [0, 31, 59, 90, 120, 151, 181, 212, 243, 273, 304, 334][m - 1]
                                + (if m > 2 && IsLeap(y) then 1 else 0)
  {
    if m > 1 {
      MonthStarts(y, m - 1);
    }
  }

  /** The formula for months, from March on, as a table. */
  lemma ShiftedMonths(m: nat)
    requires 1 <= m <= 12
    ensures (153 * ((m + 9) % 12) + 2) / 5 == [306, 337, 0, 31, 61, 92, 122, 153, 184, 214, 245, 275][m - 1]
  {
  }

  /** For every valid date, years before zero included, the formula is the day-by-day count. */
  lemma FormulaIsCount(y: int, m: nat, d: nat)
    requires ValidDate(y, m, d)
    ensures DaysFromCivil(y, m, d) == CountedDays(y, m, d)
  {
    Flattened(y, m, d);
    YearStartIs(y);
    MonthStarts(y, m);
    LeapsStep(y);
    ShiftedMonths(m);
    hide DaysFromCivil, Leaps, YearStart, MonthStart;
  }

  // ----- order

  datatype DateTime = DateTime(year: int, month: nat, day: nat, hour: nat, minute: nat, second: nat)

  predicate ValidTime(t: DateTime) {
    ValidDate(t.year, t.month, t.day) && t.hour < 24 && t.minute < 60 && t.second < 60
  }

  /** `to_unix`, seconds only. */
  function ToUnix(t: DateTime): int {
    DaysFromCivil(t.year, t.month, t.day) * 86400 + t.hour * 3600 + t.minute * 60 + t.second
  }

  predicate EarlierDate(a: DateTime, b: DateTime) {
    a.year < b.year || (a.year == b.year && (a.month < b.month || (a.month == b.month && a.day < b.day)))
  }

  predicate Earlier(a: DateTime, b: DateTime) {
    EarlierDate(a, b) ||
    (a.year == b.year && a.month == b.month && a.day == b.day &&
     a.hour * 3600 + a.minute * 60 + a.second < b.hour * 3600 + b.minute * 60 + b.second)
  }

  lemma {:induction false} MonthsFollow(y: int, m: nat, n: nat)
    requires 1 <= m < n <= 13
    ensures MonthStart(y, m) + MonthLength(y, m) <= MonthStart(y, n)
    decreases n
  {
    if m + 1 < n {
      MonthsFollow(y, m, n - 1);
    }
  }

  lemma MonthsFillYear(y: int)
    ensures MonthStart(y, 13) == YearLength(y)
  {
    MonthStarts(y, 12);
  }

  lemma {:induction false} YearsFollow(y: int, z: int)
    requires y < z
    ensures YearStart(y) + YearLength(y) <= YearStart(z)
    decreases z - y
  {
    YearStartIs(y);
    YearStartIs(z);
    LeapsStep(y);
    if y + 1 < z {
      YearsFollow(y + 1, z);
      YearStartIs(y + 1);
    }
  }

  lemma DatesFollow(a: DateTime, b: DateTime)
    requires ValidTime(a) && ValidTime(b) && EarlierDate(a, b)
    ensures DaysFromCivil(a.year, a.month, a.day) < DaysFromCivil(b.year, b.month, b.day)
  {
    FormulaIsCount(a.year, a.month, a.day);
    FormulaIsCount(b.year, b.month, b.day);
    if a.year < b.year {
      MonthsFollow(a.year, a.month, 13);
      MonthsFillYear(a.year);
      YearsFollow(a.year, b.year);
    } else if a.month < b.month {
      MonthsFollow(a.year, a.month, b.month);
    }
  }

  /** Later times get larger numbers. */
  lemma ToUnixIncreases(a: DateTime, b: DateTime)
    requires ValidTime(a) && ValidTime(b) && Earlier(a, b)
    ensures ToUnix(a) < ToUnix(b)
  {
    if EarlierDate(a, b) {
      DatesFollow(a, b);
      hide DaysFromCivil;
    }
  }

  /** Unix time is counted: days since the epoch, then seconds since midnight. */
  lemma ToUnixCounts(t: DateTime)
    requires ValidTime(t)
    ensures ToUnix(t) == 86400 * CountedDays(t.year, t.month, t.day) + 3600 * t.hour + 60 * t.minute + t.second
  {
    FormulaIsCount(t.year, t.month, t.day);
  }

  /** The second after, which may be the first of another day, month or year. */
  function Tick(t: DateTime): DateTime {
    if t.second < 59 then t.(second := t.second + 1)
    else if t.minute < 59 then t.(minute := t.minute + 1, second := 0)
    else if t.hour < 23 then t.(hour := t.hour + 1, minute := 0, second := 0)
    else if t.day < MonthLength(t.year, t.month) then DateTime(t.year, t.month, t.day + 1, 0, 0, 0)
    else if t.month < 12 then DateTime(t.year, t.month + 1, 1, 0, 0, 0)
    else DateTime(t.year + 1, 1, 1, 0, 0, 0)
  }

  /** The day after a valid date, in the count. */
  lemma NextDay(t: DateTime)
    requires ValidTime(t) && t.hour == 23 && t.minute == 59 && t.second == 59
    ensures ValidTime(Tick(t))
    ensures CountedDays(Tick(t).year, Tick(t).month, Tick(t).day) == CountedDays(t.year, t.month, t.day) + 1
  {
    hide IsLeap, YearStart;
    MonthsFillYear(t.year);
    NextYear(t.year);
  }

  lemma EpochIsZero()
    ensures ToUnix(DateTime(1970, 1, 1, 0, 0, 0)) == 0
  {
    ToUnixCounts(DateTime(1970, 1, 1, 0, 0, 0));
  }

  lemma SameDay(t: DateTime)
    requires ValidTime(t) && !(t.hour == 23 && t.minute == 59 && t.second == 59)
    ensures ValidTime(Tick(t)) && ToUnix(Tick(t)) == ToUnix(t) + 1
  {
    hide DaysFromCivil, MonthLength;
  }

  /** The epoch is zero, and each second adds one. */
  lemma ToUnixTicks(t: DateTime)
    requires ValidTime(t)
    ensures ToUnix(DateTime(1970, 1, 1, 0, 0, 0)) == 0
    ensures ValidTime(Tick(t)) && ToUnix(Tick(t)) == ToUnix(t) + 1
  {
    hide DaysFromCivil, CountedDays, MonthLength, ToUnix;
    EpochIsZero();
    if t.hour == 23 && t.minute == 59 && t.second == 59 {
      NextDay(t);
      ToUnixCounts(t);
      ToUnixCounts(Tick(t));
    } else {
      SameDay(t);
    }
  }

  lemma NextYear(y: int)
    ensures YearStart(y + 1) == YearStart(y) + YearLength(y)
  {
    YearStartIs(y);
    YearStartIs(y + 1);
    LeapsStep(y);
  }
}
