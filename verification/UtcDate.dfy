/**
  The civil-from-days computation behind the signature date of the Tencent
  VPC client, against the proleptic Gregorian calendar.
 */
module UtcDate {

  datatype Date = Date(year: int, month: int, day: int)

  const SECONDS_PER_DAY := 86_400

  /** The computation as coded: eras of 400 years that start on 1 March, years that start in March. */
  function UtcDate(timestamp: int): Date {
    var z := timestamp / 86_400 + 719_468;
    var era := z / 146_097;
    var doe := z % 146_097;
    var yoe := YearOfEra(doe);
    var doy := doe - (365 * yoe + yoe / 4 - yoe / 100);
    var mp := (5 * doy + 2) / 153;
    var day := doy - (153 * mp + 2) / 5 + 1;
    var month := if mp < 10 then mp + 3 else mp - 9;
    var year := era * 400 + yoe + (if month <= 2 then 1 else 0);
    Date(year, month, day)
  }

  function YearOfEra(doe: int): int {
    (doe - doe / 1_460 + doe / 36_524 - doe / 146_096) / 365
  }

  // ----- the calendar -----

  predicate IsLeap(year: int) {
    year % 4 == 0 && (year % 100 != 0 || year % 400 == 0)
  }

  function DaysInMonth(year: int, month: int): int {
    if month == 2 then (if IsLeap(year) then 29 else 28)
    else if month == 4 || month == 6 || month == 9 || month == 11 then 30
    else 31
  }

  predicate ValidDate(d: Date) {
    1 <= d.month <= 12 && 1 <= d.day <= DaysInMonth(d.year, d.month)
  }

  function Successor(d: Date): Date {
    if d.day < DaysInMonth(d.year, d.month) then Date(d.year, d.month, d.day + 1)
    else if d.month < 12 then Date(d.year, d.month + 1, 1)
    else Date(d.year + 1, 1, 1)
  }

  // ----- the March-based year inside an era -----

  /** Days before year `n` of an era. */
  function EraDays(n: int): int {
    365 * n + n / 4 - n / 100 + n / 400
  }

  /** Whether year `n` of an era, which ends in February, has 366 days. */
  predicate LongYear(n: int) {
    (n + 1) % 4 == 0 && ((n + 1) % 100 != 0 || (n + 1) % 400 == 0)
  }

  lemma EraDaysStep(n: int)
    ensures EraDays(n + 1) == EraDays(n) + (if LongYear(n) then 366 else 365)
  {
    DivStep(n, 4);
    DivStep(n, 100);
    DivStep(n, 400);
    assert (n + 1) % 400 == 0 ==> (n + 1) % 100 == 0;
    assert (n + 1) % 100 == 0 ==> (n + 1) % 4 == 0;
  }

  lemma DivStep(n: int, k: int)
    requires k == 4 || k == 100 || k == 400
    ensures (n + 1) / k == n / k + (if (n + 1) % k == 0 then 1 else 0)
  {
  }

  /**
    A day of an era other than its last, split into century `c`, four-year
    cycle `q`, year `s` of the cycle and day `u` of the year, puts the year
    number and the nested divisions side by side.
   */
  lemma YearOfEraSplit(doe: int, c: int, q: int, s: int, u: int)
    requires 0 <= c < 4 && 0 <= q < 25 && 0 <= s < 4
    requires 0 <= u < 365 || (u == 365 && s == 3 && q < 24)
    requires doe == 36_524 * c + 1_461 * q + 365 * s + u
    ensures YearOfEra(doe) == 100 * c + 4 * q + s
    ensures EraDays(100 * c + 4 * q + s) == doe - u
    ensures doe < EraDays(100 * c + 4 * q + s + 1)
  {
    var n := 100 * c + 4 * q + s;
    SplitYear(c, q, s);
    SplitDivisions(doe, c, q, s, u);
    EraDaysStep(n);
    assert YearOfEra(doe) == n by {
      var late := if 24 * c + q + 365 * s + u >= 1_460 then 1 else 0;
      assert doe - doe / 1_460 + doe / 36_524 - doe / 146_096 == 365 * n + (u - late);
      assert 0 <= u - late < 365;
    }
    hide YearOfEra, EraDays, LongYear;
  }

  lemma SplitYear(c: int, q: int, s: int)
    requires 0 <= c < 4 && 0 <= q < 25 && 0 <= s < 4
    ensures EraDays(100 * c + 4 * q + s) == 36_524 * c + 1_461 * q + 365 * s
    ensures s == 3 && q < 24 ==> LongYear(100 * c + 4 * q + s)
  {
    var n := 100 * c + 4 * q + s;
    assert n / 4 == 25 * c + q && n / 100 == c && n / 400 == 0;
  }

  lemma SplitDivisions(doe: int, c: int, q: int, s: int, u: int)
    requires 0 <= c < 4 && 0 <= q < 25 && 0 <= s < 4
    requires 0 <= u < 365 || (u == 365 && s == 3 && q < 24)
    requires doe == 36_524 * c + 1_461 * q + 365 * s + u
    ensures doe / 1_460 == 25 * c + q + (if 24 * c + q + 365 * s + u >= 1_460 then 1 else 0)
    ensures doe / 36_524 == c && doe / 146_096 == 0
  {
    assert doe == 1_460 * (25 * c + q) + (24 * c + q + 365 * s + u);
    assert 1_461 * q + 365 * s + u < 36_524;
  }

  lemma SplitDay(doe: int) returns (c: int, q: int, s: int, u: int)
    requires 0 <= doe < 146_096
    ensures 0 <= c < 4 && 0 <= q < 25 && 0 <= s < 4
    ensures 0 <= u < 365 || (u == 365 && s == 3 && q < 24)
    ensures doe == 36_524 * c + 1_461 * q + 365 * s + u
  {
    c := doe / 36_524;
    var r := doe - 36_524 * c;
    assert 0 <= r < 36_524;
    q := r / 1_461;
    var t := r - 1_461 * q;
    assert 0 <= t < 1_461;
    s := if t == 1_460 then 3 else t / 365;
    u := t - 365 * s;
  }

  /** The nested divisions find the year that holds day `doe` of the era. */
  lemma YearOfEraCorrect(doe: int)
    requires 0 <= doe <= 146_096
    ensures 0 <= YearOfEra(doe) <= 399
    ensures EraDays(YearOfEra(doe)) <= doe < EraDays(YearOfEra(doe) + 1)
  {
    if doe == 146_096 {
      LastDayOfEra();
    } else {
      hide YearOfEra, EraDays;
      var c, q, s, u := SplitDay(doe);
      YearOfEraSplit(doe, c, q, s, u);
    }
  }

  lemma LastDayOfEra()
    ensures YearOfEra(146_096) == 399 && EraDays(399) <= 146_096 < EraDays(400)
  {
  }

  lemma EraDaysMonotonic(m: int, n: int)
    requires m <= n
    ensures EraDays(m) <= EraDays(n)
    decreases n - m
  {
    if m < n {
      EraDaysStep(n - 1);
      EraDaysMonotonic(m, n - 1);
    }
  }

  /** Only one year of the era holds a given day. */
  lemma YearOfEraUnique(doe: int, n: int)
    requires 0 <= doe <= 146_096 && EraDays(n) <= doe < EraDays(n + 1)
    ensures YearOfEra(doe) == n
  {
    YearOfEraCorrect(doe);
    if YearOfEra(doe) < n {
      EraDaysMonotonic(YearOfEra(doe) + 1, n);
    } else if n < YearOfEra(doe) {
      EraDaysMonotonic(n + 1, YearOfEra(doe));
    }
  }

  // ----- from a March-based year and day to a civil date -----

  /** The tail of `UtcDate`: March-based year `y` and day `doy` of it, as a date. */
  function Civil(y: int, doy: int): Date {
    var mp := (5 * doy + 2) / 153;
    var month := if mp < 10 then mp + 3 else mp - 9;
    Date(y + (if month <= 2 then 1 else 0), month, doy - (153 * mp + 2) / 5 + 1)
  }

  lemma CivilValid(y: int, doy: int)
    requires 0 <= doy < 365 || (doy == 365 && IsLeap(y + 1))
    ensures ValidDate(Civil(y, doy))
  {
    var mp := (5 * doy + 2) / 153;
    assert 0 <= mp <= 11;
  }

  lemma CivilStep(y: int, doy: int)
    requires 0 <= doy < 364 || (doy == 364 && IsLeap(y + 1))
    ensures Civil(y, doy + 1) == Successor(Civil(y, doy))
  {
    var mp := (5 * doy + 2) / 153;
    assert 0 <= mp <= 11;
  }

  lemma CivilYearEnd(y: int, doy: int)
    requires doy == if IsLeap(y + 1) then 365 else 364
    ensures Civil(y + 1, 0) == Successor(Civil(y, doy))
  {
  }

  /** Day `z` counted from 1 March of year 0: the March-based year it falls in. */
  function MarchYear(z: int): int {
    z / 146_097 * 400 + YearOfEra(z % 146_097)
  }

  /** Day `z` counted from 1 March of year 0: the day of its March-based year. */
  function MarchDay(z: int): int {
    z % 146_097 - EraDays(YearOfEra(z % 146_097))
  }

  function DateOfDay(z: int): Date {
    Civil(MarchYear(z), MarchDay(z))
  }

  lemma UtcDateIsDateOfDay(timestamp: int)
    ensures UtcDate(timestamp) == DateOfDay(timestamp / 86_400 + 719_468)
  {
    var z := timestamp / 86_400 + 719_468;
    YearOfEraCorrect(z % 146_097);
    assert YearOfEra(z % 146_097) / 400 == 0;
  }

  lemma MarchDayInYear(z: int)
    ensures 0 <= MarchDay(z) < (if IsLeap(MarchYear(z) + 1) then 366 else 365)
  {
    var yoe := YearOfEra(z % 146_097);
    YearOfEraCorrect(z % 146_097);
    EraDaysStep(yoe);
    LeapInEra(z / 146_097, yoe);
  }

  /** The next day is the next day of the same year, or day 0 of the next one. */
  lemma MarchStep(z: int)
    ensures var last := MarchDay(z) == (if IsLeap(MarchYear(z) + 1) then 365 else 364);
      MarchYear(z + 1) == MarchYear(z) + (if last then 1 else 0)
      && MarchDay(z + 1) == (if last then 0 else MarchDay(z) + 1)
  {
    hide YearOfEra, EraDays, IsLeap, LongYear;
    var era, doe := z / 146_097, z % 146_097;
    var yoe := YearOfEra(doe);
    EraStep(z);
    LeapInEra(era, yoe);
    EraDaysStep(yoe);
    NextInEra(doe);
    var long := IsLeap(MarchYear(z) + 1);
    assert long == LongYear(yoe);
    if doe == 146_096 {
      assert MarchDay(z) == if long then 365 else 364;
      assert MarchYear(z + 1) == MarchYear(z) + 1 && MarchDay(z + 1) == 0;
    } else if doe + 1 < EraDays(yoe + 1) {
      assert MarchYear(z + 1) == MarchYear(z) && MarchDay(z + 1) == MarchDay(z) + 1;
    } else {
      assert MarchYear(z + 1) == MarchYear(z) + 1 && MarchDay(z + 1) == 0;
    }
  }

  lemma EraStep(z: int)
    ensures if z % 146_097 == 146_096 then (z + 1) % 146_097 == 0 && (z + 1) / 146_097 == z / 146_097 + 1
            else (z + 1) % 146_097 == z % 146_097 + 1 && (z + 1) / 146_097 == z / 146_097
  {
  }

  /** The year of the next day of the era: the last day of the era ends year 399. */
  lemma NextInEra(doe: int)
    requires 0 <= doe <= 146_096
    ensures var yoe := YearOfEra(doe);
      && EraDays(yoe) <= doe < EraDays(yoe + 1)
      && (doe == 146_096 ==> yoe == 399 && EraDays(400) == 146_097)
      && (doe < 146_096 ==> YearOfEra(doe + 1) == if doe + 1 < EraDays(yoe + 1) then yoe else yoe + 1)
    ensures YearOfEra(0) == 0 && EraDays(0) == 0
  {
    var yoe := YearOfEra(doe);
    YearOfEraCorrect(doe);
    EraDaysStep(yoe);
    if doe < 146_096 {
      if doe + 1 < EraDays(yoe + 1) {
        YearOfEraUnique(doe + 1, yoe);
      } else {
        EraDaysStep(yoe + 1);
        YearOfEraUnique(doe + 1, yoe + 1);
      }
    }
  }

  lemma LeapInEra(era: int, n: int)
    ensures IsLeap(era * 400 + n + 1) <==> LongYear(n)
  {
    ModShift(n + 1, era * 100, 4);
    ModShift(n + 1, era * 4, 100);
    ModShift(n + 1, era, 400);
  }

  lemma ModShift(x: int, e: int, k: int)
    requires k == 4 || k == 100 || k == 400
    ensures (e * k + x) % k == x % k
  {
  }

  lemma DateOfDayValid(z: int)
    ensures ValidDate(DateOfDay(z))
  {
    MarchDayInYear(z);
    CivilValid(MarchYear(z), MarchDay(z));
  }

  lemma DateOfDayStep(z: int)
    ensures DateOfDay(z + 1) == Successor(DateOfDay(z))
  {
    hide MarchDay, MarchYear, Civil, Successor, IsLeap;
    MarchDayInYear(z);
    MarchStep(z);
    if MarchDay(z) == (if IsLeap(MarchYear(z) + 1) then 365 else 364) {
      CivilYearEnd(MarchYear(z), MarchDay(z));
    } else {
      CivilStep(MarchYear(z), MarchDay(z));
    }
  }

  lemma FirstDay()
    ensures DateOfDay(719_468) == Date(1970, 1, 1)
  {
    assert 719_468 % 146_097 == 135_080 && 719_468 / 146_097 == 4;
    assert YearOfEra(135_080) == 369;
    assert MarchDay(719_468) == 306 && MarchYear(719_468) == 1969;
  }

  // ----- main results -----

  /** Every timestamp yields a date of the calendar. */
  lemma UtcDateValid(timestamp: int)
    ensures ValidDate(UtcDate(timestamp))
  {
    UtcDateIsDateOfDay(timestamp);
    DateOfDayValid(timestamp / 86_400 + 719_468);
  }

  lemma Epoch(timestamp: int)
    requires 0 <= timestamp < SECONDS_PER_DAY
    ensures UtcDate(timestamp) == Date(1970, 1, 1)
  {
    hide UtcDate, DateOfDay;
    UtcDateIsDateOfDay(timestamp);
    FirstDay();
    assert timestamp / 86_400 == 0;
  }

  /** One day later is the calendar successor, for every timestamp. */
  lemma NextDay(timestamp: int)
    ensures UtcDate(timestamp + SECONDS_PER_DAY) == Successor(UtcDate(timestamp))
  {
    hide UtcDate, DateOfDay, Successor;
    UtcDateIsDateOfDay(timestamp);
    UtcDateIsDateOfDay(timestamp + SECONDS_PER_DAY);
    assert (timestamp + SECONDS_PER_DAY) / 86_400 == timestamp / 86_400 + 1;
    DateOfDayStep(timestamp / 86_400 + 719_468);
  }

  // ----- the day count -----

  function DaysBeforeMonth(year: int, month: int): int
    requires 1 <= month
    decreases month
  {
    if month == 1 then 0 else DaysBeforeMonth(year, month - 1) + DaysInMonth(year, month - 1)
  }

  /** Days from 1970-01-01: whole years, whole months, days. */
  function DayNumber(d: Date): int
    requires 1 <= d.month
  {
    EraDays(d.year - 1) + DaysBeforeMonth(d.year, d.month) + d.day - 1 - 719_162
  }

  lemma YearLength(year: int)
    ensures EraDays(year) == EraDays(year - 1) + DaysBeforeMonth(year, 12) + DaysInMonth(year, 12)
  {
    EraDaysStep(year - 1);
    DaysBeforeDecember(year);
  }

  lemma {:induction false} DaysBeforeDecember(year: int)
    ensures DaysBeforeMonth(year, 12) == if IsLeap(year) then 335 else 334
  {
    assert DaysBeforeMonth(year, 3) == 31 + DaysInMonth(year, 2);
    assert DaysBeforeMonth(year, 6) == DaysBeforeMonth(year, 3) + 92;
    assert DaysBeforeMonth(year, 9) == DaysBeforeMonth(year, 6) + 92;
  }

  lemma SuccessorCountsOne(d: Date)
    requires ValidDate(d)
    ensures ValidDate(Successor(d))
    ensures DayNumber(Successor(d)) == DayNumber(d) + 1
  {
    if d.day == DaysInMonth(d.year, d.month) && d.month == 12 {
      YearLength(d.year);
    }
  }

  lemma EpochIsDayZero()
    ensures DayNumber(Date(1970, 1, 1)) == 0
  {
    assert EraDays(1969) == 719_162;
  }

  lemma {:induction false} DayNumberOfDay(z: int)
    ensures ValidDate(DateOfDay(z))
    ensures DayNumber(DateOfDay(z)) == z - 719_468
    decreases if z < 719_468 then 719_468 - z else z - 719_468
  {
    hide DateOfDay, Successor, DayNumber, ValidDate;
    DateOfDayValid(z);
    if z == 719_468 {
      FirstDay();
      EpochIsDayZero();
    } else if z > 719_468 {
      DayNumberOfDay(z - 1);
      DateOfDayStep(z - 1);
      SuccessorCountsOne(DateOfDay(z - 1));
    } else {
      DayNumberOfDay(z + 1);
      DateOfDayStep(z);
      SuccessorCountsOne(DateOfDay(z));
    }
  }

  /** The day number of the date is the number of whole days in the timestamp, for every timestamp. */
  lemma DayNumberOfUtcDate(timestamp: int)
    ensures ValidDate(UtcDate(timestamp))
    ensures DayNumber(UtcDate(timestamp)) == timestamp / SECONDS_PER_DAY
  {
    UtcDateIsDateOfDay(timestamp);
    DayNumberOfDay(timestamp / 86_400 + 719_468);
  }

  lemma {:induction false} MonthsMonotonic(year: int, m: int, n: int)
    requires 1 <= m <= n
    ensures DaysBeforeMonth(year, m) <= DaysBeforeMonth(year, n)
    decreases n
  {
    if m < n {
      MonthsMonotonic(year, m, n - 1);
    }
  }

  lemma DayNumberInYear(d: Date)
    requires ValidDate(d)
    ensures EraDays(d.year - 1) <= DayNumber(d) + 719_162 < EraDays(d.year)
  {
    YearLength(d.year);
    MonthsMonotonic(d.year, 1, d.month);
    MonthsMonotonic(d.year, d.month + 1, 13);
  }

  /** Different valid dates have different day numbers. */
  lemma DayNumberInjective(d: Date, e: Date)
    requires ValidDate(d) && ValidDate(e) && DayNumber(d) == DayNumber(e)
    ensures d == e
  {
    hide EraDays, IsLeap;
    DayNumberInYear(d);
    DayNumberInYear(e);
    if d.year < e.year {
      EraDaysMonotonic(d.year, e.year - 1);
    } else if e.year < d.year {
      EraDaysMonotonic(e.year, d.year - 1);
    } else if d.month < e.month {
      MonthsMonotonic(d.year, d.month + 1, e.month);
    } else if e.month < d.month {
      MonthsMonotonic(d.year, e.month + 1, d.month);
    }
  }

  /** Every valid date is the date of its own day number, at any second of that day. */
  lemma UtcDateOfDayNumber(d: Date, second: int)
    requires ValidDate(d) && 0 <= second < SECONDS_PER_DAY
    ensures UtcDate(DayNumber(d) * SECONDS_PER_DAY + second) == d
  {
    DayNumberOfUtcDate(DayNumber(d) * SECONDS_PER_DAY + second);
    DayNumberInjective(UtcDate(DayNumber(d) * SECONDS_PER_DAY + second), d);
  }
}
