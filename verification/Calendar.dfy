/** The calendar arithmetic of the real-time clock: civil dates to days and seconds since 1970-01-01. */
module Calendar {
  import opened Arithmetic
  import opened Errors

  const DAYS_PER_ERA := 146_097
  const CIVIL_EPOCH_OFFSET := 719_468
  const SECONDS_PER_DAY := 86_400

  /** The quotient of C++, which is cut toward zero. */
  function CutQuotient(a: int, b: int): int
    requires b > 0
  {
    if a >= 0 then a / b else -(-a / b)
  }

  predicate IsLeapYear(year: int) {
    year % 4 == 0 && (year % 100 != 0 || year % 400 == 0)
  }

  function DaysInMonth(year: int, month: int): int {
    if month == 2 then (if IsLeapYear(year) then 29 else 28)
    else if month == 4 || month == 6 || month == 9 || month == 11 then 30
    else 31
  }

  datatype Date = Date(year: int, month: int, day: int)

  predicate IsValid(date: Date) {
    1 <= date.month <= 12 && 1 <= date.day <= DaysInMonth(date.year, date.month)
  }

  /** `days_from_civil`. */
  function DaysFromCivil(date: Date): int {
    var year := if date.month <= 2 then date.year - 1 else date.year;
    var era := CutQuotient(if year >= 0 then year else year - 399, 400);
    var yearOfEra := year - era * 400;
    var adjustedMonth := date.month + if date.month > 2 then -3 else 9;
    var dayOfYear := (153 * adjustedMonth + 2) / 5 + date.day - 1;
    var dayOfEra := yearOfEra * 365 + yearOfEra / 4 - yearOfEra / 100 + dayOfYear;
    era * DAYS_PER_ERA + dayOfEra - CIVIL_EPOCH_OFFSET
  }

  // ----- The calendar itself -----

  function NextDay(date: Date): Date {
    if date.day < DaysInMonth(date.year, date.month) then date.(day := date.day + 1)
    else if date.month < 12 then Date(date.year, date.month + 1, 1)
    else Date(date.year + 1, 1, 1)
  }

  function PreviousDay(date: Date): Date {
    if date.day > 1 then date.(day := date.day - 1)
    else if date.month > 1 then Date(date.year, date.month - 1, DaysInMonth(date.year, date.month - 1))
    else Date(date.year - 1, 12, 31)
  }

  const EPOCH := Date(1970, 1, 1)

  /** The date `n` days after 1970-01-01, or before it, found by counting single days. */
  function DateAt(n: int): Date
    decreases if n >= 0 then n else -n
  {
    if n == 0 then EPOCH else if n > 0 then NextDay(DateAt(n - 1)) else PreviousDay(DateAt(n + 1))
  }

  predicate IsBefore(a: Date, b: Date) {
    a.year < b.year || (a.year == b.year && (a.month < b.month || (a.month == b.month && a.day < b.day)))
  }

  lemma NeighbouringDays(date: Date)
    requires IsValid(date)
    ensures IsValid(NextDay(date)) && PreviousDay(NextDay(date)) == date
    ensures IsValid(PreviousDay(date)) && NextDay(PreviousDay(date)) == date
    ensures IsBefore(date, NextDay(date)) && IsBefore(PreviousDay(date), date)
  {}

  // ----- The computation against the calendar -----

  /** The days before the first of March of a year, counted from a fixed day. */
  function MarchDays(year: int): int {
    365 * year + year / 4 - year / 100 + year / 400
  }

  /** Eras of 400 years that are cut toward zero with a correction are rounded down, and era and year of the
      era together count as the year does. */
  lemma ErasCount(year: int)
    ensures var era := CutQuotient(if year >= 0 then year else year - 399, 400);
            var yearOfEra := year - era * 400;
            && 0 <= yearOfEra < 400
            && era * DAYS_PER_ERA + yearOfEra * 365 + yearOfEra / 4 - yearOfEra / 100 == MarchDays(year)
  {
    var era := CutQuotient(if year >= 0 then year else year - 399, 400);
    assert era == year / 400;
    var yearOfEra := year - era * 400;
    assert year / 4 == era * 100 + yearOfEra / 4;
    assert year / 100 == era * 4 + yearOfEra / 100;
  }

  function MarchYear(date: Date): int {
    if date.month <= 2 then date.year - 1 else date.year
  }

  function DayOfMarchYear(date: Date): int {
    (153 * (if date.month > 2 then date.month - 3 else date.month + 9) + 2) / 5 + date.day - 1
  }

  lemma DaysFromMarch(date: Date)
    ensures DaysFromCivil(date) == MarchDays(MarchYear(date)) + DayOfMarchYear(date) - CIVIL_EPOCH_OFFSET
  {
    ErasCount(MarchYear(date));
  }

  /** A year of March to February has 366 days exactly when its February is one of a leap year. */
  lemma MarchYearLength(year: int)
    ensures MarchDays(year + 1) - MarchDays(year) == if IsLeapYear(year + 1) then 366 else 365
  {
    DivCounts(year, 4);
    DivCounts(year, 100);
    DivCounts(year, 400);
    LeapMultiples(year + 1);
  }

  lemma LeapMultiples(year: int)
    ensures year % 100 == 0 ==> year % 4 == 0
    ensures year % 400 == 0 ==> year % 100 == 0
  {
    assert year % 100 == 0 ==> year == 4 * (25 * (year / 100));
    assert year % 400 == 0 ==> year == 100 * (4 * (year / 400));
  }

  /** For every valid date in any year, the next day has the next number. */
  lemma NextDayCounts(date: Date)
    requires IsValid(date)
    ensures DaysFromCivil(NextDay(date)) == DaysFromCivil(date) + 1
  {
    DaysFromMarch(date);
    DaysFromMarch(NextDay(date));
    MarchYearLength(MarchYear(date));
    hide DaysFromCivil, MarchDays;
  }

  lemma EpochIsZero()
    ensures IsValid(EPOCH) && DaysFromCivil(EPOCH) == 0
  {}

  /** The number of a date is the one found by counting day by day from 1970-01-01, in both directions, and every
      date is found by counting. */
  lemma {:induction false} CountingDays(n: int)
    ensures IsValid(DateAt(n)) && DaysFromCivil(DateAt(n)) == n
    decreases if n >= 0 then n else -n
  {
    hide IsValid, NextDay, PreviousDay, DaysFromCivil;
    EpochIsZero();
    if n > 0 {
      CountingDays(n - 1);
      NeighbouringDays(DateAt(n - 1));
      NextDayCounts(DateAt(n - 1));
    } else if n < 0 {
      CountingDays(n + 1);
      NeighbouringDays(DateAt(n + 1));
      NextDayCounts(PreviousDay(DateAt(n + 1)));
    }
  }

  lemma MarchDaysGrow(a: int, b: int)
    requires a <= b
    ensures MarchDays(a) <= MarchDays(b)
  {}

  /** Numbers are ordered as dates are. */
  lemma DaysAreOrdered(a: Date, b: Date)
    requires IsValid(a) && IsValid(b)
    ensures DaysFromCivil(a) < DaysFromCivil(b) <==> IsBefore(a, b)
    ensures DaysFromCivil(a) == DaysFromCivil(b) <==> a == b
  {
    if IsBefore(a, b) {
      EarlierIsLess(a, b);
    } else if a != b {
      EarlierIsLess(b, a);
    }
  }

  lemma EarlierIsLess(a: Date, b: Date)
    requires IsValid(a) && IsValid(b) && IsBefore(a, b)
    ensures DaysFromCivil(a) < DaysFromCivil(b)
  {
    DaysFromMarch(a);
    DaysFromMarch(b);
    if MarchYear(a) < MarchYear(b) {
      DayOfMarchYearInRange(a);
      DayOfMarchYearInRange(b);
      MarchYearLength(MarchYear(a));
      MarchDaysGrow(MarchYear(a) + 1, MarchYear(b));
      hide DaysFromCivil, MarchDays, DayOfMarchYear, IsLeapYear;
    } else {
      hide DaysFromCivil, MarchDays;
      SameMarchYear(a, b);
    }
  }

  lemma DayOfMarchYearInRange(date: Date)
    requires IsValid(date)
    ensures 0 <= DayOfMarchYear(date) < if IsLeapYear(MarchYear(date) + 1) then 366 else 365
  {}

  lemma SameMarchYear(a: Date, b: Date)
    requires IsValid(a) && IsValid(b) && IsBefore(a, b) && MarchYear(a) >= MarchYear(b)
    ensures MarchYear(a) == MarchYear(b) && DayOfMarchYear(a) < DayOfMarchYear(b)
  {
    hide IsLeapYear;
  }

  /** Every valid date is the one that counting finds under its number. */
  lemma EveryDateIsCounted(date: Date)
    requires IsValid(date)
    ensures DateAt(DaysFromCivil(date)) == date
  {
    CountingDays(DaysFromCivil(date));
    DaysAreOrdered(DateAt(DaysFromCivil(date)), date);
  }

  lemma KnownDates()
    ensures DaysFromCivil(Date(1970, 1, 1)) == 0
    ensures DaysFromCivil(Date(2000, 1, 1)) == 10_957 && DaysFromCivil(Date(2000, 2, 29)) == 11_016
  {
    DaysFromMarch(Date(1970, 1, 1));
    DaysFromMarch(Date(2000, 1, 1));
    DaysFromMarch(Date(2000, 2, 29));
    hide DaysFromCivil;
  }

  /** The rule of the Gregorian calendar. */
  lemma YearLength(year: int)
    ensures DaysFromCivil(Date(year + 1, 1, 1)) - DaysFromCivil(Date(year, 1, 1)) ==
            if year % 4 == 0 && (year % 100 != 0 || year % 400 == 0) then 366 else 365
  {
    DaysFromMarch(Date(year + 1, 1, 1));
    DaysFromMarch(Date(year, 1, 1));
    MarchYearLength(year - 1);
    hide DaysFromCivil, MarchDays;
  }

  // ----- Timestamps -----

  /** What the two hardware reads give. `subSeconds` counts down from `fraction`. */
  datatype Reading = Reading(year: int, month: int, day: int, hours: int, minutes: int, seconds: int,
                             subSeconds: nat, fraction: nat)

  datatype Timestamp = Timestamp(seconds: int, nanoseconds: int)

  /** The date and time of `getTime`; a reading outside its ranges is an error. */
  function GetTime(reading: Reading): Option<Timestamp> {
    var year := 2000 + reading.year;
    if reading.month < 1 || reading.month > 12 || reading.day < 1 || reading.day > DaysInMonth(year, reading.month) ||
       reading.hours >= 24 || reading.minutes >= 60 || reading.seconds >= 60 || reading.subSeconds > reading.fraction
    then None
    else
      var seconds := DaysFromCivil(Date(year, reading.month, reading.day)) * SECONDS_PER_DAY +
                     reading.hours * 3600 + reading.minutes * 60 + reading.seconds;
      Some(Timestamp(seconds, SubSecond(reading.subSeconds, reading.fraction)))
  }

  function SubSecond(subSeconds: nat, fraction: nat): int {
    (fraction - subSeconds) * 1_000_000_000 / (fraction + 1)
  }

  /** The fields of the hardware are unsigned. */
  predicate IsUnsigned(r: Reading) {
    r.year >= 0 && r.month >= 0 && r.day >= 0 && r.hours >= 0 && r.minutes >= 0 && r.seconds >= 0
  }

  predicate IsEarlier(a: Reading, b: Reading) {
    var first, second := Date(a.year, a.month, a.day), Date(b.year, b.month, b.day);
    IsBefore(first, second) ||
    (first == second &&
     (a.hours < b.hours || (a.hours == b.hours &&
      (a.minutes < b.minutes || (a.minutes == b.minutes && a.seconds < b.seconds)))))
  }

  /** Seconds strictly increase in calendar order, and only so; nanoseconds are in range. */
  lemma TimeIsOrdered(a: Reading, b: Reading)
    requires IsUnsigned(a) && IsUnsigned(b) && GetTime(a).Some? && GetTime(b).Some?
    ensures GetTime(a).value.seconds < GetTime(b).value.seconds <==> IsEarlier(a, b)
    ensures 0 <= GetTime(a).value.nanoseconds < 1_000_000_000
  {
    var first, second := Date(2000 + a.year, a.month, a.day), Date(2000 + b.year, b.month, b.day);
    DaysAreOrdered(first, second);
    DaysAreOrdered(second, first);
    FractionIsLess(a.fraction - a.subSeconds, 1_000_000_000, a.fraction + 1);
    hide DaysFromCivil, DaysInMonth;
  }

  /** The reading one second later, at the same sub-second count. */
  function NextSecond(r: Reading): Reading {
    if r.seconds < 59 then r.(seconds := r.seconds + 1)
    else if r.minutes < 59 then r.(minutes := r.minutes + 1, seconds := 0)
    else if r.hours < 23 then r.(hours := r.hours + 1, minutes := 0, seconds := 0)
    else
      var date := NextDay(Date(2000 + r.year, r.month, r.day));
      r.(year := date.year - 2000, month := date.month, day := date.day, hours := 0, minutes := 0, seconds := 0)
  }

  lemma ReadingMeans(r: Reading, date: Date)
    requires date == Date(2000 + r.year, r.month, r.day)
    ensures GetTime(r) ==
            if IsValid(date) && r.hours < 24 && r.minutes < 60 && r.seconds < 60 && r.subSeconds <= r.fraction
            then Some(Timestamp(DaysFromCivil(date) * 86_400 + r.hours * 3600 + r.minutes * 60 + r.seconds,
                                SubSecond(r.subSeconds, r.fraction)))
            else None
  {
    hide DaysFromCivil, SubSecond, DaysInMonth;
  }

  /** The seconds are counted one by one, over minutes, hours, days, months and years. */
  lemma NextSecondCounts(r: Reading)
    requires GetTime(r).Some?
    ensures GetTime(NextSecond(r)) == Some(GetTime(r).value.(seconds := GetTime(r).value.seconds + 1))
  {
    var date := Date(2000 + r.year, r.month, r.day);
    ReadingMeans(r, date);
    hide GetTime, DaysFromCivil, SubSecond, IsValid, NextDay;
    if r.seconds >= 59 && r.minutes >= 59 && r.hours >= 23 {
      Midnight(r, date);
    } else {
      ReadingMeans(NextSecond(r), date);
    }
  }

  lemma Midnight(r: Reading, date: Date)
    requires date == Date(2000 + r.year, r.month, r.day) && GetTime(r).Some?
    requires r.seconds >= 59 && r.minutes >= 59 && r.hours >= 23
    ensures GetTime(NextSecond(r)) == Some(GetTime(r).value.(seconds := GetTime(r).value.seconds + 1))
  {
    ReadingMeans(r, date);
    ReadingMeans(NextSecond(r), NextDay(date));
    NextDayCounts(date);
    NeighbouringDays(date);
    hide GetTime, DaysFromCivil, SubSecond, IsValid, NextDay;
  }

  /** And they begin at the epoch of POSIX: the year 2000 began at 946684800. */
  lemma YearTwoThousand()
    ensures GetTime(Reading(0, 1, 1, 0, 0, 0, 0, 0)) == Some(Timestamp(946_684_800, 0))
  {
    KnownDates();
    hide DaysFromCivil;
  }

  /** A reading is refused exactly when a field is out of its range, and the sub-second part is rounded down. */
  lemma ReadingsAreChecked(r: Reading)
    ensures GetTime(r).Some? <==>
            && IsValid(Date(2000 + r.year, r.month, r.day)) && r.hours < 24 && r.minutes < 60 && r.seconds < 60
            && r.subSeconds <= r.fraction
    ensures GetTime(r).Some? ==>
              var n := GetTime(r).value.nanoseconds;
              n * (r.fraction + 1) <= (r.fraction - r.subSeconds) * 1_000_000_000 < (n + 1) * (r.fraction + 1)
  {
    if r.subSeconds <= r.fraction {
      DivModOf((r.fraction - r.subSeconds) * 1_000_000_000, r.fraction + 1);
      var n := (r.fraction - r.subSeconds) * 1_000_000_000 / (r.fraction + 1);
      assert (n + 1) * (r.fraction + 1) == n * (r.fraction + 1) + (r.fraction + 1);
    }
    hide DaysFromCivil;
  }

  /** Within a second, nanoseconds do not decrease as the sub-second counter counts down. */
  lemma SubSecondsAreOrdered(a: Reading, b: Reading)
    requires GetTime(a).Some? && GetTime(b).Some?
    requires a.fraction == b.fraction && a.subSeconds >= b.subSeconds
    ensures GetTime(a).value.nanoseconds <= GetTime(b).value.nanoseconds
  {
    DivMonotone((a.fraction - a.subSeconds) * 1_000_000_000, (b.fraction - b.subSeconds) * 1_000_000_000,
                a.fraction + 1);
  }
}
