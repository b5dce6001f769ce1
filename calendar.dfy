/** The proleptic Gregorian calendar on day numbers: day 0 is 1970-01-01,
    the day an epoch-millisecond timestamp of 0 falls on in UTC. DayNumber
    counts days to a (year, month, day); FromDayNumber is its inverse,
    computed by 400-year cycles of 146097 days and a search for the year
    within a cycle and for the month within a year. */
module Calendar {

  const MsPerDay: int := 86400000
  /** Days in 400 Gregorian years. */
  const DaysPerCycle: int := 146097
  /** Day number of 2000-01-01, the first day of a 400-year cycle. */
  const DaysTo2000: int := 10957

  datatype Date = Date(year: int, month: int, day: int)

  predicate IsLeapYear(y: int)
  {
    y % 4 == 0 && (y % 100 != 0 || y % 400 == 0)
  }

  function DaysInYear(y: int): int
  {
    if IsLeapYear(y) then 366 else 365
  }

  function DaysInMonth(y: int, m: int): int
    requires 1 <= m <= 12
  {
    if m == 2 then (if IsLeapYear(y) then 29 else 28)
    else if m == 4 || m == 6 || m == 9 || m == 11 then 30
    else 31
  }

  /** Days of year y before the first of month m (m == 13: the whole year). */
  function DaysBeforeMonth(y: int, m: int): int
    requires 1 <= m <= 13
  {
    var leap := if IsLeapYear(y) then 1 else 0;
    if m == 1 then 0
    else if m == 2 then 31
    else if m == 3 then 59 + leap
    else if m == 4 then 90 + leap
    else if m == 5 then 120 + leap
    else if m == 6 then 151 + leap
    else if m == 7 then 181 + leap
    else if m == 8 then 212 + leap
    else if m == 9 then 243 + leap
    else if m == 10 then 273 + leap
    else if m == 11 then 304 + leap
    else if m == 12 then 334 + leap
    else 365 + leap
  }

  predicate ValidDate(d: Date)
  {
    1 <= d.month <= 12 && 1 <= d.day <= DaysInMonth(d.year, d.month)
  }

  lemma MonthTable(y: int, m: int)
    requires 1 <= m <= 12
    ensures DaysBeforeMonth(y, m + 1) == DaysBeforeMonth(y, m) + DaysInMonth(y, m)
    ensures 0 <= DaysBeforeMonth(y, m) && DaysBeforeMonth(y, 13) == DaysInYear(y)
  {
  }

  lemma DaysBeforeMonthMonotone(y: int, m1: int, m2: int)
    requires 1 <= m1 <= m2 <= 13
    ensures DaysBeforeMonth(y, m1) <= DaysBeforeMonth(y, m2)
  {
  }

  /** Days from the start of a 400-year cycle (its first year divisible by
      400) to the start of its year j: 365 per year plus one per leap year
      among the j years before, which are those at multiples of 4 except the
      multiples of 100 other than 0. */
  function CycleYearStart(j: int): int
    requires 0 <= j <= 400
  {
    365 * j + (j + 3) / 4 - (j + 99) / 100 + (j + 399) / 400
  }

  lemma CycleYearStep(j: int)
    requires 0 <= j < 400
    ensures CycleYearStart(j + 1) == CycleYearStart(j) + DaysInYear(j)
  {
    assert (j + 4) / 4 == (j + 3) / 4 + (if j % 4 == 0 then 1 else 0) by {
      var q, r := j / 4, j % 4;
      assert j + 4 == 4 * (q + 1) + r;
      assert j + 3 == if r == 0 then 4 * q + 3 else 4 * (q + 1) + (r - 1);
    }
    assert (j + 100) / 100 == (j + 99) / 100 + (if j % 100 == 0 then 1 else 0) by {
      var q, r := j / 100, j % 100;
      assert j + 100 == 100 * (q + 1) + r;
      assert j + 99 == if r == 0 then 100 * q + 99 else 100 * (q + 1) + (r - 1);
    }
    assert (j + 400) / 400 == (j + 399) / 400 + (if j == 0 then 1 else 0);
    assert j % 400 == j;
  }

  /** Shifting a year by whole 400-year cycles keeps its remainders by 4,
      100 and 400, which are what decide leap years. */
  lemma ShiftMod4(q: int, j: int)
    ensures (2000 + 400 * q + j) % 4 == j % 4
  {
    assert 2000 + 400 * q + j == 4 * (500 + 100 * q + j / 4) + j % 4;
  }

  lemma ShiftMod100(q: int, j: int)
    ensures (2000 + 400 * q + j) % 100 == j % 100
  {
    assert 2000 + 400 * q + j == 100 * (20 + 4 * q + j / 100) + j % 100;
  }

  lemma ShiftMod400(q: int, j: int)
    requires 0 <= j < 400
    ensures (2000 + 400 * q + j) % 400 == j
    ensures (400 * q + j) / 400 == q && (400 * q + j) % 400 == j
  {
    assert 2000 + 400 * q + j == 400 * (5 + q) + j;
  }

  /** Year y lies j years into the cycle that starts 400q years after 2000;
      it has the leap-ness of the cycle's year j. */
  lemma CycleAlign(y: int, q: int, j: int)
    requires 0 <= j < 400 && y == 2000 + 400 * q + j
    ensures (y - 2000) / 400 == q && (y - 2000) % 400 == j
    ensures IsLeapYear(y) == IsLeapYear(j)
  {
    ShiftMod4(q, j);
    ShiftMod100(q, j);
    ShiftMod400(q, j);
    assert y - 2000 == 400 * q + j;
  }

  /** Day number of January 1 of year y. */
  function DaysBeforeYear(y: int): int
  {
    DaysTo2000 + DaysPerCycle * ((y - 2000) / 400) + CycleYearStart((y - 2000) % 400)
  }

  lemma {:induction false} DaysBeforeYearStep(y: int)
    ensures DaysBeforeYear(y + 1) == DaysBeforeYear(y) + DaysInYear(y)
  {
    var q, j := (y - 2000) / 400, (y - 2000) % 400;
    CycleAlign(y, q, j);
    CycleYearStep(j);
    if j < 399 {
      CycleAlign(y + 1, q, j + 1);
    } else {
      CycleAlign(y + 1, q + 1, 0);
    }
  }

  /** Every year adds at least 365 days. */
  lemma {:induction false} DaysBeforeYearGrowth(a: int, b: int)
    requires a <= b
    ensures DaysBeforeYear(b) - DaysBeforeYear(a) >= 365 * (b - a)
    decreases b - a
  {
    if a < b {
      DaysBeforeYearGrowth(a, b - 1);
      DaysBeforeYearStep(b - 1);
    }
  }

  lemma KnownYearStarts()
    ensures DaysBeforeYear(1969) == -365
    ensures DaysBeforeYear(1970) == 0
    ensures DaysBeforeYear(2000) == DaysTo2000
    ensures DaysBeforeYear(10000) == 2932897
  {
  }

  /** Number of days from 1970-01-01 to d (negative before it). */
  function DayNumber(d: Date): int
    requires 1 <= d.month <= 12
  {
    DaysBeforeYear(d.year) + DaysBeforeMonth(d.year, d.month) + d.day - 1
  }

  function FindYearInCycle(r: int, j: int): (k: int)
    requires 0 <= j < 400 && CycleYearStart(j) <= r < DaysPerCycle
    ensures j <= k < 400 && CycleYearStart(k) <= r < CycleYearStart(k + 1)
    decreases 400 - j
  {
    if r < CycleYearStart(j + 1) then j else FindYearInCycle(r, j + 1)
  }

  function FindMonth(y: int, dayOfYear: int, m: int): (k: int)
    requires 1 <= m <= 12 && DaysBeforeMonth(y, m) <= dayOfYear < DaysInYear(y)
    ensures m <= k <= 12 && DaysBeforeMonth(y, k) <= dayOfYear < DaysBeforeMonth(y, k + 1)
    decreases 12 - m
  {
    if dayOfYear < DaysBeforeMonth(y, m + 1) then m else FindMonth(y, dayOfYear, m + 1)
  }

  /** The calendar date of day number n: a valid date whose day number is n. */
  function FromDayNumber(n: int): (d: Date)
    ensures ValidDate(d) && DayNumber(d) == n
  {
    var t := n - DaysTo2000;
    var q, r := t / DaysPerCycle, t % DaysPerCycle;
    var j := FindYearInCycle(r, 0);
    var y := 2000 + 400 * q + j;
    CycleAlign(y, q, j);
    CycleYearStep(j);
    var dayOfYear := r - CycleYearStart(j);
    var m := FindMonth(y, dayOfYear, 1);
    MonthTable(y, m);
    Date(y, m, dayOfYear - DaysBeforeMonth(y, m) + 1)
  }

  /** A valid date's day number lies within its year. */
  lemma DayNumberInYear(d: Date)
    requires ValidDate(d)
    ensures DaysBeforeYear(d.year) <= DayNumber(d) < DaysBeforeYear(d.year + 1)
  {
    MonthTable(d.year, d.month);
    DaysBeforeMonthMonotone(d.year, d.month + 1, 13);
    DaysBeforeYearStep(d.year);
  }

  /** Chronological order of dates: by year, then month, then day. */
  predicate Before(a: Date, b: Date)
  {
    a.year < b.year || (a.year == b.year && (a.month < b.month || (a.month == b.month && a.day < b.day)))
  }

  lemma BeforeHasSmallerDayNumber(a: Date, b: Date)
    requires ValidDate(a) && ValidDate(b) && Before(a, b)
    ensures DayNumber(a) < DayNumber(b)
  {
    if a.year < b.year {
      DayNumberInYear(a);
      DayNumberInYear(b);
      DaysBeforeYearGrowth(a.year + 1, b.year);
    } else if a.month < b.month {
      MonthTable(a.year, a.month);
      DaysBeforeMonthMonotone(a.year, a.month + 1, b.month);
    }
  }

  /** Day numbers order valid dates chronologically and tell them apart. */
  lemma DayNumberOrder(a: Date, b: Date)
    requires ValidDate(a) && ValidDate(b)
    ensures Before(a, b) <==> DayNumber(a) < DayNumber(b)
    ensures a == b <==> DayNumber(a) == DayNumber(b)
  {
    if Before(a, b) {
      BeforeHasSmallerDayNumber(a, b);
    } else if Before(b, a) {
      BeforeHasSmallerDayNumber(b, a);
    } else {
      assert a == b;
    }
  }

  /** FromDayNumber undoes DayNumber on every valid date. */
  lemma FromDayNumberOfDayNumber(d: Date)
    requires ValidDate(d)
    ensures FromDayNumber(DayNumber(d)) == d
  {
    DayNumberOrder(FromDayNumber(DayNumber(d)), d);
  }

  /** The year of day n is at least y exactly when n is on or after January 1 of y. */
  lemma YearOfDayNumber(n: int, y: int)
    ensures FromDayNumber(n).year >= y <==> n >= DaysBeforeYear(y)
  {
    var d := FromDayNumber(n);
    DayNumberInYear(d);
    if d.year >= y {
      DaysBeforeYearGrowth(y, d.year);
    } else {
      DaysBeforeYearGrowth(d.year + 1, y);
    }
  }
}
