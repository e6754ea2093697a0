/** The civil-date formula of lib/retrieval.ml against a day-by-day Gregorian calendar. */
module Calendar {
  datatype Date = Date(year: int, month: int, day: int)

  predicate IsLeap(year: int) {
    year % 400 == 0 || (year % 4 == 0 && year % 100 != 0)
  }

  function MonthDays(year: int, month: int): nat {
    match month
    case 2 => if IsLeap(year) then 29 else 28
    case 4 => 30 case 6 => 30 case 9 => 30 case 11 => 30
    case 1 => 31 case 3 => 31 case 5 => 31 case 7 => 31 case 8 => 31 case 10 => 31 case 12 => 31
    case _ => 0
  }

  /** A day of the (proleptic) Gregorian calendar. */
  predicate IsDate(d: Date) {
    1 <= d.month <= 12 && 1 <= d.day <= MonthDays(d.year, d.month)
  }

  /** The day after. */
  function Next(d: Date): Date {
    if d.day < MonthDays(d.year, d.month) then d.(day := d.day + 1)
    else if d.month < 12 then Date(d.year, d.month + 1, 1)
    else Date(d.year + 1, 1, 1)
  }

  function After(d: Date, days: nat): Date
    decreases days
  {
    if days == 0 then d else After(Next(d), days - 1)
  }

  predicate Before(d: Date, e: Date) {
    d.year < e.year || (d.year == e.year && (d.month < e.month || (d.month == e.month && d.day < e.day)))
  }

  /** OCaml's integer division truncates towards zero. */
  function Truncated(a: int, b: int): int
    requires b > 0
  {
    if a >= 0 then a / b else 0 - ((0 - a) / b)
  }

  /** `days_from_civil`. */
  function DaysFromCivil(year: int, month: int, day: int): int {
    var year := if month <= 2 then year - 1 else year;
    var era := if year >= 0 then Truncated(year, 400) else Truncated(year - 399, 400);
    var yearOfEra := year - era * 400;
    var shiftedMonth := month + (if month > 2 then -3 else 9);
    var dayOfYear := Truncated(153 * shiftedMonth + 2, 5) + day - 1;
    var dayOfEra := yearOfEra * 365 + Truncated(yearOfEra, 4) - Truncated(yearOfEra, 100) + dayOfYear;
    era * 146097 + dayOfEra - 719468
  }

  function Days(d: Date): int {
    DaysFromCivil(d.year, d.month, d.day)
  }

  // ----- The formula in floor divisions: years from March, then months, then days -----

  function YearStart(y: int): int {
    365 * y + y / 4 - y / 100 + y / 400
  }

  function MonthStart(shiftedMonth: nat): nat {
    (153 * shiftedMonth + 2) / 5
  }

  lemma EraIsFloor(y: int)
    ensures (if y >= 0 then Truncated(y, 400) else Truncated(y - 399, 400)) == y / 400
  {
  }

  lemma EraYears(y: int, era: int)
    requires era == y / 400
    ensures 0 <= y - 400 * era < 400
    ensures YearStart(y)
            == era * 146097 + (y - 400 * era) * 365 + (y - 400 * era) / 4 - (y - 400 * era) / 100
  {
    var r := y - 400 * era;
    assert y / 4 == 100 * era + r / 4;
    assert y / 100 == 4 * era + r / 100;
  }

  /** The year that begins in March. */
  function MarchYear(d: Date): int {
    if d.month <= 2 then d.year - 1 else d.year
  }

  function MarchMonth(d: Date): nat
    requires IsDate(d)
  {
    if d.month > 2 then d.month - 3 else d.month + 9
  }

  function DayOfYear(d: Date): int
    requires IsDate(d)
  {
    MonthStart(MarchMonth(d)) + d.day - 1
  }

  lemma DaysParts(d: Date)
    requires IsDate(d)
    ensures Days(d) == YearStart(MarchYear(d)) + DayOfYear(d) - 719468
  {
    EraIsFloor(MarchYear(d));
    EraYears(MarchYear(d), MarchYear(d) / 400);
  }

  lemma Step4(y: int)
    ensures y / 4 == (y - 1) / 4 + if y % 4 == 0 then 1 else 0
  {}

  lemma Step100(y: int)
    ensures y / 100 == (y - 1) / 100 + if y % 100 == 0 then 1 else 0
  {}

  lemma Step400(y: int)
    ensures y / 400 == (y - 1) / 400 + if y % 400 == 0 then 1 else 0
  {}

  lemma Multiples(y: int)
    ensures y % 400 == 0 ==> y % 100 == 0
    ensures y % 100 == 0 ==> y % 4 == 0
  {}

  lemma YearLength(y: int)
    ensures YearStart(y) == YearStart(y - 1) + if IsLeap(y) then 366 else 365
  {
    Step4(y);
    Step100(y);
    Step400(y);
    Multiples(y);
  }

  /** Counted from March, the formula for months gives their lengths. */
  lemma MonthLength(year: int, month: nat)
    requires 1 <= month <= 12
    ensures 3 <= month < 12 ==> MonthStart(month - 2) == MonthStart(month - 3) + MonthDays(year, month)
    ensures month == 1 ==> MonthStart(11) == MonthStart(10) + MonthDays(year, month)
    ensures month == 12 ==> MonthStart(10) == MonthStart(9) + MonthDays(year, month)
    ensures MonthStart(0) == 0 && MonthStart(11) == 337
  {}

  lemma MonthEnds(d: Date)
    requires IsDate(d) && d.day == MonthDays(d.year, d.month)
    ensures IsDate(Next(d))
    ensures YearStart(MarchYear(Next(d))) + DayOfYear(Next(d)) == YearStart(MarchYear(d)) + DayOfYear(d) + 1
  {
    MonthLength(d.year, d.month);
    if d.month == 2 { YearLength(d.year); }
  }

  /** The formula counts days: the day after has the next number. */
  lemma NextIsOneLater(d: Date)
    requires IsDate(d)
    ensures IsDate(Next(d)) && Days(Next(d)) == Days(d) + 1
  {
    DaysParts(d);
    DaysParts(Next(d));
    if d.day == MonthDays(d.year, d.month) {
      MonthEnds(d);
    }
  }

  lemma NextIsImmediate(d: Date, e: Date)
    requires IsDate(d) && IsDate(e) && Before(d, e)
    ensures Next(d) == e || Before(Next(d), e)
  {
  }

  lemma {:induction false} YearsGrow(y: int, z: int)
    requires y < z
    ensures YearStart(y) + 365 <= YearStart(z)
    ensures IsLeap(y + 1) ==> YearStart(y) + 366 <= YearStart(z)
    decreases z - y
  {
    YearLength(z);
    if y + 1 < z { YearsGrow(y, z - 1); }
  }

  lemma MonthsGrow(m: nat, n: nat)
    requires m < n
    ensures MonthStart(m) + 30 <= MonthStart(n)
  {}

  lemma MonthFits(d: Date)
    requires IsDate(d)
    ensures MarchMonth(d) < 11 ==> DayOfYear(d) < MonthStart(MarchMonth(d) + 1)
    ensures 0 <= DayOfYear(d) < if MarchMonth(d) == 11 && IsLeap(MarchYear(d) + 1) then 366 else 365
  {
    MonthLength(d.year, d.month);
    if MarchMonth(d) < 10 { MonthsGrow(MarchMonth(d) + 1, 11); }
  }

  lemma DayOfYearGrows(d: Date, e: Date)
    requires IsDate(d) && IsDate(e) && Before(d, e) && MarchYear(d) == MarchYear(e)
    ensures DayOfYear(d) < DayOfYear(e)
  {
    MonthFits(d);
    if MarchMonth(d) + 1 < MarchMonth(e) { MonthsGrow(MarchMonth(d) + 1, MarchMonth(e)); }
  }

  /** Later dates have larger numbers. */
  lemma DaysGrow(d: Date, e: Date)
    requires IsDate(d) && IsDate(e) && Before(d, e)
    ensures Days(d) < Days(e)
  {
    DaysParts(d);
    DaysParts(e);
    MonthFits(d);
    MonthFits(e);
    if MarchYear(d) < MarchYear(e) {
      YearsGrow(MarchYear(d), MarchYear(e));
    } else {
      DayOfYearGrows(d, e);
    }
  }

  /**
   For any two dates the difference of their numbers is how many times the day must be
   advanced to get from the earlier to the later, on either side of the epoch.
   */
  lemma {:induction false} DaysCountsDays(d: Date, e: Date)
    requires IsDate(d) && IsDate(e) && !Before(e, d)
    ensures Days(d) <= Days(e) && After(d, Days(e) - Days(d)) == e
    decreases Days(e) - Days(d)
  {
    if d != e {
      DaysGrow(d, e);
      NextIsOneLater(d);
      NextIsImmediate(d, e);
      if Next(d) != e { DaysGrow(Next(d), e); }
      DaysCountsDays(Next(d), e);
    }
  }

  /** Advancing by any number of days advances the number by as much. */
  lemma {:induction false} AfterCounts(d: Date, days: nat)
    requires IsDate(d)
    ensures IsDate(After(d, days)) && Days(After(d, days)) == Days(d) + days
    decreases days
  {
    if days > 0 {
      NextIsOneLater(d);
      AfterCounts(Next(d), days - 1);
    }
  }

  /** Day zero is the first of January 1970. */
  lemma EpochIsZero()
    ensures Days(Date(1970, 1, 1)) == 0
  {
  }
}
