/** Proleptic Gregorian dates as Python's `datetime.date` handles them: years
    1 to 9999, day numbers counted from 1 January of year 1, comparison by
    (year, month, day), and `replace(year=...)`, which fails on 29 February
    of a common year. */
module Calendar {
  import opened Exceptions
  import opened Text

  const MinYear := 1
  const MaxYear := 9999

  datatype Date = Date(year: int, month: int, day: int)

  predicate IsLeap(year: int)
  {
    year % 4 == 0 && (year % 100 != 0 || year % 400 == 0)
  }

  function DaysInMonth(year: int, month: int): (n: int)
    requires 1 <= month <= 12
    ensures 28 <= n <= 31
    ensures n == 29 <==> month == 2 && IsLeap(year)
  {
    if month == 2 then (if IsLeap(year) then 29 else 28)
    else if month == 4 || month == 6 || month == 9 || month == 11 then 30
    else 31
  }

  /** The dates `datetime.date` can represent. */
  predicate ValidDate(d: Date)
  {
    MinYear <= d.year <= MaxYear && 1 <= d.month <= 12 && 1 <= d.day <= DaysInMonth(d.year, d.month)
  }

  function DaysInYear(year: int): int
  {
    if IsLeap(year) then 366 else 365
  }

  /** Days in the months of `year` before `month`. */
  function DaysBeforeMonth(year: int, month: int): nat
    requires 1 <= month <= 12
  {
    var common :=
      match month
      case 1 => 0
      case 2 => 31
      case 3 => 59
      case 4 => 90
      case 5 => 120
      case 6 => 151
      case 7 => 181
      case 8 => 212
      case 9 => 243
      case 10 => 273
      case 11 => 304
      case _ => 334;
    common + (if month > 2 && IsLeap(year) then 1 else 0)
  }

  /** Days in the years before `year`, counted from year 1. */
  function DaysBeforeYear(year: int): int
    requires year >= 1
  {
    var y := year - 1;
    y * 365 + y / 4 - y / 100 + y / 400
  }

  /** `date.toordinal()`: 1 January of year 1 is day 1. */
  function Ordinal(d: Date): int
    requires ValidDate(d)
  {
    DaysBeforeYear(d.year) + DaysBeforeMonth(d.year, d.month) + d.day
  }

  /** The day number of 31 December 9999, the last date Python represents. */
  const MaxOrdinal := 3652059

  /** Python's `a < b` on dates: by year, then month, then day. */
  predicate Precedes(a: Date, b: Date)
  {
    a.year < b.year
    || (a.year == b.year && (a.month < b.month || (a.month == b.month && a.day < b.day)))
  }

  /** Each year adds the days it has. */
  lemma NextYear(year: int)
    requires year >= 1
    ensures DaysBeforeYear(year + 1) == DaysBeforeYear(year) + DaysInYear(year)
  {
    var y := year - 1;
    assert (y + 1) / 4 == y / 4 + (if (y + 1) % 4 == 0 then 1 else 0);
    assert (y + 1) / 100 == y / 100 + (if (y + 1) % 100 == 0 then 1 else 0);
    assert (y + 1) / 400 == y / 400 + (if (y + 1) % 400 == 0 then 1 else 0);
  }

  /** A later year starts after all the days of an earlier one. */
  lemma {:induction false} YearsIncrease(y1: int, y2: int)
    requires 1 <= y1 < y2
    ensures DaysBeforeYear(y1) + DaysInYear(y1) <= DaysBeforeYear(y2)
    decreases y2 - y1
  {
    NextYear(y1);
    if y1 + 1 < y2 {
      YearsIncrease(y1 + 1, y2);
    }
  }

  /** The day number of a date lies within the days of its year. */
  lemma OrdinalInYear(d: Date)
    requires ValidDate(d)
    ensures DaysBeforeYear(d.year) < Ordinal(d) <= DaysBeforeYear(d.year) + DaysInYear(d.year)
  {
  }

  /** A later date has a larger day number. */
  lemma PrecedesOrdinal(a: Date, b: Date)
    requires ValidDate(a) && ValidDate(b) && Precedes(a, b)
    ensures Ordinal(a) < Ordinal(b)
  {
    OrdinalInYear(a);
    OrdinalInYear(b);
    if a.year < b.year {
      YearsIncrease(a.year, b.year);
    }
  }

  /** Python's date comparison agrees with comparing day numbers, and the day
      number identifies the date. */
  lemma OrdinalOrder(a: Date, b: Date)
    requires ValidDate(a) && ValidDate(b)
    ensures Precedes(a, b) <==> Ordinal(a) < Ordinal(b)
    ensures a == b <==> Ordinal(a) == Ordinal(b)
  {
    if Precedes(a, b) {
      PrecedesOrdinal(a, b);
    } else if Precedes(b, a) {
      PrecedesOrdinal(b, a);
    }
  }

  /** Every representable date has a day number between 1 and `MaxOrdinal`. */
  lemma OrdinalRange(d: Date)
    requires ValidDate(d)
    ensures 1 <= Ordinal(d) <= MaxOrdinal
  {
    var last := Date(MaxYear, 12, 31);
    assert Ordinal(last) == MaxOrdinal;
    if d != last {
      PrecedesOrdinal(d, last);
    }
  }

  /** `d.replace(year=year)`: the same month and day in another year. Like
      CPython it checks the year first, then whether the day exists in that
      month of that year. */
  function ReplaceYear(d: Date, year: int): (r: Outcome<Date>)
    requires ValidDate(d)
    ensures r.Returned? <==> ValidDate(Date(year, d.month, d.day))
    ensures r.Returned? ==> r.value == Date(year, d.month, d.day)
    ensures MinYear <= year <= MaxYear ==>
              (r.Raised? <==> d.month == 2 && d.day == 29 && !IsLeap(year))
  {
    if year < MinYear || year > MaxYear then
      Raised(ValueError("year " + IntString(year) + " is out of range"))
    else if d.day > DaysInMonth(year, d.month) then
      Raised(ValueError("day is out of range for month"))
    else
      Returned(Date(year, d.month, d.day))
  }
}
