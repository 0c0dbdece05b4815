/** Ordinal dates (year, day-of-year) in the proleptic Gregorian calendar, as defined
    in section 4.1.3 of ISO 8601:2004. This is the part of chrono that the converter
    relies on: building a date from a year and an ordinal day, and stepping a date
    forward by whole days. */
module Calendar {

  import Arith

  /** A date written as a year and a 1-based day within that year. */
  datatype Date = Date(year: int, ordinal: nat)

  /** Gregorian rule: every fourth year, except centuries not divisible by 400. */
  predicate IsLeap(y: int)
  {
    (y % 4 == 0 && y % 100 != 0) || y % 400 == 0
  }

  function DaysInYear(y: int): (n: nat)
    ensures 365 <= n <= 366
  {
    if IsLeap(y) then 366 else 365
  }

  /** The day exists in its year. chrono's `NaiveDate::from_yo_opt` returns a date exactly
      when this holds and the year is inside chrono's supported range; that range is not
      modelled, so years are unbounded here. */
  predicate ValidOrdinal(d: Date)
  {
    1 <= d.ordinal <= DaysInYear(d.year)
  }

  /** The day after `d`, rolling over to the first day of the next year. */
  function NextDay(d: Date): (n: Date)
    requires ValidOrdinal(d)
    ensures ValidOrdinal(n)
    ensures n.year == d.year ==> n.ordinal == d.ordinal + 1
    ensures n.year != d.year ==> n == Date(d.year + 1, 1) && d.ordinal == DaysInYear(d.year)
  {
    if d.ordinal < DaysInYear(d.year) then Date(d.year, d.ordinal + 1) else Date(d.year + 1, 1)
  }

  /** The day before `d`, rolling back to the last day of the previous year. */
  function PrevDay(d: Date): (p: Date)
    requires ValidOrdinal(d)
    ensures ValidOrdinal(p)
  {
    if d.ordinal > 1 then Date(d.year, d.ordinal - 1) else Date(d.year - 1, DaysInYear(d.year - 1))
  }

  /** Stepping forward and back by one day are inverse to each other, so no two dates
      share a successor. */
  lemma NextDayPrevDayInverse(d: Date)
    requires ValidOrdinal(d)
    ensures PrevDay(NextDay(d)) == d
    ensures NextDay(PrevDay(d)) == d
  {
  }

  /** The date `n` days after `d`. */
  function AddDays(d: Date, n: nat): (r: Date)
    requires ValidOrdinal(d)
    ensures ValidOrdinal(r)
    ensures n == 0 ==> r == d
    decreases n
  {
    if n == 0 then d else AddDays(NextDay(d), n - 1)
  }

  /** Adding days in two steps is the same as adding them at once. */
  lemma {:induction false} AddDaysAdditive(d: Date, m: nat, n: nat)
    requires ValidOrdinal(d)
    ensures AddDays(AddDays(d, m), n) == AddDays(d, m + n)
    decreases m
  {
    if m > 0 {
      AddDaysAdditive(NextDay(d), m - 1, n);
    }
  }

  /** Day 366 exists exactly in leap years; every other day in 1..365 exists in every year. */
  lemma OrdinalExistsIff(y: int, ordinal: nat)
    ensures ValidOrdinal(Date(y, ordinal)) <==> (1 <= ordinal <= 365 || (ordinal == 366 && IsLeap(y)))
  {
  }

  /** The calendar years the converter's tests rely on. */
  lemma LeapExamples()
    ensures IsLeap(2024) && !IsLeap(2025) && IsLeap(2000) && !IsLeap(1900)
    ensures ValidOrdinal(Date(2024, 366)) && !ValidOrdinal(Date(2025, 366))
  {
  }
}
