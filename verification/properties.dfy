/** What the conversions promise: the forward conversion never fails on a regular
    timestamp and is linear in elapsed time, the reverse conversion rounds to the
    nearest microsecond, and the two compose to the identity at microsecond precision. */
module ConversionProperties {

  import opened Calendar
  import opened Timestamp
  import opened DecimalTimes
  import Arith

  /** A regular timestamp lies strictly within its day, measured in microseconds. */
  lemma MicrosOfDayBelowDay(t: NaiveDateTime)
    requires Regular(t)
    ensures MicrosOfDay(t) < MicrosPerDay
  {
    assert t.secs * MicrosPerSec <= (SecsPerDay - 1) * MicrosPerSec;
  }

  /** The forward conversion of a regular timestamp always succeeds and yields a value
      inside the constructor's ranges. */
  lemma FromNaiveSucceeds(t: NaiveDateTime)
    requires Regular(t)
    ensures FromNaive(t).Ok?
    ensures InRange(FromNaive(t).value)
  {
    MicrosOfDayBelowDay(t);
  }

  /** A leap second in the last second of the day pushes the fraction to one or more,
      so the constructor rejects it. */
  lemma FromNaiveRejectsLeapSecondAtDayEnd(t: NaiveDateTime)
    requires WellFormed(t) && IsLeapSecond(t) && t.secs == SecsPerDay - 1
    ensures FromNaive(t) == Err(InvalidDecimalFraction)
  {
    assert MicrosOfDay(t) >= MicrosPerDay;
  }

  /** Midnight is the fraction zero. */
  lemma MidnightIsZero(d: Date)
    requires ValidOrdinal(d)
    ensures FromNaive(Midnight(d)) == Ok(DecimalTime(d.year, d.ordinal, 0.0))
  {
  }

  /** The difference between two fractions is the elapsed microseconds over a day's. */
  lemma FractionIsLinear(t1: NaiveDateTime, t2: NaiveDateTime)
    requires Regular(t1) && Regular(t2)
    ensures FromNaive(t1).Ok? && FromNaive(t2).Ok?
    ensures FromNaive(t2).value.decimalDay - FromNaive(t1).value.decimalDay
         == (MicrosOfDay(t2) as real - MicrosOfDay(t1) as real) / MicrosPerDay as real
  {
    FromNaiveSucceeds(t1);
    FromNaiveSucceeds(t2);
  }

  /** Times one second apart differ by exactly 1/86400 of a day. */
  lemma OneSecondIsOne86400th(t1: NaiveDateTime, t2: NaiveDateTime)
    requires Regular(t1) && Regular(t2)
    requires t2.secs == t1.secs + 1 && t2.nano == t1.nano
    ensures FromNaive(t1).Ok? && FromNaive(t2).Ok?
    ensures FromNaive(t2).value.decimalDay - FromNaive(t1).value.decimalDay == 1.0 / 86400.0
  {
    FractionIsLinear(t1, t2);
    assert MicrosOfDay(t2) == MicrosOfDay(t1) + MicrosPerSec;
  }

  /** The fraction orders timestamps of one day as their microseconds do: it never
      decreases as time advances, and it grows exactly when the microsecond count does. */
  lemma FractionMonotonic(t1: NaiveDateTime, t2: NaiveDateTime)
    requires Regular(t1) && Regular(t2)
    ensures FromNaive(t1).Ok? && FromNaive(t2).Ok?
    ensures (t1.secs < t2.secs || (t1.secs == t2.secs && t1.nano <= t2.nano))
         ==> FromNaive(t1).value.decimalDay <= FromNaive(t2).value.decimalDay
    ensures FromNaive(t1).value.decimalDay < FromNaive(t2).value.decimalDay
         <==> MicrosOfDay(t1) < MicrosOfDay(t2)
  {
    FractionIsLinear(t1, t2);
    if t1.secs < t2.secs {
      assert t1.nano / NanosPerMicro < MicrosPerSec;
      assert t1.secs * MicrosPerSec + MicrosPerSec <= t2.secs * MicrosPerSec;
    }
  }

  /** The clock readings the library's tests pin: 06:00 is a quarter, noon a half,
      23:59:59 one second short of a whole day, and the last microsecond one
      microsecond short of it. */
  lemma ForwardExamples(d: Date)
    requires ValidOrdinal(d)
    ensures FromNaive(NaiveDateTime(d, 6 * 3600, 0)) == Ok(DecimalTime(d.year, d.ordinal, 0.25))
    ensures FromNaive(NaiveDateTime(d, 12 * 3600, 0)) == Ok(DecimalTime(d.year, d.ordinal, 0.5))
    ensures FromNaive(NaiveDateTime(d, SecsPerDay - 1, 0)) == Ok(DecimalTime(d.year, d.ordinal, 1.0 - 1.0 / 86400.0))
    ensures FromNaive(NaiveDateTime(d, SecsPerDay - 1, 999_999_999))
         == Ok(DecimalTime(d.year, d.ordinal, 1.0 - 1.0 / MicrosPerDay as real))
  {
  }

  /** Rounding leaves integers alone. */
  lemma RoundInteger(n: int)
    ensures RoundHalfAwayFromZero(n as real) == n
  {
  }

  /** For a fraction in range, the reverse conversion's microsecond count is within half
      a microsecond of the exact product, and ties go up. */
  lemma RoundedMicrosNearest(f: real)
    requires 0.0 <= f < 1.0
    ensures f * MicrosPerDay as real - 0.5 < RoundedMicros(f) as real <= f * MicrosPerDay as real + 0.5
  {
  }

  /** A fraction that is a whole number of microseconds converts back to exactly them. */
  lemma RoundedMicrosOfFraction(us: nat)
    requires us < MicrosPerDay
    ensures RoundedMicros(FractionOfDay(us)) == us
  {
    assert FractionOfDay(us) * MicrosPerDay as real == us as real;
    RoundInteger(us);
  }

  /** Two regular timestamps on the same date with the same whole microseconds and no
      sub-microsecond part are equal. */
  lemma RegularDeterminedByMicros(a: NaiveDateTime, b: NaiveDateTime)
    requires Regular(a) && Regular(b) && a.date == b.date
    requires a.nano % NanosPerMicro == 0 && b.nano % NanosPerMicro == 0
    requires MicrosOfDay(a) == MicrosOfDay(b)
    ensures a == b
  {
    Arith.DivModUnique(MicrosOfDay(a), MicrosPerSec, a.secs, a.nano / NanosPerMicro);
    Arith.DivModUnique(MicrosOfDay(b), MicrosPerSec, b.secs, b.nano / NanosPerMicro);
  }

  /** Converting a regular timestamp forward and back yields it truncated to the
      microsecond. */
  lemma RoundTrip(t: NaiveDateTime)
    requires Regular(t)
    ensures FromNaive(t).Ok?
    ensures ToNaive(FromNaive(t).value) == Ok(TruncateToMicros(t))
  {
    FromNaiveSucceeds(t);
    var us := MicrosOfDay(t);
    MicrosOfDayBelowDay(t);
    RoundedMicrosOfFraction(us);
    var back := ToNaive(FromNaive(t).value);
    assert back.Ok?;
    assert us / MicrosPerDay == 0 && us % MicrosPerDay == us;
    assert MicrosOfDay(TruncateToMicros(t)) == us;
    RegularDeterminedByMicros(back.value, TruncateToMicros(t));
  }

  /** At microsecond precision the round trip is exact. */
  lemma RoundTripExact(t: NaiveDateTime)
    requires Regular(t) && t.nano % NanosPerMicro == 0
    ensures FromNaive(t).Ok?
    ensures ToNaive(FromNaive(t).value) == Ok(t)
  {
    RoundTrip(t);
  }

  /** The same round trip through the UTC entry points. */
  lemma UtcRoundTrip(u: DateTimeUtc)
    requires Regular(u.naive) && u.naive.nano % NanosPerMicro == 0
    ensures FromDateTimeUtc(u).Ok?
    ensures ToDateTimeUtc(FromDateTimeUtc(u).value) == Ok(u)
  {
    RoundTripExact(u.naive);
  }

  /** A fraction rounding to less than a whole day stays on its own date, at the rounded
      microsecond of that day. */
  lemma ToNaiveSameDay(dt: DecimalTime)
    requires ValidOrdinal(Date(dt.year, dt.dayOfYear))
    requires 0.0 <= dt.decimalDay && dt.decimalDay * MicrosPerDay as real < MicrosPerDay as real - 0.5
    ensures ToNaive(dt).Ok?
    ensures ToNaive(dt).value.date == Date(dt.year, dt.dayOfYear)
    ensures dt.decimalDay * MicrosPerDay as real - 0.5 <= MicrosOfDay(ToNaive(dt).value) as real
         <= dt.decimalDay * MicrosPerDay as real + 0.5
  {
    assert RoundedMicros(dt.decimalDay) < MicrosPerDay;
  }

  /** A fraction within half a microsecond of a whole day rounds up to it and carries to
      midnight of the following date, rolling over the year after its last day. */
  lemma ToNaiveCarriesFullDay(dt: DecimalTime)
    requires ValidOrdinal(Date(dt.year, dt.dayOfYear))
    requires MicrosPerDay as real - 0.5 <= dt.decimalDay * MicrosPerDay as real && dt.decimalDay < 1.0
    ensures ToNaive(dt) == Ok(Midnight(NextDay(Date(dt.year, dt.dayOfYear))))
  {
    var d := Date(dt.year, dt.dayOfYear);
    assert RoundedMicros(dt.decimalDay) == MicrosPerDay;
    var r := ToNaive(dt);
    assert r.value.date == NextDay(d);
    RegularDeterminedByMicros(r.value, Midnight(NextDay(d)));
  }

  /** Converting a value back and forward again changes its fraction by at most half a
      microsecond of the day. */
  lemma FractionSurvivesReverseAndForward(dt: DecimalTime)
    requires InRange(dt) && ValidOrdinal(Date(dt.year, dt.dayOfYear))
    requires dt.decimalDay * MicrosPerDay as real < MicrosPerDay as real - 0.5
    ensures ToNaive(dt).Ok? && FromNaive(ToNaive(dt).value).Ok?
    ensures var back := FromNaive(ToNaive(dt).value).value;
      && back.year == dt.year && back.dayOfYear == dt.dayOfYear
      && dt.decimalDay - 0.5 / MicrosPerDay as real <= back.decimalDay <= dt.decimalDay + 0.5 / MicrosPerDay as real
  {
    ToNaiveSameDay(dt);
    FromNaiveSucceeds(ToNaive(dt).value);
  }

  /** The reverse conversions the library's tests pin: on day 73 of 2025 a half is
      12:00:00 and three quarters 18:00:00. */
  lemma ReverseExamples()
    ensures ToNaive(DecimalTime(2025, 73, 0.5)) == Ok(NaiveDateTime(Date(2025, 73), 12 * 3600, 0))
    ensures ToNaive(DecimalTime(2025, 73, 0.75)) == Ok(NaiveDateTime(Date(2025, 73), 18 * 3600, 0))
  {
    ToNaiveSameDay(DecimalTime(2025, 73, 0.5));
    RegularDeterminedByMicros(ToNaive(DecimalTime(2025, 73, 0.5)).value, NaiveDateTime(Date(2025, 73), 12 * 3600, 0));
    ToNaiveSameDay(DecimalTime(2025, 73, 0.75));
    RegularDeterminedByMicros(ToNaive(DecimalTime(2025, 73, 0.75)).value, NaiveDateTime(Date(2025, 73), 18 * 3600, 0));
  }

  /** Day 366 converts back in a leap year and is rejected in a common year. */
  lemma ReverseDay366Examples()
    ensures ToNaive(DecimalTime(2024, 366, 0.5)).Ok?
    ensures ToNaive(DecimalTime(2025, 366, 0.5)) == Err(InvalidCalendarDate)
  {
  }

  /** The constructor accepts day 366 whatever the year and rejects out-of-range input. */
  lemma NewExamples()
    ensures New(2024, 366, 0.5).Ok? && New(2025, 366, 0.5).Ok?
    ensures New(2025, 100, 0.25) == Ok(DecimalTime(2025, 100, 0.25))
    ensures New(2025, 0, 0.5) == Err(InvalidDayOfYear)
    ensures New(2025, 367, 0.5) == Err(InvalidDayOfYear)
    ensures New(2025, 50, 1.0) == Err(InvalidDecimalFraction)
    ensures New(2025, 50, -0.1) == Err(InvalidDecimalFraction)
  {
  }
}
