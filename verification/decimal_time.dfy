/** The decimal-time value: a year, an ordinal day, and the elapsed fraction of that
    day. Construction checks ranges only; whether the ordinal day exists in the year is
    checked when the value is turned back into a timestamp. */
module DecimalTimes {

  import opened Calendar
  import opened Timestamp
  import Arith

  /** `decimalDay` is 0 at midnight and 1/2 at noon; the library's `f64` is modelled by
      an exact real. */
  datatype DecimalTime = DecimalTime(year: int, dayOfYear: nat, decimalDay: real)

  /** The conditions under which the library panics. */
  datatype Error = InvalidDecimalFraction | InvalidDayOfYear | InvalidCalendarDate

  datatype Result<T> = Ok(value: T) | Err(error: Error)

  /** The largest value of a Rust `u64`. */
  const U64Max: nat := 0xFFFF_FFFF_FFFF_FFFF

  /** The range invariant `DecimalTime::new` establishes. */
  predicate InRange(dt: DecimalTime)
  {
    1 <= dt.dayOfYear <= 366 && 0.0 <= dt.decimalDay < 1.0
  }

  /** `DecimalTime::new`: the fraction is checked first, then the day of year; no
      leap-year check is made. */
  function New(year: int, dayOfYear: nat, decimalDay: real): (r: Result<DecimalTime>)
    ensures r.Ok? <==> 1 <= dayOfYear <= 366 && 0.0 <= decimalDay < 1.0
    ensures r.Ok? ==> r.value.year == year && r.value.dayOfYear == dayOfYear && r.value.decimalDay == decimalDay
    ensures !(0.0 <= decimalDay < 1.0) ==> r == Err(InvalidDecimalFraction)
    ensures 0.0 <= decimalDay < 1.0 && !(1 <= dayOfYear <= 366) ==> r == Err(InvalidDayOfYear)
  {
    if !(0.0 <= decimalDay < 1.0) then Err(InvalidDecimalFraction)
    else if !(1 <= dayOfYear <= 366) then Err(InvalidDayOfYear)
    else Ok(DecimalTime(year, dayOfYear, decimalDay))
  }

  /** The fraction of a day that `us` microseconds make up. */
  function FractionOfDay(us: nat): real
  {
    us as real / MicrosPerDay as real
  }

  /** `DecimalTime::from_naive_datetime`: year and ordinal are copied, and the fraction
      is the truncated microseconds since midnight over the microseconds in a day. */
  function FromNaive(t: NaiveDateTime): (r: Result<DecimalTime>)
    ensures r.Ok? <==> 1 <= t.date.ordinal <= 366 && MicrosOfDay(t) < MicrosPerDay
    ensures r.Ok? ==> r.value.year == t.date.year && r.value.dayOfYear == t.date.ordinal
    ensures r.Ok? ==> r.value.decimalDay * MicrosPerDay as real == MicrosOfDay(t) as real
    ensures MicrosOfDay(t) >= MicrosPerDay ==> r == Err(InvalidDecimalFraction)
    ensures MicrosOfDay(t) < MicrosPerDay && !(1 <= t.date.ordinal <= 366) ==> r == Err(InvalidDayOfYear)
  {
    New(t.date.year, t.date.ordinal, FractionOfDay(MicrosOfDay(t)))
  }

  /** `DecimalTime::from_datetime_utc`: the conversion of the UTC reading. */
  function FromDateTimeUtc(u: DateTimeUtc): (r: Result<DecimalTime>)
    ensures r.Ok? <==> 1 <= u.naive.date.ordinal <= 366 && MicrosOfDay(u.naive) < MicrosPerDay
    ensures r.Ok? ==> r.value.year == u.naive.date.year && r.value.dayOfYear == u.naive.date.ordinal
    ensures r.Ok? ==> r.value.decimalDay * MicrosPerDay as real == MicrosOfDay(u.naive) as real
    ensures MicrosOfDay(u.naive) >= MicrosPerDay ==> r == Err(InvalidDecimalFraction)
    ensures MicrosOfDay(u.naive) < MicrosPerDay && !(1 <= u.naive.date.ordinal <= 366) ==> r == Err(InvalidDayOfYear)
  {
    FromNaive(u.naive)
  }

  /** Rust's `f64::round`: the nearest integer, halves rounded away from zero. */
  function RoundHalfAwayFromZero(x: real): (n: int)
    ensures x - 0.5 <= n as real <= x + 0.5
    ensures n as real == x + 0.5 ==> x > 0.0
    ensures n as real == x - 0.5 ==> x < 0.0
  {
    if x >= 0.0 then (x + 0.5).Floor else -((-x + 0.5).Floor)
  }

  /** Rust's saturating `as u64` conversion of a rounded float. */
  function SaturateToU64(n: int): (r: nat)
    ensures r <= U64Max
    ensures 0 <= n <= U64Max ==> r == n
    ensures n < 0 ==> r == 0
    ensures n > U64Max ==> r == U64Max
  {
    if n < 0 then 0 else if n > U64Max then U64Max else n
  }

  /** The microsecond count `to_naive_datetime` adds to midnight. */
  function RoundedMicros(decimalDay: real): (us: nat)
    ensures 0.0 <= decimalDay < 1.0 ==> us <= MicrosPerDay
  {
    SaturateToU64(RoundHalfAwayFromZero(decimalDay * MicrosPerDay as real))
  }

  /** `DecimalTime::to_naive_datetime`: fails when the ordinal day does not exist in the
      year; otherwise midnight of that date plus the rounded microseconds, added as whole
      seconds and then the remaining microseconds. */
  function ToNaive(dt: DecimalTime): (r: Result<NaiveDateTime>)
    ensures r.Ok? <==> ValidOrdinal(Date(dt.year, dt.dayOfYear))
    ensures r.Err? ==> r.error == InvalidCalendarDate
    ensures r.Ok? ==> Regular(r.value) && r.value.nano % NanosPerMicro == 0
    ensures r.Ok? ==> r.value.date == AddDays(Date(dt.year, dt.dayOfYear), RoundedMicros(dt.decimalDay) / MicrosPerDay)
    ensures r.Ok? ==> MicrosOfDay(r.value) == RoundedMicros(dt.decimalDay) % MicrosPerDay
  {
    var date := Date(dt.year, dt.dayOfYear);
    if !ValidOrdinal(date) then Err(InvalidCalendarDate)
    else
      var total := RoundedMicros(dt.decimalDay);
      var seconds := total / MicrosPerSec;
      var micros := total % MicrosPerSec;
      var t := AddNanos(AddNanos(Midnight(date), seconds * NanosPerSec), micros * NanosPerMicro);
      AddMicrosToMidnight(date, total);
      Ok(t)
  }

  /** Adding whole seconds and then the leftover microseconds to midnight lands on the
      date and time of day that the microsecond total determines. */
  lemma AddMicrosToMidnight(date: Date, total: nat)
    requires ValidOrdinal(date)
    ensures var t := AddNanos(AddNanos(Midnight(date), (total / MicrosPerSec) * NanosPerSec), (total % MicrosPerSec) * NanosPerMicro);
      && t.date == AddDays(date, total / MicrosPerDay)
      && MicrosOfDay(t) == total % MicrosPerDay
      && t.nano % NanosPerMicro == 0
  {
    var m := Midnight(date);
    var seconds := total / MicrosPerSec;
    var micros := total % MicrosPerSec;
    AddNanosAdditive(m, seconds * NanosPerSec, micros * NanosPerMicro);
    assert seconds * NanosPerSec + micros * NanosPerMicro == total * NanosPerMicro;
    var t := AddNanos(m, total * NanosPerMicro);
    Arith.DivModScale(total, MicrosPerDay, NanosPerMicro);
    var rest := total % MicrosPerDay;
    assert NanosOfDay(t) == rest * NanosPerMicro;
    Arith.DivModScale(rest, MicrosPerSec, NanosPerMicro);
    assert t.secs == rest / MicrosPerSec;
    assert t.nano == (rest % MicrosPerSec) * NanosPerMicro;
  }

  /** `DecimalTime::to_datetime_utc`: the naive result read as UTC. */
  function ToDateTimeUtc(dt: DecimalTime): (r: Result<DateTimeUtc>)
    ensures r.Ok? <==> ValidOrdinal(Date(dt.year, dt.dayOfYear))
    ensures r.Ok? ==> r.value.naive == ToNaive(dt).value
    ensures !ValidOrdinal(Date(dt.year, dt.dayOfYear)) ==> r == Err(InvalidCalendarDate)
  {
    match ToNaive(dt)
    case Ok(t) => Ok(DateTimeUtc(t))
    case Err(e) => Err(e)
  }
}
