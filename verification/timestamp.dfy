/** The slice of chrono's `NaiveDateTime` and `DateTime<Utc>` that the converter uses:
    a date, the seconds since midnight, the nanoseconds within the second, and checked
    addition of a non-negative duration. */
module Timestamp {

  import opened Calendar
  import Arith

  const NanosPerMicro: nat := 1_000
  const MicrosPerSec: nat := 1_000_000
  const NanosPerSec: nat := 1_000_000_000
  const SecsPerDay: nat := 86_400
  const MicrosPerDay: nat := 86_400_000_000
  const NanosPerDay: nat := 86_400_000_000_000

  /** A timestamp without a zone. A `nano` of one second or more is chrono's encoding
      of a leap second. */
  datatype NaiveDateTime = NaiveDateTime(date: Date, secs: nat, nano: nat)

  /** A UTC timestamp; it holds the same reading as its naive form, at offset zero. */
  datatype DateTimeUtc = DateTimeUtc(naive: NaiveDateTime)

  /** chrono's invariant on its values: a real date, a second of the day, and a
      leap-second nanosecond count only in the last second of a minute. */
  predicate WellFormed(t: NaiveDateTime)
  {
    && ValidOrdinal(t.date)
    && t.secs < SecsPerDay
    && t.nano < 2 * NanosPerSec
    && (t.nano >= NanosPerSec ==> t.secs % 60 == 59)
  }

  predicate IsLeapSecond(t: NaiveDateTime)
  {
    t.nano >= NanosPerSec
  }

  /** A well-formed timestamp outside any leap second. */
  predicate Regular(t: NaiveDateTime)
  {
    WellFormed(t) && !IsLeapSecond(t)
  }

  /** Whole microseconds elapsed since midnight, dropping the sub-microsecond part. */
  function MicrosOfDay(t: NaiveDateTime): nat
  {
    t.secs * MicrosPerSec + t.nano / NanosPerMicro
  }

  /** Nanoseconds elapsed since midnight. */
  function NanosOfDay(t: NaiveDateTime): nat
  {
    t.secs * NanosPerSec + t.nano
  }

  /** `t` with its nanoseconds truncated to a whole microsecond. */
  function TruncateToMicros(t: NaiveDateTime): (r: NaiveDateTime)
    ensures r.date == t.date && r.secs == t.secs
    ensures r.nano <= t.nano < r.nano + NanosPerMicro && r.nano % NanosPerMicro == 0
  {
    t.(nano := (t.nano / NanosPerMicro) * NanosPerMicro)
  }

  function Midnight(d: Date): NaiveDateTime
  {
    NaiveDateTime(d, 0, 0)
  }

  /** chrono's `checked_add_signed` of a non-negative duration of `ns` nanoseconds to a
      regular timestamp: the time of day advances and whole days carry into the date.
      chrono's own year-range limit is not modelled, so the addition never fails. */
  function AddNanos(t: NaiveDateTime, ns: nat): (r: NaiveDateTime)
    requires Regular(t)
    ensures Regular(r)
    ensures NanosOfDay(r) == (NanosOfDay(t) + ns) % NanosPerDay
    ensures r.date == AddDays(t.date, (NanosOfDay(t) + ns) / NanosPerDay)
  {
    var total := NanosOfDay(t) + ns;
    var rest := total % NanosPerDay;
    NaiveDateTime(AddDays(t.date, total / NanosPerDay), rest / NanosPerSec, rest % NanosPerSec)
  }

  /** A regular timestamp is determined by its date and its nanoseconds since midnight. */
  lemma RegularDeterminedByNanos(a: NaiveDateTime, b: NaiveDateTime)
    requires Regular(a) && Regular(b)
    requires a.date == b.date && NanosOfDay(a) == NanosOfDay(b)
    ensures a == b
  {
    Arith.DivModUnique(NanosOfDay(a), NanosPerSec, a.secs, a.nano);
    Arith.DivModUnique(NanosOfDay(b), NanosPerSec, b.secs, b.nano);
  }

  /** Adding two durations one after the other equals adding their sum. */
  lemma AddNanosAdditive(t: NaiveDateTime, a: nat, b: nat)
    requires Regular(t)
    ensures AddNanos(AddNanos(t, a), b) == AddNanos(t, a + b)
  {
    var x := NanosOfDay(t) + a;
    var t1 := AddNanos(t, a);
    Arith.DivModCarry(x, b, NanosPerDay);
    AddDaysAdditive(t.date, x / NanosPerDay, (x % NanosPerDay + b) / NanosPerDay);
    RegularDeterminedByNanos(AddNanos(t1, b), AddNanos(t, a + b));
  }

  /** Adding exactly one day to midnight reaches midnight of the next date. */
  lemma AddOneDayToMidnight(d: Date)
    requires ValidOrdinal(d)
    ensures AddNanos(Midnight(d), NanosPerDay) == Midnight(NextDay(d))
  {
  }
}
