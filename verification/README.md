# Decimal time — a Dafny model

This project models the `DecimalTime` value type of the `decimal_time` Rust library.
A `DecimalTime` keeps the calendar year and the ordinal day of the year. It replaces
hours, minutes and seconds with one number: the fraction of the day that has elapsed.
0 is midnight and 0.5 is noon. The model covers four things:

- **Construction.** `DecimalTimes.New` checks the fraction is in [0, 1) and then that
  the day is in 1..=366. It does no leap-year check.
- **Forward conversion.** `DecimalTimes.FromNaive` and `DecimalTimes.FromDateTimeUtc`
  count whole microseconds since midnight, truncating the nanoseconds. They divide that
  count by the 86 400 000 000 µs of a day.
- **Reverse conversion.** `DecimalTimes.ToNaive` and `DecimalTimes.ToDateTimeUtc` reject
  an ordinal day that does not exist in its year. Otherwise they round the fraction to
  microseconds, half away from zero, and add the result to midnight: whole seconds
  first, then the remaining microseconds. A count of exactly one day carries to the next
  date.
- **Formatting.** `Formatting.Format` replaces every `%Y`, then every `%d`, then every
  `%f`.

The parts of chrono the library relies on are modelled here as well:

- **Ordinal dates.** `Calendar` holds the Gregorian leap-year rule and ordinal-date
  validity, as in section 4.1.3 of ISO 8601:2004 (proleptic Gregorian calendar). It
  also steps a date forward by whole days.
- **Timestamps.** `Timestamp` holds `NaiveDateTime`, stored as a date, seconds since
  midnight and nanoseconds, where a nanosecond count of one second or more encodes a
  leap second. It also models `checked_add_signed`, adding a non-negative duration.

The `f64` fraction is an exact `real`. The contracts therefore state the arithmetic the
library intends, not bit-level IEEE-754 behaviour. A panic of the library is an `Err`
of `DecimalTimes.Result`. `Arith` holds the facts about Euclidean division that the
time arithmetic uses.

Four places where the library's comments or tests disagree with its code. The model
follows the code in each case:

- **`%d` padding.** The doc comment on `format` says `%d` is zero-padded to three
  digits. The code prints the day unpadded (`Formatting.FormatLibraryExample`).
- **The `format` doc example.** It shows `0.5` for the fraction. The code strips every
  leading `'0'`, so the output is `.5`, as the unit test at src/lib.rs:187 also expects
  (`Formatting.FormatDocumentedTemplate`).
- **The integration test at tests/decimaltime_tests.rs:108.** It expects
  `Fraction=0.123456`, which contradicts the same trimming. It is not encoded.
- **Forward conversion can fail.** `new` and `to_naive_datetime` each document when
  they panic (src/lib.rs:23-26, src/lib.rs:72-74). `from_naive_datetime` has no such
  section, and the type's doc comment promises 0 ≤ `decimal_day` < 1 (src/lib.rs:11),
  so the library presents the forward conversion as total. That holds for every
  timestamp outside a leap second (`ConversionProperties.FromNaiveSucceeds`). A leap
  second in the last second of the day pushes the fraction to 1 or more, and the
  constructor then panics (`ConversionProperties.FromNaiveRejectsLeapSecondAtDayEnd`).

## Model

| member | source | states |
|---|---|---|
| `DecimalTimes.New` | src/lib.rs:27-46 | succeeds iff 1 ≤ day ≤ 366 and 0 ≤ fraction < 1, storing the three fields unchanged; an out-of-range fraction is reported first, otherwise an out-of-range day |
| `ConversionProperties.NewExamples` | tests/decimaltime_tests.rs:8-45 | day 366 is accepted for 2024 and for 2025 alike; day 0, day 367, fraction 1.0 and fraction −0.1 are rejected with the matching error |
| `DecimalTimes.FromNaive` | src/lib.rs:49-63 | copies year and ordinal; fraction × 86 400 000 000 equals the truncated microseconds since midnight; fails exactly when that count reaches a full day, with the fraction error, or the ordinal leaves 1..=366, with the day error |
| `DecimalTimes.FromDateTimeUtc` | src/lib.rs:66-68 | the UTC entry point gives the same year, ordinal and fraction as the naive conversion of the same reading, and fails in the same cases with the same error |
| `ConversionProperties.FromNaiveSucceeds` | src/lib.rs:58-62 | for every timestamp outside a leap second the forward conversion succeeds and the result satisfies the constructor's ranges |
| `ConversionProperties.FromNaiveRejectsLeapSecondAtDayEnd` | src/lib.rs:28-33 | a leap second in second 86 399 gives a fraction ≥ 1, so the conversion panics with the fraction error |
| `ConversionProperties.MidnightIsZero` | tests/decimaltime_tests.rs:121-128 | midnight of any date maps to the fraction 0 exactly |
| `ConversionProperties.FractionIsLinear` | tests/decimaltime_tests.rs:140-150 | the difference of two fractions is the difference of elapsed microseconds divided by the microseconds of a day |
| `ConversionProperties.OneSecondIsOne86400th` | tests/decimaltime_tests.rs:152-165 | readings one second apart differ by exactly 1/86400 |
| `ConversionProperties.FractionMonotonic` | src/lib.rs:58-60 | the fraction never decreases as the time of day advances, and it is strictly smaller exactly when the microsecond count is |
| `ConversionProperties.ForwardExamples` | tests/decimaltime_tests.rs:53-75 | 06:00 maps to 1/4, 12:00 to 1/2, 23:59:59 to 1 − 1/86400, and the last microsecond of the day to 1 − 1/86 400 000 000 |
| `DecimalTimes.RoundHalfAwayFromZero` | src/lib.rs:85 | the result is within 1/2 of the input, and a tie goes to the integer farther from zero |
| `DecimalTimes.SaturateToU64` | src/lib.rs:85 | Rust's `as u64` cast: values in the `u64` range are kept, negatives become 0 and values above the range become the largest `u64` |
| `DecimalTimes.RoundedMicros` | src/lib.rs:85 | a fraction in [0, 1) rounds to at most one full day of microseconds |
| `ConversionProperties.RoundedMicrosOfFraction` | src/lib.rs:58-60 | a fraction that is a whole number of microseconds over a day's rounds back to exactly that number |
| `ConversionProperties.RoundedMicrosNearest` | src/lib.rs:85 | for a fraction in [0, 1) the rounded microsecond count is the nearest integer to fraction × 86 400 000 000, ties going up |
| `DecimalTimes.ToNaive` | src/lib.rs:75-96 | fails iff (year, day) is not an ordinal date, with the calendar error; otherwise gives a regular timestamp on a whole microsecond whose date is the day advanced by the full days in the rounded count and whose time of day is the rest |
| `DecimalTimes.AddMicrosToMidnight` | src/lib.rs:85-95 | adding the whole seconds and then the leftover microseconds to midnight reaches the date and time of day that the total microsecond count determines |
| `DecimalTimes.ToDateTimeUtc` | src/lib.rs:99-103 | fails exactly when the naive conversion does, with the calendar error, and otherwise holds the naive result unchanged |
| `ConversionProperties.ToNaiveSameDay` | src/lib.rs:85-95 | a fraction rounding below a full day stays on its date, at a microsecond within 1/2 of fraction × 86 400 000 000 |
| `ConversionProperties.ToNaiveCarriesFullDay` | src/lib.rs:85-95 | a fraction in [1 − 0.5/86 400 000 000, 1) becomes midnight of the following date, rolling into the next year after its last day |
| `ConversionProperties.ReverseExamples` | tests/decimaltime_tests.rs:77-100 | on day 73 of 2025, 0.5 gives 12:00:00 and 0.75 gives 18:00:00 |
| `ConversionProperties.ReverseDay366Examples` | src/lib.rs:72-83 | (2024, 366) converts and (2025, 366) fails with the calendar error |
| `ConversionProperties.RoundTrip` | src/lib.rs:164-172 | converting a regular timestamp forward and back gives the timestamp truncated to the microsecond |
| `ConversionProperties.RoundTripExact` | tests/decimaltime_tests.rs:112-119 | a regular timestamp on a whole microsecond survives forward-then-back conversion unchanged |
| `ConversionProperties.UtcRoundTrip` | src/lib.rs:174-181 | the same exact round trip through the UTC entry points |
| `ConversionProperties.FractionSurvivesReverseAndForward` | src/lib.rs:85-95 | back-then-forward keeps year and day and moves the fraction by at most half a microsecond of the day |
| `ConversionProperties.RegularDeterminedByMicros` | src/lib.rs:58 | two regular timestamps on one date with equal whole microseconds and no sub-microsecond part are equal |
| `Calendar.OrdinalExistsIff` | src/lib.rs:77-83 | an ordinal date exists iff the day is in 1..=365, or it is 366 and the year is a leap year |
| `Calendar.LeapExamples` | tests/decimaltime_tests.rs:41-51 | 2024 and 2000 are leap years, 2025 and 1900 are not; (2024, 366) exists and (2025, 366) does not |
| `Calendar.NextDay` | src/lib.rs:89-95 | the next date is a valid ordinal date, one day later in the same year or day 1 of the next year after the year's last day |
| `Calendar.NextDayPrevDayInverse` | src/lib.rs:89-95 | stepping one day forward and one day back are mutually inverse |
| `Calendar.AddDays` | src/lib.rs:89-95 | adding whole days to a valid date gives a valid date |
| `Calendar.AddDaysAdditive` | src/lib.rs:89-95 | adding m days then n days equals adding m + n days |
| `Timestamp.AddNanos` | src/lib.rs:92-95 | adding a duration to a regular timestamp gives a regular timestamp whose time of day is the old one plus the duration, modulo one day, and whose date is the old date advanced by the whole days carried out of that sum |
| `Timestamp.AddNanosAdditive` | src/lib.rs:89-95 | adding two durations one after the other equals adding their sum |
| `Timestamp.AddOneDayToMidnight` | src/lib.rs:89-95 | adding exactly one day to midnight lands on midnight of the next date |
| `Timestamp.TruncateToMicros` | src/lib.rs:58 | truncation keeps date and second and lowers the nanoseconds by less than one microsecond to a multiple of 1000 |
| `Text.Replace` | src/lib.rs:121-130 | `str::replace` with a non-empty pattern: a replacement as long as the pattern keeps the length, and replacing the pattern by itself changes nothing |
| `Text.ReplaceKeepsPrefix` | src/lib.rs:121 | text in which no occurrence of the pattern starts is copied unchanged, and the scan continues behind it |
| `Text.ReplaceFirstOccurrence` | src/lib.rs:121 | the leftmost occurrence is replaced and the scan resumes after it, so matches never overlap |
| `Text.ReplaceWithoutOccurrence` | src/lib.rs:128-131 | a string without the pattern is returned unchanged |
| `Text.TrimLeadingZeros` | src/lib.rs:130 | the result is a suffix of the input, everything removed is `'0'`, and the result does not start with `'0'` |
| `Text.NatToString` | src/lib.rs:124 | decimal digits only, no leading zero for a positive day, one character exactly for values below 10, so no padding |
| `Text.IntToString` | src/lib.rs:121 | a leading minus sign exactly for negative years, digits after it, and no leading zero after the sign for a non-zero year, and exactly "0" for year 0 |
| `Text.NatToStringRoundTrip` | src/lib.rs:124 | reading back the rendered digits gives the number |
| `Text.IntToStringRoundTrip` | src/lib.rs:121 | reading back the rendered year gives the year |
| `Formatting.Format` | src/lib.rs:117-134 | a template with none of `%Y`, `%d`, `%f` is returned unchanged |
| `Formatting.FormatEachPlaceholderOnce` | src/lib.rs:117-134 | in a template with one `%Y`, one `%d` and one `%f` in that order and no other `'%'`, the placeholders become the signed year, the unpadded day and the fraction text without leading zeros, and the rest is unchanged |
| `Formatting.FormatCommandLineTemplate` | src/main.rs:18 | the template `%Y.%d%f` gives year, a dot, the day, and the trimmed fraction text |
| `Formatting.FormatLibraryExample` | src/lib.rs:184-188 | (2025, 5, "0.5") with "Date => %Y-%d frac:%f" gives "Date => 2025-5 frac:.5" |
| `Formatting.FormatDocumentedTemplate` | src/lib.rs:112-116 | (2025, 100, "0.5") with "Year=%Y Day=%d Fraction=%f" gives "Year=2025 Day=100 Fraction=.5", not the "0.5" the comment shows |

## Left out

- src/main.rs: reading the system clock, the fixed UTC+1 offset and printing to stdout are I/O. Only its template is modelled (`Formatting.FormatCommandLineTemplate`).
- IEEE-754 behaviour of `f64`: the rounding of the division at src/lib.rs:60 and of the multiplication at src/lib.rs:85, and the rejection of NaN by `new`. `real` is exact, so the model states the intended arithmetic, not bit-level float fidelity.
- Rust's `Display` for `f64` at src/lib.rs:129: `Formatting.Format` takes the rendered fraction text as a parameter. Only the substitution and the leading-`'0'` trim are verified.
- chrono's year range: years are unbounded integers, so `checked_add_signed` never overflows and the `unwrap` calls at src/lib.rs:91-95 never panic in the model. The timestamp-overflow error therefore does not appear.
- DecimalTimes.ToNaive: `NaiveDate::from_yo_opt` also returns `None` for a year outside chrono's supported range (roughly ±262 000), and src/lib.rs:77-83 then panics with "Invalid day_of_year". The model has no year limit, so for such a year with a valid ordinal day `DecimalTimes.ToNaive` (and `DecimalTimes.ToDateTimeUtc`) returns `Ok` where the library panics.
- Integer widths: the `i32` year and `u32` day are unbounded `int` and `nat`. No operation here wraps, and a day above the `u32` range fails the 1..=366 check anyway.
- Leap seconds after a conversion: a leap second inside the day converts forward without error, but the round trip of such a timestamp is not stated. chrono's addition starting from a leap second is not modelled either (`Timestamp.AddNanos` requires a regular timestamp).
- `Text.Replace`: requires a non-empty pattern. Rust's `str::replace` also accepts an empty one, but the library only ever passes the two-character placeholders.
- Formatting.Format: its own contract covers only templates without placeholders. What replacement does is stated by `Formatting.FormatEachPlaceholderOnce` for one placeholder of each kind, and by the `Text.Replace` lemmas for any number of occurrences. No separate lemma covers a template that repeats a placeholder.
- `DecimalTimes.FromDateTimeUtc`, `DecimalTimes.ToDateTimeUtc`: time zones are not modelled. `DateTime<Utc>` is the naive reading with a zero offset.
- The expectation `Fraction=0.123456` at tests/decimaltime_tests.rs:108 contradicts the code at src/lib.rs:130 and is not encoded.
