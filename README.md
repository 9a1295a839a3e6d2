# Airtime: a verified model of the IGC flight-log summariser

Airtime walks a directory of IGC flight logs, one directory per year. For
each directory it prints:

- the number of flights;
- the total and average flight time;
- the distance and the average speed;
- how many flights started from each site, most frequent first;
- the paths of suspiciously small files.

This project models the logic of that program in Dafny and proves what it
computes. The program is a single Java class, `Airtime.java`. Every stream
pipeline of the class is a pure function in the model, and every exception
is an error value.

Modules:

- `Results`: the `Option` and `Result` types. `Failure` names the exceptions
  the program can raise: `NoFixRecord` (from `orElseThrow`),
  `IndexOutOfBounds` (from `substring(1, 7)`), `DateTimeParse` (from
  `LocalTime.parse`) and `NoSuchElement` (from `Optional.get`).
- `JavaText`: the `java.lang.String` operations the program uses, with their
  Java semantics.
  - `compareTo` is the strict order `Below`.
  - `split` for a one-character separator keeps every field and then drops
    trailing empty ones. A string without the separator splits into itself.
  - `trim` removes characters up to `' '` at both ends.
  - `%d` is `Decimal` and `%02d` is `Pad2`.
- `Streams`: `filter`, `flatMap`, `findFirst` and `reduce` over a sequential
  stream, modelled as a `seq`.
- `Extractors`: the three per-file extractors, working on the lines of one
  log.
  - `FlightTime` is `handleFlightTime`. The `kkmmss` time field is read with
    Java's default resolver: clock hour 24 is midnight, and 00 is accepted.
  - `Site` is `getLocations`.
  - `DistanceText` is `handleDistance` up to the text handed to
    `Double.parseDouble`.
- `DurationFormat`: `formatDuration`, with a reader for its output.
- `SiteHistogram`: `groupingBy(identity, counting())` and the listing of its
  entries sorted by count, most frequent first.
- `YearSummary`: `handleYears` on the entries of one directory walk, and the
  `findDummyLogs` threshold.
  - The flights are counted.
  - If there are any, three passes over all flights extract the flight
    times, the distance texts and the sites. The first failure ends the run.
  - The total is `reduce(ZERO, plus)`. The average is
    `dividedBy(count).getSeconds()`, modelled exactly: the quotient is
    rounded toward zero to nanoseconds, then down to seconds.
  - Files under 5000 bytes are listed as possible dummy logs.

Three behaviours of the code that a reader might not expect. The model
follows the code in each:

- **Site.** `getLocations` does not just take the text after the `:` of
  the first `HPSITSITE` record. It flattens the `split(":")` pieces of
  *all* `HPSITSITE` records and takes the second piece. `split` drops
  trailing empty fields, so a record with nothing after its `:` gives one
  piece only. The site is then the first piece of the next `HPSITSITE`
  record (`Extractors.SiteFromNextRecord`). Fewer than two pieces overall
  is a `NoSuchElement` failure, even when an `HPSITSITE` record exists.
- **Time of day.** The pattern is `kkmmss`, not `HHmmss`. It accepts
  hour 24 and reads it as midnight (`Extractors.Hour24IsMidnight`).
- **Flight time.** The flight time is the time of the lexicographically
  greatest `B` record minus the time of the first one. With hours 00
  to 23 the greatest record also has the latest time, so the difference
  is never negative (`Extractors.FlightTimeNonNegative`), whatever the
  order of the records. Records out of time order, or a flight across
  midnight, can give a result other than the span of the flight, but
  never a negative one. Only
  hour 24, which reads as midnight but compares greatest, can make the
  difference negative (`Extractors.Hour24MakesFlightTimeNegative`).

## Model

All source paths are in `xyz.amerkle.airtime/src/main/java/xyz/amerkle/airtime/`.

| member | source | states |
|---|---|---|
| JavaText.Below | xyz.amerkle.airtime/src/main/java/xyz/amerkle/airtime/Airtime.java:99 | `a.compareTo(b) < 0`; it has no `ensures` of its own: JavaText.BelowTransitive, JavaText.BelowAsymmetric, JavaText.BelowTotal and JavaText.BelowAtFirstDifference show it is the strict total order `compareTo` defines |
| JavaText.BelowAsymmetric | xyz.amerkle.airtime/src/main/java/xyz/amerkle/airtime/Airtime.java:99 | two strings never compare below each other both ways |
| JavaText.BelowTransitive | xyz.amerkle.airtime/src/main/java/xyz/amerkle/airtime/Airtime.java:99 | `compareTo < 0` is transitive |
| JavaText.BelowTotal | xyz.amerkle.airtime/src/main/java/xyz/amerkle/airtime/Airtime.java:99 | two distinct strings are ordered one way or the other by `compareTo` |
| JavaText.BelowAtFirstDifference | xyz.amerkle.airtime/src/main/java/xyz/amerkle/airtime/Airtime.java:99 | strings with a common prefix compare by the first character where they differ |
| JavaText.Split | xyz.amerkle.airtime/src/main/java/xyz/amerkle/airtime/Airtime.java:114 | no piece of `split(c)` contains `c`, and every character of a piece comes from the string |
| JavaText.JoinFields | xyz.amerkle.airtime/src/main/java/xyz/amerkle/airtime/Airtime.java:114 | re-joining all fields with the separator gives back the string |
| JavaText.FieldsJoin | xyz.amerkle.airtime/src/main/java/xyz/amerkle/airtime/Airtime.java:114 | splitting separator-free parts joined by the separator gives back the parts |
| JavaText.SplitRejoin | xyz.amerkle.airtime/src/main/java/xyz/amerkle/airtime/Airtime.java:114 | the pieces `split` keeps, re-joined, are a prefix of the string, and everything after that prefix is separators |
| JavaText.SplitFirstTwo | xyz.amerkle.airtime/src/main/java/xyz/amerkle/airtime/Airtime.java:114 | for `a:v` followed by the end or by another `:`, with `v` non-empty, the first two pieces are `a` and `v` |
| JavaText.SplitEndingInSeparator | xyz.amerkle.airtime/src/main/java/xyz/amerkle/airtime/Airtime.java:114 | `a:` splits into `[a]`, and a lone `:` into no piece at all |
| JavaText.Trim | xyz.amerkle.airtime/src/main/java/xyz/amerkle/airtime/Airtime.java:116 | `trim` returns the contiguous middle of the string; everything removed on either side is `<= ' '`; a non-empty result starts and ends with a character above `' '` |
| JavaText.TrimIdempotent | xyz.amerkle.airtime/src/main/java/xyz/amerkle/airtime/Airtime.java:116 | trimming twice is trimming once |
| JavaText.DecimalRoundTrip | xyz.amerkle.airtime/src/main/java/xyz/amerkle/airtime/Airtime.java:143 | the `%d` digits of `n` read back as `n` |
| JavaText.Pad2 | xyz.amerkle.airtime/src/main/java/xyz/amerkle/airtime/Airtime.java:143 | `%02d` of `n < 100` is exactly two digits that read back as `n` |
| Streams.Filter | xyz.amerkle.airtime/src/main/java/xyz/amerkle/airtime/Airtime.java:95 | the filtered stream holds exactly the elements satisfying the predicate, and is no longer than the input |
| Streams.FilterHead | xyz.amerkle.airtime/src/main/java/xyz/amerkle/airtime/Airtime.java:94-96 | the first element after filtering is the first element of the input that satisfies the predicate |
| Streams.FindFirst | xyz.amerkle.airtime/src/main/java/xyz/amerkle/airtime/Airtime.java:96 | `findFirst()` is empty exactly for an empty stream, and otherwise gives its first element |
| Streams.Reduce | xyz.amerkle.airtime/src/main/java/xyz/amerkle/airtime/Airtime.java:48 | `reduce(identity, f)` as a left fold; it has no `ensures` of its own: Extractors.ReduceLaterIsGreatest and YearSummary.ReducePlus state what the two reductions of the program compute |
| Streams.FlatMap | xyz.amerkle.airtime/src/main/java/xyz/amerkle/airtime/Airtime.java:114 | an element is in the flattened stream iff it is a piece of some input element |
| Extractors.FixTime | xyz.amerkle.airtime/src/main/java/xyz/amerkle/airtime/Airtime.java:101-103 | reading a B record's time succeeds iff it has 7 or more characters and characters 1 to 6 are a valid `kkmmss` field; a shorter line fails with IndexOutOfBounds and an invalid field with DateTimeParse; a time is below 86400 seconds |
| Extractors.FixTimeRoundTrip | xyz.amerkle.airtime/src/main/java/xyz/amerkle/airtime/Airtime.java:101-102 | a B record stamped with a time of day reads back as that time |
| Extractors.Hour24IsMidnight | xyz.amerkle.airtime/src/main/java/xyz/amerkle/airtime/Airtime.java:101-102 | with `kkmmss`, hour 24 is accepted and reads as the same time as hour 00 |
| Extractors.FirstFix | xyz.amerkle.airtime/src/main/java/xyz/amerkle/airtime/Airtime.java:94-96 | the start record is absent iff no line starts with `B`; otherwise it is the first line starting with `B` |
| Extractors.Later | xyz.amerkle.airtime/src/main/java/xyz/amerkle/airtime/Airtime.java:99 | the accumulator `s1.compareTo(s2) > 0 ? s1 : s2` returns one of its two arguments, and neither compares greater than it |
| Extractors.GreatestFix | xyz.amerkle.airtime/src/main/java/xyz/amerkle/airtime/Airtime.java:97-99 | the reduce gives `""` when there is no B record; otherwise it gives a B record that no B record compares greater than |
| Extractors.ReduceLaterIsGreatest | xyz.amerkle.airtime/src/main/java/xyz/amerkle/airtime/Airtime.java:99 | folding with `s1 > s2 ? s1 : s2` yields the identity or an element, and nothing folded compares greater than the result |
| Extractors.GreatestFixUnique | xyz.amerkle.airtime/src/main/java/xyz/amerkle/airtime/Airtime.java:97-99 | any two greatest B records are the same string, so tie-breaking in the reduce cannot change the result |
| Extractors.FlightTime | xyz.amerkle.airtime/src/main/java/xyz/amerkle/airtime/Airtime.java:92-104 | the failure is NoFixRecord iff no line starts with `B`; a flight time lies strictly between -86400 and 86400 seconds |
| Extractors.FlightTimeSpan | xyz.amerkle.airtime/src/main/java/xyz/amerkle/airtime/Airtime.java:100-104 | the flight time exists iff the times of the first B record and of the greatest one both read, and it is the greatest one's time minus the first one's |
| Extractors.NotBelowMeansNotEarlier | xyz.amerkle.airtime/src/main/java/xyz/amerkle/airtime/Airtime.java:97-103 | for B records with valid hours 00 to 23, one that does not compare below another does not have an earlier time |
| Extractors.FlightTimeNonNegative | xyz.amerkle.airtime/src/main/java/xyz/amerkle/airtime/Airtime.java:94-104 | when some B record exists and every B record has a valid time with hours 00 to 23, the flight time exists and is at least 0 |
| Extractors.Hour24MakesFlightTimeNegative | xyz.amerkle.airtime/src/main/java/xyz/amerkle/airtime/Airtime.java:97-104 | a B record at 24:00:00 after one at 01:00:00 is the greatest record but reads as midnight, so the flight time is -3600 seconds |
| Extractors.FlightTimeInFileOrder | xyz.amerkle.airtime/src/main/java/xyz/amerkle/airtime/Airtime.java:94-104 | when every B record has hours 00 to 23 and the B records' times never decrease through the file, the flight time is the last B record's time minus the first one's |
| Extractors.Site | xyz.amerkle.airtime/src/main/java/xyz/amerkle/airtime/Airtime.java:112-118 | the site fails, always with NoSuchElement, iff the `HPSITSITE` records give fewer than two `:` pieces; a site has no `:` and no blank at either end |
| Extractors.SiteOfFirstRecord | xyz.amerkle.airtime/src/main/java/xyz/amerkle/airtime/Airtime.java:112-118 | for a first `HPSITSITE` record `head:v` followed by the end or another `:`, the site is `v` trimmed |
| Extractors.SiteFromNextRecord | xyz.amerkle.airtime/src/main/java/xyz/amerkle/airtime/Airtime.java:113-117 | when the first `HPSITSITE` record has nothing after its `:`, the site is the next `HPSITSITE` record's text before its first `:`, trimmed |
| Extractors.NoSiteRecord | xyz.amerkle.airtime/src/main/java/xyz/amerkle/airtime/Airtime.java:113-118 | a log without an `HPSITSITE` record fails with NoSuchElement |
| Extractors.DistanceText | xyz.amerkle.airtime/src/main/java/xyz/amerkle/airtime/Airtime.java:126-132 | the distance text fails, with NoSuchElement, iff the `Dist` fields give fewer than two `:` pieces; the text has no `:` and no `;` |
| Extractors.DistanceOfFirstField | xyz.amerkle.airtime/src/main/java/xyz/amerkle/airtime/Airtime.java:126-132 | when the first `Dist` field is `Dist:v`, the text handed to `parseDouble` is exactly `v` |
| Extractors.NoVendorRecord | xyz.amerkle.airtime/src/main/java/xyz/amerkle/airtime/Airtime.java:126-134 | a log without an `LXSX;` record fails with NoSuchElement |
| DurationFormat.FormatDuration | xyz.amerkle.airtime/src/main/java/xyz/amerkle/airtime/Airtime.java:140-145 | the rendering starts with `-` iff the duration is negative, and is at least 7 characters long |
| DurationFormat.FormatDurationFields | xyz.amerkle.airtime/src/main/java/xyz/amerkle/airtime/Airtime.java:141-144 | without its sign, the rendering is three `:`-separated digit fields: unpadded hours, then minutes and seconds of exactly two digits below 60, reading abs(s) / 3600, (abs(s) mod 3600) / 60 and abs(s) mod 60; together they stand for abs(s) |
| DurationFormat.FormatDurationRoundTrip | xyz.amerkle.airtime/src/main/java/xyz/amerkle/airtime/Airtime.java:140-145 | reading a rendered duration back gives the duration |
| SiteHistogram.Histogram | xyz.amerkle.airtime/src/main/java/xyz/amerkle/airtime/Airtime.java:55-59 | the keys are exactly the sites that occur, each mapped to its number of occurrences |
| SiteHistogram.SortByCount | xyz.amerkle.airtime/src/main/java/xyz/amerkle/airtime/Airtime.java:65-68 | the sorted listing is a permutation of its input with counts that never increase |
| SiteHistogram.SortByCountStable | xyz.amerkle.airtime/src/main/java/xyz/amerkle/airtime/Airtime.java:65-68 | for every count, the entries with that count come out of the sort in the order they went in |
| SiteHistogram.Listing | xyz.amerkle.airtime/src/main/java/xyz/amerkle/airtime/Airtime.java:55-69 | the listing that `handleYears` prints; it has no `ensures` of its own: SiteHistogram.ListingIsSortedHistogram states that it is the sorted histogram |
| SiteHistogram.EntriesCountSum | xyz.amerkle.airtime/src/main/java/xyz/amerkle/airtime/Airtime.java:55-59 | the counts of the histogram add up to the number of flights |
| SiteHistogram.CountSumPermutation | xyz.amerkle.airtime/src/main/java/xyz/amerkle/airtime/Airtime.java:65-68 | sorting does not change the sum of the counts |
| SiteHistogram.ListingIsSortedHistogram | xyz.amerkle.airtime/src/main/java/xyz/amerkle/airtime/Airtime.java:55-69 | the location listing has counts that never increase; it holds each site that occurs exactly once, paired with its number of occurrences, and nothing else; its counts add up to the number of flights |
| YearSummary.DummyLogs | xyz.amerkle.airtime/src/main/java/xyz/amerkle/airtime/Airtime.java:80-86 | a path is reported iff some flight has that path and a size below 5000, so 4999 is flagged and 5000 is not |
| YearSummary.ExtractAll | xyz.amerkle.airtime/src/main/java/xyz/amerkle/airtime/Airtime.java:44-48 | a pass succeeds iff the extractor succeeds on every flight and then gives each flight's value in order; otherwise it fails with the failure of the first flight that fails |
| YearSummary.ReducePlus | xyz.amerkle.airtime/src/main/java/xyz/amerkle/airtime/Airtime.java:48 | `reduce(ZERO, plus)` is the sum of the flight times |
| YearSummary.AverageSeconds | xyz.amerkle.airtime/src/main/java/xyz/amerkle/airtime/Airtime.java:61 | `total.dividedBy(count).getSeconds()` with Java's rounding; it has no `ensures` of its own: YearSummary.AverageIsFloor states when it is total / count rounded down |
| YearSummary.AverageIsFloor | xyz.amerkle.airtime/src/main/java/xyz/amerkle/airtime/Airtime.java:61 | `dividedBy(count).getSeconds()` is total / count rounded down, for every total that is not negative and for negative totals with at most 10^9 flights |
| YearSummary.Summarise | xyz.amerkle.airtime/src/main/java/xyz/amerkle/airtime/Airtime.java:44-69 | the printed figures of one directory; it has no `ensures` of its own: YearSummary.SummariseTotals and YearSummary.SummariseSites state what each figure is |
| YearSummary.HandleYears | xyz.amerkle.airtime/src/main/java/xyz/amerkle/airtime/Airtime.java:34-86 | `handleYears` on one walk; it has no `ensures` of its own: the YearSummary.HandleYears* lemmas state when it reports no flights, when it fails and with what failure, and what it summarises |
| YearSummary.PassesSucceed | xyz.amerkle.airtime/src/main/java/xyz/amerkle/airtime/Airtime.java:44-59 | the three passes succeed iff every extractor succeeds on every flight, and then they give each flight's values in walk order |
| YearSummary.PassesFailure | xyz.amerkle.airtime/src/main/java/xyz/amerkle/airtime/Airtime.java:44-59 | a failure is the first failure of the time pass, else of the distance pass, else of the site pass |
| YearSummary.HandleYearsNoFlights | xyz.amerkle.airtime/src/main/java/xyz/amerkle/airtime/Airtime.java:37-43 | nothing past the count is computed iff no walked path ends in `igc` |
| YearSummary.HandleYearsSucceeds | xyz.amerkle.airtime/src/main/java/xyz/amerkle/airtime/Airtime.java:44-59 | the summary exists iff every flight has a flight time, a distance text and a site |
| YearSummary.HandleYearsFailure | xyz.amerkle.airtime/src/main/java/xyz/amerkle/airtime/Airtime.java:44-59 | a failed summary carries the first failure of the earliest failing pass, in pass order: time, then distance, then site |
| YearSummary.HandleYearsSummarises | xyz.amerkle.airtime/src/main/java/xyz/amerkle/airtime/Airtime.java:37-74 | with flights, every flight extracts, and the summary is built from each flight's time, distance text and site in walk order |
| YearSummary.SummariseTotals | xyz.amerkle.airtime/src/main/java/xyz/amerkle/airtime/Airtime.java:37-61 | the count is the number of flights and the total is the sum of their times. The average is total / count rounded down, for a non-negative total or at most 10^9 flights. Both printed durations read back as those numbers |
| YearSummary.SummariseSites | xyz.amerkle.airtime/src/main/java/xyz/amerkle/airtime/Airtime.java:55-69 | every site is a key mapped to its number of flights, and nothing else is; the listing holds each entry once, most frequent first, and its counts add up to the count |
| YearSummary.HandleYearsDummies | xyz.amerkle.airtime/src/main/java/xyz/amerkle/airtime/Airtime.java:71-86 | a path is reported as a possible dummy log iff it is a flight of the walk with a size below 5000 |
| YearSummary.SizesOnlyFlagDummies | xyz.amerkle.airtime/src/main/java/xyz/amerkle/airtime/Airtime.java:37-86 | file sizes change nothing but the dummy-log list: flagging never removes a flight from the count, the totals or the sites |

## Left out

- Console output. Every `println` and the header naming the directory are
  left out. The model returns the values printed instead: durations
  rendered with `FormatDuration`, the site listing, and the dummy-log
  paths.
- The entry point and the choice of directories, at lines 20-32. This
  covers the argument handling, the list of sub-directories, and the extra
  pass over the root, which counts the sub-directories' flights again.
  `HandleYears` takes one walk as a sequence of entries.
- The file system. `Files.walk`, `Files.lines` and `readAttributes` become
  the fields of `LogFile`: the path string, the lines decoded as
  ISO-8859-1, and the size. I/O failures are not modelled.
- A directory whose name ends in `igc`. The walk would list it as a flight
  and reading it would fail. The model's walk lists files only.
- The walk re-runs once per pass. The model assumes every pass sees the
  same entries in the same order.
- Floating point. `Double.parseDouble` of the distance text, the `double`
  sum of distances (lines 49-54) and the average speed (line 63) are left
  out. So is the `NumberFormatException` an unreadable distance text
  raises.
- DurationFormat.FormatDuration: `long` overflow is not modelled. That
  includes `Math.abs(Long.MIN_VALUE)`, which stays negative in Java.
  Durations are unbounded integers.
- DurationFormat.FormatDuration: `String.format` renders `%d` and `%02d`
  with the digits of the default locale. The model, with `Decimal`,
  `Pad2` and the `ParseDuration` round trip, assumes a default locale
  whose zero digit is `'0'`, that is ASCII digits.
- YearSummary.AverageIsFloor: proves the floor only for totals that are not
  negative, or for at most 10^9 flights. Beyond that, rounding to
  nanoseconds makes `dividedBy` differ from the floor. `AverageSeconds`
  itself models `dividedBy` exactly for every input.
- SiteHistogram.SortByCount: the order among equal counts comes from the
  `HashMap` inside `groupingBy`, and Java does not specify it. The model
  lists the sites in order of first occurrence, then sorts them stably by
  count (`SiteHistogram.SortByCountStable`). So among equal counts the
  model's order is first occurrence, which Java's need not be. Of the
  printed order, the model's claims that hold for Java too are only that
  the listing is sorted by count and a permutation of the entries.
- Nanosecond precision of `java.time`. Times of day and durations are
  whole seconds, which is all a `kkmmss` field can hold.
- `RuntimeException` wrapping and stack traces: a failure is a `Failure`
  value.
