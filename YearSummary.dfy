/** `handleYears`: the summary of one bucket directory. The directory walk
    is given as the sequence of the entries it lists, each with its path
    string, its lines and its size; the flights are the entries whose path
    ends in `igc`. The flights are counted, and if there are any, their
    flight times, distance texts and sites are extracted in three passes
    over all of them (the first failure ends the run), summed, averaged and
    counted per site; last, the small files are listed as possible dummy
    logs. */
module YearSummary {
  import opened Results
  import opened JavaText
  import opened Streams
  import opened Extractors
  import opened DurationFormat
  import opened SiteHistogram

  /** An entry of `Files.walk`: its path string, its lines and its size in
      bytes. */
  datatype LogFile = LogFile(path: string, lines: seq<string>, size: int)

  /** `p1.toString().endsWith("igc")`: no dot is needed and case matters. */
  predicate IsLog(f: LogFile) {
    EndsWith(f.path, "igc")
  }

  /** The flights of the walk, in walk order. */
  function Logs(walk: seq<LogFile>): seq<LogFile> {
    Filter(walk, IsLog)
  }

  /** `findDummyLogs`: a file under 5000 bytes is a possible dummy log. */
  predicate IsDummy(f: LogFile) {
    f.size < 5000
  }

  /** The paths `findDummyLogs` reports for the flights, in walk order. */
  function DummyLogs(logs: seq<LogFile>): (r: seq<string>)
    ensures forall p :: p in r <==> exists f :: f in logs && f.path == p && f.size < 5000
  {
    if |logs| == 0 then []
    else
      assert forall f :: f in logs <==> f == logs[0] || f in logs[1..];
      (if IsDummy(logs[0]) then [logs[0].path] else []) + DummyLogs(logs[1..])
  }

  /** `logs.map(extract)` consumed in order: the values of every flight, or
      the failure of the first flight whose extraction fails. */
  function ExtractAll<T>(logs: seq<LogFile>, extract: seq<string> -> Result<T>): (r: Result<seq<T>>)
    ensures r.Ok? <==> forall i :: 0 <= i < |logs| ==> extract(logs[i].lines).Ok?
    ensures r.Ok? ==> (|r.value| == |logs|
      && forall i :: 0 <= i < |logs| ==> r.value[i] == extract(logs[i].lines).value)
    ensures r.Err? ==> exists i :: (0 <= i < |logs| && extract(logs[i].lines) == Err(r.error)
      && forall j :: 0 <= j < i ==> extract(logs[j].lines).Ok?)
  {
    if |logs| == 0 then Ok([])
    else
      var v :- extract(logs[0].lines);
      var rest := ExtractAll(logs[1..], extract);
      if rest.Err? then
        var i :| 0 <= i < |logs[1..]| && extract(logs[1..][i].lines) == Err(rest.error)
          && forall j :: 0 <= j < i ==> extract(logs[1..][j].lines).Ok?;
        assert extract(logs[i + 1].lines) == Err(rest.error);
        Err(rest.error)
      else
        Ok([v] + rest.value)
  }

  /** The sum of a sequence of durations in seconds. */
  function Sum(ds: seq<int>): int {
    if |ds| == 0 then 0 else ds[0] + Sum(ds[1..])
  }

  /** `Duration.plus`. */
  function Plus(d1: int, d2: int): int {
    d1 + d2
  }

  /** `reduce(Duration.ZERO, (d1, d2) -> d1.plus(d2))` is the sum. */
  lemma {:induction false} ReducePlus(acc: int, ds: seq<int>)
    ensures Reduce(acc, ds, Plus) == acc + Sum(ds)
    decreases |ds|
  {
    if |ds| > 0 {
      ReducePlus(acc + ds[0], ds[1..]);
    }
  }

  const NanosPerSecond: nat := 1_000_000_000

  /** `total.dividedBy(count).getSeconds()`: the quotient rounded toward
      zero to whole nanoseconds, then rounded down to whole seconds. */
  function AverageSeconds(total: int, count: nat): int
    requires count > 0
  {
    var nanos := total * NanosPerSecond;
    var q := if nanos >= 0 then nanos / count else -((-nanos) / count);
    q / NanosPerSecond
  }

  /** The average is total / count rounded down: always for a total that is
      not negative, and for a negative total as long as there are at most
      10^9 flights. */
  lemma AverageIsFloor(total: int, count: nat)
    requires count > 0 && (total >= 0 || count <= NanosPerSecond)
    ensures AverageSeconds(total, count) == total / count
  {
    var N := NanosPerSecond;
    var F, e := total / count, (total % count) * N;
    var nanos := total * N;
    assert nanos == (F * N) * count + e by {
      assert total == F * count + total % count;
    }
    assert 0 <= e < count * N;
    var q := if nanos >= 0 then nanos / count else -((-nanos) / count);
    if nanos >= 0 {
      assert q * count <= nanos < q * count + count;
    } else {
      assert e <= count * (N - 1) by {
        assert total % count <= count - 1;
        MulLeft(total % count, count - 1, N);
      }
      assert nanos <= q * count < nanos + count;
    }
    QuotientWindow(q, count, F * N, N);
  }

  lemma MulLeft(a: int, b: int, c: nat)
    requires a <= b
    ensures a * c <= b * c
  {
  }

  lemma LessByMultiple(x: int, y: int, c: nat)
    requires c > 0 && x * c < y * c
    ensures x < y
  {
    if x >= y {
      MulLeft(y, x, c);
    }
  }

  /** A quotient whose multiple lies in the window [b*c, (b+n)*c) lies in
      [b, b+n). */
  lemma QuotientWindow(q: int, c: nat, b: int, n: nat)
    requires c > 0 && n > 0 && b % n == 0
    requires b * c <= q * c + c - 1 && q * c <= b * c + c * n - 1
    ensures q / n == b / n
  {
    assert (q + 1) * c == q * c + c;
    LessByMultiple(b, q + 1, c);
    assert (b + n) * c == b * c + c * n;
    LessByMultiple(q, b + n, c);
    DivWindow(q, b, n);
  }

  lemma DivWindow(q: int, b: int, n: nat)
    requires n > 0 && b % n == 0 && b <= q < b + n
    ensures q / n == b / n
  {
    var k, d := b / n, q / n;
    assert b == k * n;
    assert q == d * n + q % n;
    assert (d + 1) * n == d * n + n;
    assert (k + 1) * n == k * n + n;
  }

  /** The summary printed for a bucket with flights. */
  datatype Summary = Summary(
    count: nat,                   // "Number of flights"
    totalSeconds: int,            // "flight time", the sum of the flight times
    totalText: string,            // its rendering
    averageSeconds: int,          // "average flight time"
    averageText: string,          // its rendering
    distances: seq<string>,       // the distance text of every flight, in walk order
    sites: map<string, nat>,      // the number of flights from each site
    listing: seq<Entry>,          // "locations", most frequent first
    dummyLogs: seq<string>)       // "possible dummy log" paths, in walk order

  datatype Report =
    | NoFlights                   // only the count, 0, is printed
    | Flights(summary: Summary)

  /** What the three passes over the flights extract, in walk order. */
  datatype Extracted = Extracted(times: seq<int>, distances: seq<string>, sites: seq<string>)

  /** The flight-time pass, then the distance pass, then the site pass,
      with the extractors given as parameters. */
  function Passes(logs: seq<LogFile>, time: seq<string> -> Result<int>,
                  distance: seq<string> -> Result<string>, site: seq<string> -> Result<string>): Result<Extracted>
  {
    var times :- ExtractAll(logs, time);
    var distances :- ExtractAll(logs, distance);
    var sites :- ExtractAll(logs, site);
    Ok(Extracted(times, distances, sites))
  }

  /** The summary of the flights `logs` from what the passes extracted. */
  function Summarise(logs: seq<LogFile>, x: Extracted): Summary
    requires |logs| > 0
  {
    var count := |logs|;
    var total := Reduce(0, x.times, Plus);
    var average := AverageSeconds(total, count);
    Summary(count, total, FormatDuration(total), average, FormatDuration(average),
            x.distances, Histogram(x.sites), Listing(x.sites), DummyLogs(logs))
  }

  /** `handleYears` on the entries of one walk. */
  function HandleYears(walk: seq<LogFile>): Result<Report> {
    var logs := Logs(walk);
    if |logs| == 0 then Ok(NoFlights)
    else
      var x :- Passes(logs, FlightTime, DistanceText, Site);
      Ok(Flights(Summarise(logs, x)))
  }

  /** What `extract` gives for every flight, when it succeeds on all. */
  function Values<T>(logs: seq<LogFile>, extract: seq<string> -> Result<T>): (r: seq<T>)
    requires forall i :: 0 <= i < |logs| ==> extract(logs[i].lines).Ok?
    ensures |r| == |logs|
    ensures forall i :: 0 <= i < |logs| ==> r[i] == extract(logs[i].lines).value
  {
    if |logs| == 0 then [] else [extract(logs[0].lines).value] + Values(logs[1..], extract)
  }

  /** `extract` fails on flight `i` with `e`, and on no flight before it. */
  predicate FirstFailure<T>(logs: seq<LogFile>, extract: seq<string> -> Result<T>, e: Failure) {
    exists i :: 0 <= i < |logs| && extract(logs[i].lines) == Err(e)
      && forall j :: 0 <= j < i ==> extract(logs[j].lines).Ok?
  }

  /** The passes succeed exactly when every extractor succeeds on every
      flight, and then they give what each extractor gives for each flight. */
  lemma PassesSucceed(logs: seq<LogFile>, time: seq<string> -> Result<int>,
                      distance: seq<string> -> Result<string>, site: seq<string> -> Result<string>)
    ensures var r := Passes(logs, time, distance, site);
      r.Ok? <==> forall i :: 0 <= i < |logs| ==>
        time(logs[i].lines).Ok? && distance(logs[i].lines).Ok? && site(logs[i].lines).Ok?
    ensures var r := Passes(logs, time, distance, site);
      r.Ok? ==> (&& r.value.times == Values(logs, time)
                 && r.value.distances == Values(logs, distance)
                 && r.value.sites == Values(logs, site))
  {
    var r := Passes(logs, time, distance, site);
    if r.Ok? {
      ExtractAllValues(logs, time);
      ExtractAllValues(logs, distance);
      ExtractAllValues(logs, site);
    }
  }

  lemma ExtractAllValues<T>(logs: seq<LogFile>, extract: seq<string> -> Result<T>)
    requires ExtractAll(logs, extract).Ok?
    ensures ExtractAll(logs, extract).value == Values(logs, extract)
  {
    var a, b := ExtractAll(logs, extract).value, Values(logs, extract);
    assert |a| == |b|;
    assert forall i :: 0 <= i < |a| ==> a[i] == b[i];
  }

  /** `e` is the first failure of the time pass; if that pass fails on no
      flight, the first failure of the distance pass; if that fails on no
      flight either, the first failure of the site pass. */
  predicate FailsInPassOrder(logs: seq<LogFile>, time: seq<string> -> Result<int>,
                             distance: seq<string> -> Result<string>, site: seq<string> -> Result<string>, e: Failure)
  {
    if exists i :: 0 <= i < |logs| && time(logs[i].lines).Err? then
      FirstFailure(logs, time, e)
    else if exists i :: 0 <= i < |logs| && distance(logs[i].lines).Err? then
      FirstFailure(logs, distance, e)
    else
      FirstFailure(logs, site, e)
  }

  /** A failure of the passes is the first failure of the earliest pass
      that fails. */
  lemma PassesFailure(logs: seq<LogFile>, time: seq<string> -> Result<int>,
                      distance: seq<string> -> Result<string>, site: seq<string> -> Result<string>)
    requires Passes(logs, time, distance, site).Err?
    ensures FailsInPassOrder(logs, time, distance, site, Passes(logs, time, distance, site).error)
  {
  }

  /** Nothing past the count is computed when no entry of the walk is a
      flight, and only then. */
  lemma HandleYearsNoFlights(walk: seq<LogFile>)
    ensures HandleYears(walk) == Ok(NoFlights) <==> forall f :: f in walk ==> !IsLog(f)
  {
    var logs := Logs(walk);
    if |logs| > 0 {
      assert logs[0] in logs;
    }
    forall f | f in walk && IsLog(f) ensures f in logs {
    }
  }

  /** A flight for which all three passes succeed. */
  predicate Extractable(f: LogFile) {
    FlightTime(f.lines).Ok? && DistanceText(f.lines).Ok? && Site(f.lines).Ok?
  }

  /** The summary exists exactly when every flight has a flight time, a
      distance text and a site. */
  lemma HandleYearsSucceeds(walk: seq<LogFile>)
    ensures HandleYears(walk).Ok? <==> forall f :: f in walk && IsLog(f) ==> Extractable(f)
  {
    var logs := Logs(walk);
    PassesSucceed(logs, FlightTime, DistanceText, Site);
    assert forall f :: f in walk && IsLog(f) <==> f in logs;
    assert (forall i :: 0 <= i < |logs| ==> Extractable(logs[i])) <==> (forall f :: f in logs ==> Extractable(f));
  }

  /** A failure is the first one of the flight-time pass over the flights;
      if that pass succeeds, the first one of the distance pass; if that
      succeeds too, the first one of the site pass. */
  lemma HandleYearsFailure(walk: seq<LogFile>)
    requires HandleYears(walk).Err?
    ensures FailsInPassOrder(Logs(walk), FlightTime, DistanceText, Site, HandleYears(walk).error)
  {
    PassesFailure(Logs(walk), FlightTime, DistanceText, Site);
  }

  /** The summary of `handleYears` is the summary of what the passes
      extract from its flights. */
  lemma HandleYearsSummarises(walk: seq<LogFile>, s: Summary)
    requires HandleYears(walk) == Ok(Flights(s))
    ensures var logs := Logs(walk);
      && |logs| > 0
      && (forall i :: 0 <= i < |logs| ==> Extractable(logs[i]))
      && s == Summarise(logs, Extracted(Values(logs, FlightTime), Values(logs, DistanceText), Values(logs, Site)))
  {
    PassesSucceed(Logs(walk), FlightTime, DistanceText, Site);
  }

  /** The count is the number of flights; the total is the sum of the
      flight times; the average is the total over the count rounded down
      whenever the rounding of `dividedBy` does not interfere; and both
      renderings read back as the numbers they render. */
  lemma SummariseTotals(logs: seq<LogFile>, x: Extracted)
    requires |logs| > 0
    ensures var s := Summarise(logs, x);
      && s.count == |logs|
      && s.totalSeconds == Sum(x.times)
      && ((s.totalSeconds >= 0 || s.count <= NanosPerSecond) ==> s.averageSeconds == s.totalSeconds / s.count)
      && ParseDuration(s.totalText) == Some(s.totalSeconds)
      && ParseDuration(s.averageText) == Some(s.averageSeconds)
      && s.distances == x.distances
  {
    var s := Summarise(logs, x);
    ReducePlus(0, x.times);
    if s.totalSeconds >= 0 || s.count <= NanosPerSecond {
      AverageIsFloor(s.totalSeconds, s.count);
    }
    FormatDurationRoundTrip(s.totalSeconds);
    FormatDurationRoundTrip(s.averageSeconds);
  }

  /** Every site is a key, mapped to its number of flights, and nothing
      else is; the listing holds every entry exactly once, ordered by
      count, most frequent first, and its counts add up to the number of
      flights. */
  lemma SummariseSites(logs: seq<LogFile>, x: Extracted)
    requires |logs| > 0 && |x.sites| == |logs|
    ensures var s := Summarise(logs, x);
      && (forall k :: k in s.sites <==> k in x.sites)
      && (forall k :: k in s.sites ==> s.sites[k] == multiset(x.sites)[k])
      && ByCountDescending(s.listing)
      && (forall k :: k in s.sites ==> multiset(s.listing)[(k, s.sites[k])] == 1)
      && (forall e :: e in s.listing ==> e.0 in s.sites && e.1 == s.sites[e.0])
      && CountSum(s.listing) == s.count
  {
    ListingIsSortedHistogram(x.sites);
  }

  /** A flight is reported as a possible dummy log exactly when it is under
      5000 bytes. */
  lemma HandleYearsDummies(walk: seq<LogFile>, s: Summary)
    requires HandleYears(walk) == Ok(Flights(s))
    ensures forall p :: p in s.dummyLogs <==> exists f :: f in walk && IsLog(f) && f.path == p && f.size < 5000
  {
    var logs := Logs(walk);
    assert forall f :: f in walk && IsLog(f) <==> f in logs;
  }

  /** Two walks listing the same paths and lines, whatever the sizes. */
  predicate SameContents(w1: seq<LogFile>, w2: seq<LogFile>) {
    |w1| == |w2| && forall i :: 0 <= i < |w1| ==> w1[i].path == w2[i].path && w1[i].lines == w2[i].lines
  }

  /** The result with the dummy-log list left out. */
  function WithoutDummies(r: Result<Report>): Result<Report> {
    if r.Ok? && r.value.Flights? then Ok(Flights(r.value.summary.(dummyLogs := []))) else r
  }

  /** File sizes decide only which flights are reported as dummy logs:
      flagging a flight never removes it from the count, the totals or
      the sites. */
  lemma SizesOnlyFlagDummies(w1: seq<LogFile>, w2: seq<LogFile>)
    requires SameContents(w1, w2)
    ensures WithoutDummies(HandleYears(w1)) == WithoutDummies(HandleYears(w2))
  {
    LogsAlike(w1, w2);
    var l1, l2 := Logs(w1), Logs(w2);
    ExtractAllAlike(l1, l2, FlightTime);
    ExtractAllAlike(l1, l2, DistanceText);
    ExtractAllAlike(l1, l2, Site);
  }

  lemma {:induction false} LogsAlike(w1: seq<LogFile>, w2: seq<LogFile>)
    requires SameContents(w1, w2)
    ensures SameContents(Logs(w1), Logs(w2))
    decreases |w1|
  {
    if |w1| > 0 {
      LogsAlike(w1[1..], w2[1..]);
      assert IsLog(w1[0]) == IsLog(w2[0]);
    }
  }

  lemma {:induction false} ExtractAllAlike<T>(l1: seq<LogFile>, l2: seq<LogFile>, extract: seq<string> -> Result<T>)
    requires SameContents(l1, l2)
    ensures ExtractAll(l1, extract) == ExtractAll(l2, extract)
    decreases |l1|
  {
    if |l1| > 0 {
      ExtractAllAlike(l1[1..], l2[1..], extract);
    }
  }
}
