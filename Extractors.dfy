/** The three facts read from one IGC flight log, given as its lines
    (ISO-8859-1 decoded): the flight time from the B fix records, the
    site from the HPSITSITE header records, and the distance text from the
    `Dist` field of the LXSX vendor records. Each extractor rescans all
    lines, as the source does, and fails with the exception the source
    would raise. */
module Extractors {
  import opened Results
  import opened JavaText
  import opened Streams

  // ---------------------------------------------------------------------
  // record kinds

  /** A B record: a timed position fix. */
  predicate IsFix(line: string) {
    StartsWith(line, "B")
  }

  /** An HPSITSITE header record: the site of the flight. */
  predicate IsSiteLine(line: string) {
    StartsWith(line, "HPSITSITE")
  }

  /** An LXSX vendor record carrying `;`-separated fields. */
  predicate IsVendorLine(line: string) {
    StartsWith(line, "LXSX;")
  }

  /** A vendor field that names the distance. */
  predicate IsDistField(field: string) {
    StartsWith(field, "Dist")
  }

  // ---------------------------------------------------------------------
  // the time of a fix

  /** The two-digit number at positions `i`, `i + 1`. */
  function TwoDigits(t: string, i: nat): (n: nat)
    requires i + 1 < |t| && IsDigit(t[i]) && IsDigit(t[i + 1])
    ensures n < 100
  {
    10 * DigitValue(t[i]) + DigitValue(t[i + 1])
  }

  /** A six-character `kkmmss` field that `LocalTime.parse` accepts with the
      default (smart) resolver: ASCII digits, clock hour 00 to 24, minute
      and second 00 to 59. */
  predicate IsClockField(t: string) {
    |t| == 6 && AllDigits(t)
    && TwoDigits(t, 0) <= 24 && TwoDigits(t, 2) <= 59 && TwoDigits(t, 4) <= 59
  }

  /** Seconds after midnight of an accepted field; clock hour 24 is midnight. */
  function ClockSeconds(t: string): (n: nat)
    requires IsClockField(t)
    ensures n < 86400
  {
    (TwoDigits(t, 0) % 24) * 3600 + TwoDigits(t, 2) * 60 + TwoDigits(t, 4)
  }

  /** `LocalTime.parse(line.substring(1, 7), ofPattern("kkmmss"))`, in
      seconds after midnight. */
  function FixTime(line: string): (r: Result<nat>)
    ensures r.Ok? <==> |line| >= 7 && IsClockField(line[1..7])
    ensures r.Err? ==> r.error == (if |line| < 7 then IndexOutOfBounds else DateTimeParse)
    ensures r.Ok? ==> r.value < 86400
  {
    if |line| < 7 then Err(IndexOutOfBounds)
    else if !IsClockField(line[1..7]) then Err(DateTimeParse)
    else Ok(ClockSeconds(line[1..7]))
  }

  /** The six `kkmmss` digits of a time of day, hours 00 to 23. */
  function Stamp(secs: nat): (t: string)
    requires secs < 86400
    ensures |t| == 6 && AllDigits(t)
  {
    Pad2(secs / 3600) + Pad2(secs % 3600 / 60) + Pad2(secs % 60)
  }

  /** Reading the time of a fix written with `Stamp` gives the time back. */
  lemma FixTimeRoundTrip(secs: nat, rest: string)
    requires secs < 86400
    ensures FixTime("B" + Stamp(secs) + rest) == Ok(secs)
  {
    var t := Stamp(secs);
    assert ("B" + t + rest)[1..7] == t;
    StampReads(secs);
  }

  /** A stamp is an accepted field that stands for its time. */
  lemma StampReads(secs: nat)
    requires secs < 86400
    ensures IsClockField(Stamp(secs)) && ClockSeconds(Stamp(secs)) == secs
  {
    var t := Stamp(secs);
    var h, m, s := secs / 3600, secs % 3600 / 60, secs % 60;
    StampPair(h, m, s, t, 0);
    StampPair(h, m, s, t, 2);
    StampPair(h, m, s, t, 4);
    ClockSplit(secs);
  }

  /** Each two-digit group of a stamp reads back as the number padded into it. */
  lemma StampPair(h: nat, m: nat, s: nat, t: string, i: nat)
    requires h < 100 && m < 100 && s < 100 && t == Pad2(h) + Pad2(m) + Pad2(s)
    requires i == 0 || i == 2 || i == 4
    ensures TwoDigits(t, i) == if i == 0 then h else if i == 2 then m else s
  {
    var p := if i == 0 then Pad2(h) else if i == 2 then Pad2(m) else Pad2(s);
    assert t[i] == p[0] && t[i + 1] == p[1];
    assert p[..1][..0] == [] && p[..1] == [p[0]];
    assert ValueOf(p) == ValueOf(p[..1]) * 10 + DigitValue(p[1]);
  }

  /** Clock hour 24 reads as midnight: the same time as hour 00. */
  lemma Hour24IsMidnight(mmss: string)
    requires IsClockField("00" + mmss)
    ensures IsClockField("24" + mmss) && ClockSeconds("24" + mmss) == ClockSeconds("00" + mmss)
  {
    var a, b := "00" + mmss, "24" + mmss;
    assert a[2..] == mmss == b[2..];
    assert TwoDigits(b, 2) == TwoDigits(a, 2) && TwoDigits(b, 4) == TwoDigits(a, 4);
  }

  // ---------------------------------------------------------------------
  // flight time

  /** `lines[i]` is the first B record. */
  predicate IsFirstFix(lines: seq<string>, i: int) {
    0 <= i < |lines| && IsFix(lines[i]) && forall j :: 0 <= j < i ==> !IsFix(lines[j])
  }

  /** `lines[j]` is a B record no B record compares greater than. */
  predicate IsGreatestFix(lines: seq<string>, j: int) {
    0 <= j < |lines| && IsFix(lines[j])
    && forall k :: 0 <= k < |lines| && IsFix(lines[k]) ==> !Below(lines[j], lines[k])
  }

  /** `lines.filter(startsWith "B").findFirst()`. */
  function FirstFix(lines: seq<string>): (r: Option<string>)
    ensures r.None? <==> forall i :: 0 <= i < |lines| ==> !IsFix(lines[i])
    ensures r.Some? ==> exists i :: IsFirstFix(lines, i) && r.value == lines[i]
  {
    var fixes := Filter(lines, IsFix);
    if |fixes| > 0 then FilterHead(lines, IsFix); FindFirst(fixes)
    else
      assert forall i :: 0 <= i < |lines| ==> lines[i] !in fixes;
      FindFirst(fixes)
  }

  /** The accumulator `(s1, s2) -> s1.compareTo(s2) > 0 ? s1 : s2`: the
      later string wins unless the earlier one is strictly greater. Either
      way the result is one of the two, and neither compares greater. */
  function Later(s1: string, s2: string): (r: string)
    ensures r == s1 || r == s2
    ensures !Below(r, s1) && !Below(r, s2)
  {
    BelowIrreflexive(s1);
    BelowIrreflexive(s2);
    if Below(s2, s1) then BelowAsymmetric(s2, s1); s1 else s2
  }

  /** `lines.filter(startsWith "B").reduce("", Later)`: the greatest B
      record, or "" when there is none. */
  function GreatestFix(lines: seq<string>): (r: string)
    ensures (forall i :: 0 <= i < |lines| ==> !IsFix(lines[i])) ==> r == ""
    ensures (exists i :: 0 <= i < |lines| && IsFix(lines[i])) ==>
      exists j :: IsGreatestFix(lines, j) && r == lines[j]
  {
    var fixes := Filter(lines, IsFix);
    var r := Reduce("", fixes, Later);
    ReduceLaterIsGreatest("", fixes);
    if exists i :: 0 <= i < |lines| && IsFix(lines[i]) then
      var i :| 0 <= i < |lines| && IsFix(lines[i]);
      assert lines[i] in fixes;
      assert !Below(r, lines[i]) && lines[i] != [];
      assert r in fixes;
      var j :| 0 <= j < |lines| && lines[j] == r;
      assert IsGreatestFix(lines, j) by {
        forall k | 0 <= k < |lines| && IsFix(lines[k]) ensures !Below(lines[j], lines[k]) {
          assert lines[k] in fixes;
        }
      }
      r
    else
      FilterNone(lines, IsFix);
      r
  }

  /** Folding with `Later` yields the identity or an element, and nothing
      folded compares greater than the result. */
  lemma {:induction false} ReduceLaterIsGreatest(acc: string, s: seq<string>)
    ensures var r := Reduce(acc, s, Later);
      (r == acc || r in s) && !Below(r, acc) && forall x :: x in s ==> !Below(r, x)
    decreases |s|
  {
    BelowIrreflexive(acc);
    if |s| > 0 {
      var next := Later(acc, s[0]);
      ReduceLaterIsGreatest(next, s[1..]);
      var r := Reduce(next, s[1..], Later);
      NotBelowTransitive(r, next, acc);
      NotBelowTransitive(r, next, s[0]);
      assert forall x :: x in s <==> x == s[0] || x in s[1..];
    }
  }

  /** Where the greatest B record sits, given that some B record exists. */
  lemma GreatestFixIndex(lines: seq<string>, i: int) returns (j: int)
    requires 0 <= i < |lines| && IsFix(lines[i])
    ensures IsGreatestFix(lines, j) && GreatestFix(lines) == lines[j]
  {
    assert exists k :: 0 <= k < |lines| && IsFix(lines[k]);
    var g := GreatestFix(lines);
    j :| IsGreatestFix(lines, j) && g == lines[j];
  }

  /** Two greatest B records are the same string. */
  lemma GreatestFixUnique(lines: seq<string>, j: int, k: int)
    requires IsGreatestFix(lines, j) && IsGreatestFix(lines, k)
    ensures lines[j] == lines[k]
  {
    BelowTotal(lines[j], lines[k]);
  }

  /** `handleFlightTime`: seconds from the first B record to the greatest
      one. Fails when there is no B record, or when either record is too
      short or has an unreadable time. */
  function FlightTime(lines: seq<string>): (r: Result<int>)
    ensures r == Err(NoFixRecord) <==> forall i :: 0 <= i < |lines| ==> !IsFix(lines[i])
    ensures r.Ok? ==> -86400 < r.value < 86400
  {
    var first := FirstFix(lines);
    var last := GreatestFix(lines);
    if first.None? then Err(NoFixRecord)
    else
      var t0 :- FixTime(first.value);
      var t1 :- FixTime(last);
      Ok(t1 - t0)
  }

  /** The flight time is the time of the greatest B record minus the time
      of the first one, and it exists exactly when both times can be read. */
  lemma FlightTimeSpan(lines: seq<string>, i: int, j: int)
    requires IsFirstFix(lines, i) && IsGreatestFix(lines, j)
    ensures FlightTime(lines).Ok? <==> FixTime(lines[i]).Ok? && FixTime(lines[j]).Ok?
    ensures FlightTime(lines).Ok? ==>
      FlightTime(lines).value == FixTime(lines[j]).value - FixTime(lines[i]).value
  {
    var first := FirstFix(lines);
    var i' :| IsFirstFix(lines, i') && first.value == lines[i'];
    assert i' == i;
    var j' :| IsGreatestFix(lines, j') && GreatestFix(lines) == lines[j'];
    GreatestFixUnique(lines, j, j');
  }

  /** Hour 24 reads as midnight but compares greater than every other hour,
      so a record at 24:00:00 after one at 01:00:00 gives a negative flight
      time. */
  lemma Hour24MakesFlightTimeNegative()
    ensures FlightTime(["B010000", "B240000"]) == Ok(-3600)
  {
    var lines := ["B010000", "B240000"];
    assert lines[0][..1] == "B" && lines[1][..1] == "B";
    assert lines[0][..1] == lines[1][..1];
    BelowAtFirstDifference(lines[0], lines[1], 1);
    BelowAsymmetric(lines[0], lines[1]);
    BelowIrreflexive(lines[1]);
    assert IsGreatestFix(lines, 1);
    FlightTimeSpan(lines, 0, 1);
    assert lines[0][1..7] == "010000" && lines[1][1..7] == "240000";
  }

  /** A B record whose time field is valid with hours 00 to 23. */
  predicate IsDayFix(line: string) {
    IsFix(line) && |line| >= 7 && IsClockField(line[1..7]) && TwoDigits(line[1..7], 0) <= 23
  }

  /** Seconds after midnight of a B record with a valid time field. */
  function FixSeconds(line: string): nat
    requires |line| >= 7 && IsClockField(line[1..7])
  {
    ClockSeconds(line[1..7])
  }

  /** For valid times with hours 00 to 23, an earlier time has a string
      that compares smaller. */
  lemma EarlierClockIsBelow(a: string, b: string)
    requires IsClockField(a) && IsClockField(b)
    requires TwoDigits(a, 0) <= 23 && TwoDigits(b, 0) <= 23
    requires ClockSeconds(a) < ClockSeconds(b)
    ensures Below(a, b)
  {
    var k := FirstDifference(a, b);
    BelowAtFirstDifference(a, b, k);
  }

  /** The position of the first character where an earlier time's field
      differs from a later one's, and is smaller. */
  lemma FirstDifference(a: string, b: string) returns (k: nat)
    requires IsClockField(a) && IsClockField(b)
    requires TwoDigits(a, 0) <= 23 && TwoDigits(b, 0) <= 23
    requires ClockSeconds(a) < ClockSeconds(b)
    ensures k < 6 && a[..k] == b[..k] && a[k] < b[k]
  {
    var ha, hb := TwoDigits(a, 0), TwoDigits(b, 0);
    var ma, mb := TwoDigits(a, 2), TwoDigits(b, 2);
    var sa, sb := TwoDigits(a, 4), TwoDigits(b, 4);
    DayClockSeconds(a);
    DayClockSeconds(b);
    TimeOrder(ha, ma, sa, hb, mb, sb);
    assert a[..0] == b[..0];
    if ha < hb {
      k := DiffInPair(a, b, 0);
    } else {
      PairEqual(a, b, 0);
      SameThroughPair(a, b, 0);
      if ma < mb {
        k := DiffInPair(a, b, 2);
      } else {
        PairEqual(a, b, 2);
        SameThroughPair(a, b, 2);
        k := DiffInPair(a, b, 4);
      }
    }
  }

  /** With hours 00 to 23, no hour wraps round to midnight. */
  lemma DayClockSeconds(t: string)
    requires IsClockField(t) && TwoDigits(t, 0) <= 23
    ensures ClockSeconds(t) == TwoDigits(t, 0) * 3600 + TwoDigits(t, 2) * 60 + TwoDigits(t, 4)
  {
    var h := TwoDigits(t, 0);
    assert h % 24 == h;
  }

  /** Where two-digit groups first differ, after equal prefixes. */
  lemma DiffInPair(a: string, b: string, i: nat) returns (k: nat)
    requires i + 1 < |a| && i + 1 < |b| && a[..i] == b[..i]
    requires IsDigit(a[i]) && IsDigit(a[i + 1]) && IsDigit(b[i]) && IsDigit(b[i + 1])
    requires TwoDigits(a, i) < TwoDigits(b, i)
    ensures i <= k <= i + 1 && a[..k] == b[..k] && a[k] < b[k]
  {
    PairOrder(a, b, i);
    if a[i] < b[i] {
      k := i;
    } else {
      k := i + 1;
      assert a[..k] == a[..i] + [a[i]] && b[..k] == b[..i] + [b[i]];
    }
  }

  lemma SameThroughPair(a: string, b: string, i: nat)
    requires i + 1 < |a| && i + 1 < |b| && a[..i] == b[..i]
    requires a[i] == b[i] && a[i + 1] == b[i + 1]
    ensures a[..i + 2] == b[..i + 2]
  {
    assert a[..i + 2] == a[..i] + [a[i], a[i + 1]];
    assert b[..i + 2] == b[..i] + [b[i], b[i + 1]];
  }

  /** Times of day compare as (hour, minute, second) triples. */
  lemma TimeOrder(ha: nat, ma: nat, sa: nat, hb: nat, mb: nat, sb: nat)
    requires ma < 60 && sa < 60 && mb < 60 && sb < 60
    requires ha * 3600 + ma * 60 + sa < hb * 3600 + mb * 60 + sb
    ensures ha < hb || (ha == hb && (ma < mb || (ma == mb && sa < sb)))
  {
  }

  /** Two-digit numbers compare as their digit pairs. */
  lemma PairOrder(a: string, b: string, i: nat)
    requires i + 1 < |a| && i + 1 < |b|
    requires IsDigit(a[i]) && IsDigit(a[i + 1]) && IsDigit(b[i]) && IsDigit(b[i + 1])
    requires TwoDigits(a, i) < TwoDigits(b, i)
    ensures a[i] < b[i] || (a[i] == b[i] && a[i + 1] < b[i + 1])
  {
  }

  lemma PairEqual(a: string, b: string, i: nat)
    requires i + 1 < |a| && i + 1 < |b|
    requires IsDigit(a[i]) && IsDigit(a[i + 1]) && IsDigit(b[i]) && IsDigit(b[i + 1])
    requires TwoDigits(a, i) == TwoDigits(b, i)
    ensures a[i] == b[i] && a[i + 1] == b[i + 1]
  {
  }

  /** Why comparing B records as strings orders them by time: with valid
      hours 00 to 23 the six time characters come first after the `B`, and
      their string order is their time order. So a record that does not
      compare below another has a time no smaller than the other's. */
  lemma NotBelowMeansNotEarlier(u: string, t: string)
    requires IsDayFix(u) && IsDayFix(t) && !Below(u, t)
    ensures FixSeconds(u) >= FixSeconds(t)
  {
    if FixSeconds(u) < FixSeconds(t) {
      EarlierClockIsBelow(u[1..7], t[1..7]);
      assert u[1..][..6] == u[1..7] && t[1..][..6] == t[1..7];
      BelowOfPrefixes(u[1..], t[1..], 6);
    }
  }

  /** Every B record with a valid time field whose hour is not 24. */
  predicate AllDayFixes(lines: seq<string>) {
    forall i :: 0 <= i < |lines| && IsFix(lines[i]) ==> IsDayFix(lines[i])
  }

  /** A B record with a valid time field reads as its seconds. */
  lemma DayFixTime(line: string)
    requires IsDayFix(line)
    ensures FixTime(line) == Ok(FixSeconds(line))
  {
  }

  /** When every B record has a valid time with hours 00 to 23, the flight
      time is defined and never negative. */
  lemma FlightTimeNonNegative(lines: seq<string>)
    requires AllDayFixes(lines)
    requires exists i :: 0 <= i < |lines| && IsFix(lines[i])
    ensures FlightTime(lines).Ok? && FlightTime(lines).value >= 0
  {
    var first := FirstFix(lines);
    var i :| IsFirstFix(lines, i) && first.value == lines[i];
    var j := GreatestFixIndex(lines, i);
    DayFixTime(lines[i]);
    DayFixTime(lines[j]);
    FlightTimeSpan(lines, i, j);
    NotBelowMeansNotEarlier(lines[j], lines[i]);
  }

  /** When the B records are in time order (hours 00 to 23, no midnight
      crossing), the greatest record has the time of the last record, so
      the flight time is last minus first in file order. */
  lemma FlightTimeInFileOrder(lines: seq<string>, i: int, n: int)
    requires AllDayFixes(lines)
    requires IsFirstFix(lines, i)
    requires 0 <= n < |lines| && IsFix(lines[n]) && forall k :: n < k < |lines| ==> !IsFix(lines[k])
    requires forall p, q :: 0 <= p < q < |lines| && IsFix(lines[p]) && IsFix(lines[q]) ==>
      FixSeconds(lines[p]) <= FixSeconds(lines[q])
    ensures FlightTime(lines) == Ok(FixSeconds(lines[n]) - FixSeconds(lines[i]))
  {
    var j := GreatestFixIndex(lines, i);
    DayFixTime(lines[i]);
    DayFixTime(lines[j]);
    DayFixTime(lines[n]);
    FlightTimeSpan(lines, i, j);
    NotBelowMeansNotEarlier(lines[j], lines[n]);
    assert j <= n;
    if j < n {
      assert FixSeconds(lines[j]) <= FixSeconds(lines[n]);
    }
  }

  // ---------------------------------------------------------------------
  // site

  function SplitColon(line: string): seq<string> {
    Split(line, ':')
  }

  /** The pieces `getLocations` draws from: every HPSITSITE record split
      on `:`, in file order. */
  function SitePieces(lines: seq<string>): seq<string> {
    FlatMap(Filter(lines, IsSiteLine), SplitColon)
  }

  /** `getLocations`: the second piece, trimmed; `NoSuchElement` when there
      are fewer than two pieces. */
  function Site(lines: seq<string>): (r: Result<string>)
    ensures r.Err? <==> |SitePieces(lines)| < 2
    ensures r.Err? ==> r.error == NoSuchElement
    ensures r.Ok? ==> ':' !in r.value
    ensures r.Ok? ==> r.value == [] || (!IsBlank(r.value[0]) && !IsBlank(r.value[|r.value| - 1]))
  {
    var pieces := SitePieces(lines);
    if |pieces| < 2 then Err(NoSuchElement)
    else
      PiecesWithoutColon(Filter(lines, IsSiteLine));
      TrimKeeps(pieces[1]);
      Ok(Trim(pieces[1]))
  }

  /** No piece of a split on `:` holds a `:`. */
  lemma PiecesWithoutColon(ls: seq<string>)
    ensures forall p :: p in FlatMap(ls, SplitColon) ==> ':' !in p
  {
    forall p | p in FlatMap(ls, SplitColon) ensures ':' !in p {
      var l :| l in ls && p in SplitColon(l);
    }
  }

  /** Trimming keeps only characters of the string. */
  lemma TrimKeeps(s: string)
    ensures forall x :: x in Trim(s) ==> x in s
  {
    var t := Trim(s);
    forall x | x in t ensures x in s {
      var i :| 0 <= i < |t| && t[i] == x;
      assert t[i] == s[LeadingBlanks(s) + i];
    }
  }

  /** The usual case: the site is the text between the first and the second
      `:` of the first HPSITSITE record, trimmed. */
  lemma SiteOfFirstRecord(lines: seq<string>, i: int, head: string, v: string, rest: string)
    requires 0 <= i < |lines| && IsSiteLine(lines[i])
    requires forall j :: 0 <= j < i ==> !IsSiteLine(lines[j])
    requires lines[i] == head + ":" + v + rest
    requires ':' !in head && ':' !in v && v != ""
    requires rest == "" || rest[0] == ':'
    ensures Site(lines) == Ok(Trim(v))
  {
    FilterFrom(lines, IsSiteLine, i);
    SplitFirstTwo(lines[i], ':', head, v, rest);
    var pieces := SitePieces(lines);
    assert pieces == SplitColon(lines[i]) + FlatMap(Filter(lines[i + 1..], IsSiteLine), SplitColon);
  }

  /** The quirk of dropping trailing empty fields: a first HPSITSITE record
      with nothing after its `:` yields one piece only, so the site is
      taken from the next HPSITSITE record, as the text before its first
      `:`, which is that record's own prefix. */
  lemma SiteFromNextRecord(lines: seq<string>, i: int, head: string, i2: int, head2: string, tail2: string)
    requires 0 <= i < i2 < |lines|
    requires IsSiteLine(lines[i]) && forall j :: 0 <= j < i ==> !IsSiteLine(lines[j])
    requires IsSiteLine(lines[i2]) && forall j :: i < j < i2 ==> !IsSiteLine(lines[j])
    requires lines[i] == head + ":" && ':' !in head
    requires lines[i2] == head2 + ":" + tail2 && ':' !in head2
    ensures Site(lines) == Ok(Trim(head2))
  {
    FilterFromTwo(lines, IsSiteLine, i, i2);
    var rest := Filter(lines[i2 + 1..], IsSiteLine);
    SiteLineHead(lines[i], head, "");
    SiteLineHead(lines[i2], head2, tail2);
    SplitEndingInSeparator(head, ':');
    assert lines[i] == head + [':'];
    assert lines[i2] == head2 + [':'] + tail2;
    SplitFirst(lines[i2], ':', head2, tail2);
    PiecesOfTwo(lines[i], lines[i2], rest);
  }

  /** The second piece, when the first record gives one piece only, is the
      first piece of the second record. */
  lemma PiecesOfTwo(first: string, second: string, rest: seq<string>)
    requires |SplitColon(first)| == 1 && |SplitColon(second)| >= 1
    ensures var pieces := FlatMap([first, second] + rest, SplitColon);
      |pieces| >= 2 && pieces[1] == SplitColon(second)[0]
  {
    assert [first, second] + rest == [first] + ([second] + rest);
    FlatMapCons(first, [second] + rest, SplitColon);
    FlatMapCons(second, rest, SplitColon);
  }

  /** An HPSITSITE record has text before its first `:`. */
  lemma SiteLineHead(line: string, head: string, tail: string)
    requires IsSiteLine(line) && line == head + ":" + tail
    ensures head != []
  {
    assert line[0] == line[..9][0] == 'H';
  }

  /** A log without any HPSITSITE record has no site. */
  lemma NoSiteRecord(lines: seq<string>)
    requires forall j :: 0 <= j < |lines| ==> !IsSiteLine(lines[j])
    ensures Site(lines) == Err(NoSuchElement)
  {
    FilterNone(lines, IsSiteLine);
  }

  // ---------------------------------------------------------------------
  // distance

  function SplitSemicolon(line: string): seq<string> {
    Split(line, ';')
  }

  /** The `Dist` fields of every LXSX record, in file order. */
  function DistFields(lines: seq<string>): seq<string> {
    Filter(FlatMap(Filter(lines, IsVendorLine), SplitSemicolon), IsDistField)
  }

  /** The pieces `handleDistance` draws from: every `Dist` field split on `:`. */
  function DistancePieces(lines: seq<string>): seq<string> {
    FlatMap(DistFields(lines), SplitColon)
  }

  /** `handleDistance` up to the text handed to `Double.parseDouble`: the
      second piece, untrimmed; `NoSuchElement` when there is none. */
  function DistanceText(lines: seq<string>): (r: Result<string>)
    ensures r.Err? <==> |DistancePieces(lines)| < 2
    ensures r.Err? ==> r.error == NoSuchElement
    ensures r.Ok? ==> ':' !in r.value && ';' !in r.value
  {
    var pieces := DistancePieces(lines);
    if |pieces| < 2 then Err(NoSuchElement)
    else
      var p := pieces[1];
      assert p in pieces;
      var f :| f in DistFields(lines) && p in SplitColon(f);
      var l :| l in Filter(lines, IsVendorLine) && f in SplitSemicolon(l);
      Ok(p)
  }

  /** A first `Dist` field of the form `Dist:<v>` gives exactly `<v>`. */
  lemma DistanceOfFirstField(lines: seq<string>, v: string)
    requires |DistFields(lines)| > 0 && DistFields(lines)[0] == "Dist:" + v
    requires v != "" && ':' !in v
    ensures DistanceText(lines) == Ok(v)
  {
    var fields := DistFields(lines);
    SplitFirstTwo(fields[0], ':', "Dist", v, "");
    assert fields[0] == "Dist" + [':'] + v + "";
    assert DistancePieces(lines) == SplitColon(fields[0]) + FlatMap(fields[1..], SplitColon);
  }

  /** A log without any LXSX record has no distance. */
  lemma NoVendorRecord(lines: seq<string>)
    requires forall j :: 0 <= j < |lines| ==> !IsVendorLine(lines[j])
    ensures DistanceText(lines) == Err(NoSuchElement)
  {
    FilterNone(lines, IsVendorLine);
  }
}
