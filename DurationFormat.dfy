/** `formatDuration`: a duration in whole seconds rendered as `[-]H:MM:SS`,
    with unpadded hours and two-digit minutes and seconds of the absolute
    value, and a leading `-` for a negative duration. A reader for that
    text is defined beside it, and reading back a rendered duration gives
    the duration. */
module DurationFormat {
  import opened Results
  import opened JavaText

  /** `Math.abs` on an unbounded integer. */
  function Abs(x: int): nat {
    if x < 0 then -x else x
  }

  /** `formatDuration(duration)` for `duration.getSeconds() == seconds`. */
  function FormatDuration(seconds: int): (r: string)
    ensures |r| >= 7
    ensures r[0] == '-' <==> seconds < 0
  {
    var positive := Unsigned(Abs(seconds));
    if seconds < 0 then "-" + positive else positive
  }

  /** Unsigned `H:MM:SS` text: exactly three `:`-separated fields of digits,
      hours without leading zeros, minutes and seconds of two digits each
      and below 60. */
  predicate IsClockText(body: string) {
    var f := Fields(body, ':');
    |f| == 3
    && |f[0]| >= 1 && AllDigits(f[0]) && (f[0][0] == '0' ==> f[0] == "0")
    && |f[1]| == 2 && AllDigits(f[1]) && ValueOf(f[1]) < 60
    && |f[2]| == 2 && AllDigits(f[2]) && ValueOf(f[2]) < 60
  }

  /** The number of seconds unsigned `H:MM:SS` text stands for. */
  function ClockValue(body: string): nat
    requires IsClockText(body)
  {
    var f := Fields(body, ':');
    ValueOf(f[0]) * 3600 + ValueOf(f[1]) * 60 + ValueOf(f[2])
  }

  /** Reads `[-]H:MM:SS` text back into seconds. */
  function ParseDuration(text: string): Option<int> {
    if |text| > 0 && text[0] == '-' then
      if IsClockText(text[1..]) then Some(-(ClockValue(text[1..]) as int)) else None
    else if IsClockText(text) then Some(ClockValue(text))
    else None
  }

  /** The unsigned part of a rendered duration is well-formed `H:MM:SS`
      text whose fields are |s| / 3600, (|s| mod 3600) / 60 and |s| mod 60,
      and it stands for |s|; the sign is there exactly for negative s. */
  lemma FormatDurationFields(seconds: int)
    ensures var r := FormatDuration(seconds);
      var body := if seconds < 0 then r[1..] else r;
      var f := Fields(body, ':');
      && IsClockText(body)
      && ValueOf(f[0]) == Abs(seconds) / 3600
      && ValueOf(f[1]) == Abs(seconds) % 3600 / 60
      && ValueOf(f[2]) == Abs(seconds) % 60
      && ClockValue(body) == Abs(seconds)
  {
    var a := Abs(seconds);
    var r := FormatDuration(seconds);
    var body := Unsigned(a);
    if seconds < 0 {
      assert r[1..] == body;
    }
    UnsignedFields(a);
  }

  /** The rendering of a duration without its sign. */
  function Unsigned(a: nat): string {
    Decimal(a / 3600) + ":" + Pad2(a % 3600 / 60) + ":" + Pad2(a % 60)
  }

  lemma UnsignedFields(a: nat)
    ensures var f := Fields(Unsigned(a), ':');
      && IsClockText(Unsigned(a))
      && ValueOf(f[0]) == a / 3600
      && ValueOf(f[1]) == a % 3600 / 60
      && ValueOf(f[2]) == a % 60
      && ClockValue(Unsigned(a)) == a
  {
    var h, m, s := Decimal(a / 3600), Pad2(a % 3600 / 60), Pad2(a % 60);
    RenderedFields(h, m, s);
    DecimalRoundTrip(a / 3600);
    ClockSplit(a);
  }

  /** The three rendered fields are what splitting the rendering on `:`
      gives back. */
  lemma RenderedFields(h: string, m: string, s: string)
    requires AllDigits(h) && AllDigits(m) && AllDigits(s)
    ensures Fields(h + ":" + m + ":" + s, ':') == [h, m, s]
  {
    assert [h, m, s][1..] == [m, s] && [m, s][1..] == [s];
    assert Join([m, s], ':') == m + [':'] + s;
    assert Join([h, m, s], ':') == h + [':'] + (m + [':'] + s);
    assert h + ":" + m + ":" + s == Join([h, m, s], ':');
    NoColonInDigits(h);
    NoColonInDigits(m);
    NoColonInDigits(s);
    FieldsJoin([h, m, s], ':');
  }

  lemma NoColonInDigits(s: string)
    requires AllDigits(s)
    ensures ':' !in s
  {
    forall i | 0 <= i < |s| ensures s[i] != ':' {
      assert IsDigit(s[i]);
    }
  }

  /** Reading back a rendered duration gives the duration. */
  lemma FormatDurationRoundTrip(seconds: int)
    ensures ParseDuration(FormatDuration(seconds)) == Some(seconds)
  {
    FormatDurationFields(seconds);
  }
}
