/** The java.lang.String operations the summariser relies on: prefix and
    suffix tests, compareTo, split around a one-character separator, trim,
    and the decimal rendering of String.format's "%d" and "%02d".
    Characters are those of an ISO-8859-1 decoded file, so a Dafny `char`
    compares exactly as a Java `char` does. */
module JavaText {

  /** `s.startsWith(p)` */
  predicate StartsWith(s: string, p: string) {
    |p| <= |s| && s[..|p|] == p
  }

  /** `s.endsWith(p)` */
  predicate EndsWith(s: string, p: string) {
    |p| <= |s| && s[|s| - |p|..] == p
  }

  // ---------------------------------------------------------------------
  // compareTo

  /** `a.compareTo(b) < 0`: the first differing character decides; when one
      string is a proper prefix of the other, the shorter one is smaller. */
  predicate Below(a: string, b: string)
    decreases |a|
  {
    if |a| == 0 then |b| > 0
    else if |b| == 0 then false
    else if a[0] != b[0] then a[0] < b[0]
    else Below(a[1..], b[1..])
  }

  lemma {:induction false} BelowIrreflexive(a: string)
    ensures !Below(a, a)
    decreases |a|
  {
    if |a| > 0 {
      BelowIrreflexive(a[1..]);
    }
  }

  lemma {:induction false} BelowTransitive(a: string, b: string, c: string)
    requires Below(a, b) && Below(b, c)
    ensures Below(a, c)
    decreases |a|
  {
    if |a| > 0 && a[0] == b[0] && b[0] == c[0] {
      BelowTransitive(a[1..], b[1..], c[1..]);
    }
  }

  /** Two strings never compare below each other. */
  lemma BelowAsymmetric(a: string, b: string)
    requires Below(a, b)
    ensures !Below(b, a)
  {
    BelowIrreflexive(a);
    if Below(b, a) {
      BelowTransitive(a, b, a);
    }
  }

  lemma {:induction false} BelowTotal(a: string, b: string)
    ensures a == b || Below(a, b) || Below(b, a)
    decreases |a|
  {
    if |a| > 0 && |b| > 0 && a[0] == b[0] {
      BelowTotal(a[1..], b[1..]);
      if a[1..] == b[1..] {
        assert a == [a[0]] + a[1..] && b == [b[0]] + b[1..];
      }
    }
  }

  /** compareTo is a strict total order, so "not below" is transitive. */
  lemma NotBelowTransitive(a: string, b: string, c: string)
    requires !Below(a, b) && !Below(b, c)
    ensures !Below(a, c)
  {
    if Below(a, c) {
      BelowTotal(a, b);
      if Below(b, a) {
        BelowTransitive(b, a, c);
      }
    }
  }

  /** Two strings that agree before position `k` and differ there are
      ordered by their characters at `k`. */
  lemma {:induction false} BelowAtFirstDifference(a: string, b: string, k: nat)
    requires k < |a| && k < |b| && a[..k] == b[..k] && a[k] < b[k]
    ensures Below(a, b)
    decreases k
  {
    if k > 0 {
      assert a[0] == a[..k][0] == b[..k][0] == b[0];
      assert a[1..][..k - 1] == a[..k][1..] == b[..k][1..] == b[1..][..k - 1];
      BelowAtFirstDifference(a[1..], b[1..], k - 1);
    }
  }

  /** Comparing whole strings refines comparing their first `n` characters. */
  lemma {:induction false} BelowOfPrefixes(a: string, b: string, n: nat)
    requires n <= |a| && n <= |b| && Below(a[..n], b[..n])
    ensures Below(a, b)
    decreases n
  {
    assert n > 0;
    assert a[..n][0] == a[0] && b[..n][0] == b[0];
    if a[0] == b[0] {
      assert a[..n][1..] == a[1..][..n - 1] && b[..n][1..] == b[1..][..n - 1];
      BelowOfPrefixes(a[1..], b[1..], n - 1);
    }
  }

  // ---------------------------------------------------------------------
  // split

  /** Position of the first `c` in `s`. */
  function IndexOf(s: string, c: char): (k: nat)
    requires c in s
    ensures k < |s| && s[k] == c && c !in s[..k]
  {
    if s[0] == c then 0
    else
      assert c in s[1..] by { assert s == [s[0]] + s[1..]; }
      var k := IndexOf(s[1..], c);
      assert s[..k + 1] == [s[0]] + s[1..][..k];
      k + 1
  }

  /** The first separator after a separator-free prefix is the one right after it. */
  lemma {:induction false} IndexOfAfter(a: string, c: char, t: string)
    requires c !in a
    ensures c in a + [c] + t && IndexOf(a + [c] + t, c) == |a|
    decreases |a|
  {
    var s := a + [c] + t;
    assert s[|a|] == c;
    if |a| > 0 {
      assert s[1..] == a[1..] + [c] + t;
      IndexOfAfter(a[1..], c, t);
    }
  }

  /** Every field of `s` between occurrences of `c`, empty ones included. */
  function Fields(s: string, c: char): (r: seq<string>)
    ensures |r| >= 1
    ensures forall i :: 0 <= i < |r| ==> c !in r[i]
    ensures forall i, x :: 0 <= i < |r| && x in r[i] ==> x in s
    decreases |s|
  {
    if c !in s then [s]
    else
      var k := IndexOf(s, c);
      assert forall x :: x in s[..k] || x in s[k + 1..] ==> x in s;
      [s[..k]] + Fields(s[k + 1..], c)
  }

  /** The fields joined back with `c` between them. */
  function Join(parts: seq<string>, c: char): string
  {
    if |parts| == 0 then ""
    else if |parts| == 1 then parts[0]
    else parts[0] + [c] + Join(parts[1..], c)
  }

  /** Splitting and re-joining gives back the string. */
  lemma {:induction false} JoinFields(s: string, c: char)
    ensures Join(Fields(s, c), c) == s
    decreases |s|
  {
    if c in s {
      var k := IndexOf(s, c);
      var a, t := s[..k], s[k + 1..];
      assert s == a + [c] + t;
      var rest := Fields(t, c);
      assert ([a] + rest)[0] == a && ([a] + rest)[1..] == rest;
      calc {
        Join(Fields(s, c), c);
        { FieldsCons(a, c, t); }
        Join([a] + rest, c);
        a + [c] + Join(rest, c);
        { JoinFields(t, c); }
        a + [c] + t;
      }
    }
  }

  /** Joining fields that hold no separator and splitting again gives back the fields. */
  lemma {:induction false} FieldsJoin(parts: seq<string>, c: char)
    requires |parts| >= 1
    requires forall i :: 0 <= i < |parts| ==> c !in parts[i]
    ensures Fields(Join(parts, c), c) == parts
    decreases |parts|
  {
    if |parts| > 1 {
      var s := Join(parts, c);
      var p := parts[0];
      IndexOfAfter(p, c, Join(parts[1..], c));
      var k := IndexOf(s, c);
      assert s[..k] == p;
      assert s[k + 1..] == Join(parts[1..], c);
      FieldsJoin(parts[1..], c);
    }
  }

  /** The fields with trailing empty ones removed. */
  function DropTrailingEmpty(r: seq<string>): (d: seq<string>)
    ensures |d| <= |r| && d == r[..|d|]
    ensures |d| > 0 ==> d[|d| - 1] != ""
    ensures forall i :: |d| <= i < |r| ==> r[i] == ""
  {
    if |r| > 0 && r[|r| - 1] == "" then DropTrailingEmpty(r[..|r| - 1]) else r
  }

  /** `s.split(c)` with a separator that is not a regular-expression
      metacharacter: when `c` does not occur the result is `[s]` (even for
      the empty string); otherwise every field, minus trailing empty ones. */
  function Split(s: string, c: char): (r: seq<string>)
    ensures forall i :: 0 <= i < |r| ==> c !in r[i]
    ensures forall i, x :: 0 <= i < |r| && x in r[i] ==> x in s
  {
    if c !in s then [s] else DropTrailingEmpty(Fields(s, c))
  }

  /** What `Split` drops is only separators: the kept fields, re-joined,
      are a prefix of `s`, and every character after it is `c`. */
  lemma SplitRejoin(s: string, c: char)
    ensures var j := Join(Split(s, c), c);
      |j| <= |s| && s[..|j|] == j && forall i :: |j| <= i < |s| ==> s[i] == c
  {
    if c in s {
      var all := Fields(s, c);
      var kept := Split(s, c);
      JoinFields(s, c);
      JoinOfPrefix(all, |kept|, c);
    }
  }

  /** Joining a prefix of fields whose remaining fields are empty gives a
      prefix of the whole join followed by separators only. */
  lemma {:induction false} JoinOfPrefix(all: seq<string>, n: nat, c: char)
    requires n <= |all|
    requires forall i :: n <= i < |all| ==> all[i] == ""
    ensures var j, whole := Join(all[..n], c), Join(all, c);
      |j| <= |whole| && whole[..|j|] == j && forall i :: |j| <= i < |whole| ==> whole[i] == c
    decreases |all|
  {
    if n == |all| {
      assert all[..n] == all;
    } else if n == 0 {
      JoinOfEmpties(all, c);
    } else {
      JoinOfPrefix(all[1..], n - 1, c);
      assert all[1..][..n - 1] == all[..n][1..];
      var tail, wholeTail := Join(all[1..][..n - 1], c), Join(all[1..], c);
      if n == 1 {
        assert Join(all[..n], c) == all[0];
        JoinOfEmpties(all[1..], c);
        assert Join(all, c) == all[0] + [c] + wholeTail;
      } else {
        assert Join(all[..n], c) == all[0] + [c] + tail;
        assert Join(all, c) == all[0] + [c] + wholeTail;
      }
    }
  }

  /** Joining empty fields gives separators only. */
  lemma {:induction false} JoinOfEmpties(all: seq<string>, c: char)
    requires forall i :: 0 <= i < |all| ==> all[i] == ""
    ensures forall i :: 0 <= i < |Join(all, c)| ==> Join(all, c)[i] == c
    decreases |all|
  {
    if |all| > 1 {
      JoinOfEmpties(all[1..], c);
      assert Join(all, c) == [c] + Join(all[1..], c);
    }
  }

  /** A line `a:v…` whose first two fields are `a` and a non-empty `v`
      splits into at least those two pieces. */
  lemma SplitFirstTwo(s: string, c: char, a: string, v: string, rest: string)
    requires s == a + [c] + v + rest
    requires c !in a && c !in v && v != []
    requires rest == [] || rest[0] == c
    ensures |Split(s, c)| >= 2 && Split(s, c)[0] == a && Split(s, c)[1] == v
  {
    FieldsFirstTwo(s, c, a, v, rest);
    assert s[|a|] == c;
    KeptThrough(Fields(s, c), 1);
  }

  lemma FieldsFirstTwo(s: string, c: char, a: string, v: string, rest: string)
    requires s == a + [c] + v + rest
    requires c !in a && c !in v
    requires rest == [] || rest[0] == c
    ensures |Fields(s, c)| >= 2 && Fields(s, c)[0] == a && Fields(s, c)[1] == v
  {
    var tail := v + rest;
    assert s == a + [c] + tail;
    FieldsCons(a, c, tail);
    FirstField(tail, c, v, rest);
  }

  /** A separator-free start that ends at a separator or at the end is the
      first field. */
  lemma FirstField(s: string, c: char, v: string, rest: string)
    requires s == v + rest && c !in v
    requires rest == [] || rest[0] == c
    ensures Fields(s, c)[0] == v
  {
    if rest == [] {
      assert s == v;
    } else {
      assert s == v + [c] + rest[1..];
      FieldsCons(v, c, rest[1..]);
    }
  }

  /** Dropping trailing empty fields keeps every field up to a non-empty one. */
  lemma KeptThrough(r: seq<string>, i: nat)
    requires i < |r| && r[i] != ""
    ensures |DropTrailingEmpty(r)| > i
  {
  }

  /** A non-empty first field before a separator is the first piece. */
  lemma SplitFirst(s: string, c: char, a: string, t: string)
    requires s == a + [c] + t && c !in a && a != []
    ensures |Split(s, c)| >= 1 && Split(s, c)[0] == a
  {
    FieldsCons(a, c, t);
    assert s[|a|] == c;
    assert Fields(s, c)[0] == a;
  }

  /** A separator-free first field is split off as it is. */
  lemma FieldsCons(a: string, c: char, t: string)
    requires c !in a
    ensures Fields(a + [c] + t, c) == [a] + Fields(t, c)
  {
    var s := a + [c] + t;
    IndexOfAfter(a, c, t);
    var k := IndexOf(s, c);
    assert s[..k] == a && s[k + 1..] == t;
  }

  /** A string ending in its only separator splits into the part before it,
      or into nothing at all when that part is empty. */
  lemma SplitEndingInSeparator(a: string, c: char)
    requires c !in a
    ensures Split(a + [c], c) == if a == [] then [] else [a]
  {
    var s := a + [c];
    IndexOfAfter(a, c, []);
    assert s == a + [c] + [];
    var k := IndexOf(s, c);
    assert s[..k] == a && s[k + 1..] == [];
    assert Fields(s, c) == [a, []];
    if a == [] {
      assert DropTrailingEmpty([a, []]) == DropTrailingEmpty([a]) == DropTrailingEmpty([]);
    } else {
      assert DropTrailingEmpty([a, []]) == DropTrailingEmpty([a]);
    }
  }

  // ---------------------------------------------------------------------
  // trim

  /** A character `trim` removes: any code point up to and including the space. */
  predicate IsBlank(ch: char) {
    ch <= ' '
  }

  predicate AllBlank(s: string) {
    forall i :: 0 <= i < |s| ==> IsBlank(s[i])
  }

  /** Number of leading blanks. */
  function LeadingBlanks(s: string): (n: nat)
    ensures n <= |s| && AllBlank(s[..n])
    ensures n < |s| ==> !IsBlank(s[n])
  {
    if |s| > 0 && IsBlank(s[0]) then
      var n := LeadingBlanks(s[1..]);
      assert s[..n + 1] == [s[0]] + s[1..][..n];
      n + 1
    else 0
  }

  /** Number of trailing blanks. */
  function TrailingBlanks(s: string): (n: nat)
    ensures n <= |s| && AllBlank(s[|s| - n..])
    ensures n < |s| ==> !IsBlank(s[|s| - n - 1])
  {
    if |s| > 0 && IsBlank(s[|s| - 1]) then
      var t := s[..|s| - 1];
      var n := TrailingBlanks(t);
      assert s[|s| - (n + 1)..] == t[|t| - n..] + [s[|s| - 1]];
      n + 1
    else 0
  }

  /** `s.trim()`: the slice of `s` that starts and ends with a non-blank,
      everything cut off on either side being blank. */
  function Trim(s: string): (r: string)
    ensures LeadingBlanks(s) + |r| <= |s|
    ensures r == s[LeadingBlanks(s)..LeadingBlanks(s) + |r|]
    ensures AllBlank(s[..LeadingBlanks(s)]) && AllBlank(s[LeadingBlanks(s) + |r|..])
    ensures r == [] || (!IsBlank(r[0]) && !IsBlank(r[|r| - 1]))
  {
    var t := s[LeadingBlanks(s)..];
    var r := t[..|t| - TrailingBlanks(t)];
    assert s[LeadingBlanks(s) + |r|..] == t[|t| - TrailingBlanks(t)..];
    r
  }

  /** Trimming twice is trimming once. */
  lemma TrimIdempotent(s: string)
    ensures Trim(Trim(s)) == Trim(s)
  {
    var r := Trim(s);
    if r != [] {
      assert LeadingBlanks(r) == 0;
      assert TrailingBlanks(r) == 0;
    }
  }

  // ---------------------------------------------------------------------
  // decimal digits

  predicate IsDigit(ch: char) {
    '0' <= ch <= '9'
  }

  predicate AllDigits(s: string) {
    forall i :: 0 <= i < |s| ==> IsDigit(s[i])
  }

  function DigitValue(ch: char): (d: nat)
    requires IsDigit(ch)
    ensures d < 10
  {
    ch as int - '0' as int
  }

  function DigitChar(d: nat): (ch: char)
    requires d < 10
    ensures IsDigit(ch) && DigitValue(ch) == d
  {
    ('0' as int + d) as char
  }

  /** The number a string of decimal digits denotes. */
  function ValueOf(s: string): nat
    requires AllDigits(s)
  {
    if |s| == 0 then 0 else ValueOf(s[..|s| - 1]) * 10 + DigitValue(s[|s| - 1])
  }

  /** `String.valueOf(n)`, or `"%d"`, for a non-negative `n`: at least one
      digit, and no leading zero unless the number is zero. */
  function Decimal(n: nat): (r: string)
    ensures |r| >= 1 && AllDigits(r)
    ensures r[0] == '0' ==> n == 0
  {
    if n < 10 then [DigitChar(n)] else Decimal(n / 10) + [DigitChar(n % 10)]
  }

  /** Reading the digits back gives the number. */
  lemma {:induction false} DecimalRoundTrip(n: nat)
    ensures ValueOf(Decimal(n)) == n
  {
    if n >= 10 {
      var r := Decimal(n);
      assert r[..|r| - 1] == Decimal(n / 10);
      DecimalRoundTrip(n / 10);
    }
  }

  /** `String.format("%02d", n)` for `0 <= n < 100`. */
  function Pad2(n: nat): (r: string)
    requires n < 100
    ensures |r| == 2 && AllDigits(r) && ValueOf(r) == n
  {
    var r := [DigitChar(n / 10), DigitChar(n % 10)];
    assert r[..1] == [DigitChar(n / 10)] && r[..1][..0] == [];
    assert ValueOf(r[..1]) == n / 10;
    r
  }

  /** Hours, minutes and seconds put back together give the seconds. */
  lemma ClockSplit(a: nat)
    ensures (a / 3600) * 3600 + (a % 3600 / 60) * 60 + a % 60 == a
  {
    var rem := a % 3600;
    assert a == (a / 3600) * 3600 + rem;
    assert rem == (rem / 60) * 60 + rem % 60;
    assert a % 60 == rem % 60 by {
      assert a == ((a / 3600) * 60) * 60 + rem;
    }
  }
}
