/** The java.util.stream operations the extractors are built from, over a
    sequential stream modelled as a `seq`: filter, flatMap, findFirst
    (possibly after skip), and reduce with an identity. */
module Streams {
  import opened Results

  /** `stream.filter(p)`: the elements satisfying `p`, in stream order. */
  function Filter<T(!new)>(s: seq<T>, p: T -> bool): (r: seq<T>)
    ensures |r| <= |s|
    ensures forall x {:trigger x in r} :: x in r <==> x in s && p(x)
  {
    if |s| == 0 then []
    else
      assert forall x :: x in s <==> x == s[0] || x in s[1..];
      (if p(s[0]) then [s[0]] else []) + Filter(s[1..], p)
  }

  /** Filtering starts at the first element that passes. */
  lemma {:induction false} FilterFrom<T(!new)>(s: seq<T>, p: T -> bool, i: nat)
    requires i < |s| && p(s[i])
    requires forall j :: 0 <= j < i ==> !p(s[j])
    ensures Filter(s, p) == [s[i]] + Filter(s[i + 1..], p)
    decreases i
  {
    if i > 0 {
      FilterFrom(s[1..], p, i - 1);
      assert s[1..][i..] == s[i + 1..];
    }
  }

  /** Filtering starts with the first two elements that pass. */
  lemma FilterFromTwo<T(!new)>(s: seq<T>, p: T -> bool, i: nat, i2: nat)
    requires i < i2 < |s| && p(s[i]) && p(s[i2])
    requires forall j :: 0 <= j < i ==> !p(s[j])
    requires forall j :: i < j < i2 ==> !p(s[j])
    ensures Filter(s, p) == [s[i], s[i2]] + Filter(s[i2 + 1..], p)
  {
    var rest := Filter(s[i2 + 1..], p);
    calc {
      Filter(s, p);
      { FilterFrom(s, p, i); }
      [s[i]] + Filter(s[i + 1..], p);
      { FilterAfter(s, p, i, i2); }
      [s[i]] + ([s[i2]] + rest);
      [s[i], s[i2]] + rest;
    }
  }

  /** After position `i`, filtering starts at the next element that passes. */
  lemma FilterAfter<T(!new)>(s: seq<T>, p: T -> bool, i: nat, i2: nat)
    requires i < i2 < |s| && p(s[i2])
    requires forall j :: i < j < i2 ==> !p(s[j])
    ensures Filter(s[i + 1..], p) == [s[i2]] + Filter(s[i2 + 1..], p)
  {
    var later := s[i + 1..];
    var m := i2 - i - 1;
    forall j | 0 <= j < m ensures !p(later[j]) {
      assert later[j] == s[i + 1 + j];
    }
    FilterFrom(later, p, m);
    assert later[m + 1..] == s[i2 + 1..];
  }

  /** Nothing passes the filter when no element satisfies `p`. */
  lemma {:induction false} FilterNone<T(!new)>(s: seq<T>, p: T -> bool)
    requires forall j :: 0 <= j < |s| ==> !p(s[j])
    ensures Filter(s, p) == []
  {
    if |s| > 0 {
      FilterNone(s[1..], p);
    }
  }

  /** The first element to pass the filter is the first element of the
      stream that satisfies `p`. */
  lemma {:induction false} FilterHead<T(!new)>(s: seq<T>, p: T -> bool)
    requires |Filter(s, p)| > 0
    ensures exists i :: (0 <= i < |s| && p(s[i]) && Filter(s, p)[0] == s[i]
                         && forall j :: 0 <= j < i ==> !p(s[j]))
  {
    if !p(s[0]) {
      FilterHead(s[1..], p);
      var i :| 0 <= i < |s[1..]| && p(s[1..][i]) && Filter(s[1..], p)[0] == s[1..][i]
        && forall j :: 0 <= j < i ==> !p(s[1..][j]);
      assert p(s[i + 1]) && Filter(s, p)[0] == s[i + 1];
    } else {
      assert Filter(s, p)[0] == s[0];
    }
  }

  /** `stream.flatMap(x -> Stream.of(f(x)))`: the pieces of every element,
      concatenated in stream order. */
  function FlatMap<T(!new), U(!new)>(s: seq<T>, f: T -> seq<U>): (r: seq<U>)
    ensures forall y :: y in r <==> exists x :: x in s && y in f(x)
  {
    if |s| == 0 then []
    else
      var rest := FlatMap(s[1..], f);
      assert forall x :: x in s <==> x == s[0] || x in s[1..];
      f(s[0]) + rest
  }

  lemma FlatMapCons<T(!new), U(!new)>(x: T, s: seq<T>, f: T -> seq<U>)
    ensures FlatMap([x] + s, f) == f(x) + FlatMap(s, f)
  {
    assert ([x] + s)[1..] == s;
  }

  /** `stream.findFirst()`. */
  function FindFirst<T>(s: seq<T>): (r: Option<T>)
    ensures r.None? <==> s == []
    ensures r.Some? ==> r.value == s[0]
  {
    if |s| == 0 then None else Some(s[0])
  }

  /** `stream.reduce(identity, f)` on a sequential stream: a left fold. */
  function Reduce<T>(identity: T, s: seq<T>, f: (T, T) -> T): T
  {
    if |s| == 0 then identity else Reduce(f(identity, s[0]), s[1..], f)
  }
}
