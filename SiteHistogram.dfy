/** The location statistics of `handleYears`: the sites of the flights
    grouped by identity and counted, and that map's entries listed with the
    largest count first. */
module SiteHistogram {

  /** `Collectors.groupingBy(Function.identity(), Collectors.counting())`:
      every site that occurs, mapped to the number of its occurrences. */
  function Histogram(sites: seq<string>): (h: map<string, nat>)
    ensures forall k :: k in h <==> k in sites
    ensures forall k :: k in h ==> h[k] == multiset(sites)[k]
  {
    if |sites| == 0 then map[]
    else
      var init, last := sites[..|sites| - 1], sites[|sites| - 1];
      assert sites == init + [last];
      var h := Histogram(init);
      h[last := (if last in h then h[last] else 0) + 1]
  }

  /** The distinct elements of `s`, each once, in order of first occurrence. */
  function Distinct(s: seq<string>): (r: seq<string>)
    ensures forall k :: k in r <==> k in s
    ensures forall i, j :: 0 <= i < j < |r| ==> r[i] != r[j]
  {
    if |s| == 0 then []
    else
      var init, last := s[..|s| - 1], s[|s| - 1];
      assert s == init + [last];
      var r := Distinct(init);
      if last in r then r else r + [last]
  }

  /** A map entry: a site and its count. */
  type Entry = (string, nat)

  /** The entries of `h` for the keys `keys`, in that order. */
  function Entries(keys: seq<string>, h: map<string, nat>): (r: seq<Entry>)
    requires forall k :: k in keys ==> k in h
    ensures |r| == |keys|
    ensures forall i :: 0 <= i < |r| ==> r[i] == (keys[i], h[keys[i]])
  {
    if |keys| == 0 then [] else [(keys[0], h[keys[0]])] + Entries(keys[1..], h)
  }

  /** Counts never increase along the listing. */
  predicate ByCountDescending(r: seq<Entry>) {
    forall i, j :: 0 <= i < j < |r| ==> r[i].1 >= r[j].1
  }

  /** Inserts `e` after every entry with a larger count and before the
      first entry whose count is not larger. */
  function Insert(e: Entry, r: seq<Entry>): (q: seq<Entry>)
    ensures forall x :: x in q ==> x in r || x == e
    ensures multiset(q) == multiset(r) + multiset{e}
  {
    if |r| == 0 then [e]
    else if r[0].1 > e.1 then
      assert r == [r[0]] + r[1..];
      [r[0]] + Insert(e, r[1..])
    else
      [e] + r
  }

  /** Insertion keeps a listing ordered by count. */
  lemma {:induction false} InsertSorted(e: Entry, r: seq<Entry>)
    requires ByCountDescending(r)
    ensures ByCountDescending(Insert(e, r))
  {
    if |r| > 0 && r[0].1 > e.1 {
      InsertSorted(e, r[1..]);
      var rest := Insert(e, r[1..]);
      assert forall x :: x in r[1..] ==> x.1 <= r[0].1;
      assert forall j :: 0 <= j < |rest| ==> rest[j] in rest;
    }
  }

  /** `sorted((e1, e2) -> e2.getValue().compareTo(e1.getValue()))`: the
      entries rearranged so that counts never increase. Each entry goes in
      before the already sorted later entries of equal count, so entries of
      equal count keep their input order (`SortByCountStable`). */
  function SortByCount(r: seq<Entry>): (q: seq<Entry>)
    ensures ByCountDescending(q)
    ensures multiset(q) == multiset(r)
  {
    if |r| == 0 then []
    else
      assert r == [r[0]] + r[1..];
      InsertSorted(r[0], SortByCount(r[1..]));
      Insert(r[0], SortByCount(r[1..]))
  }

  /** The entries of `r` whose count is `c`, in the order of `r`. */
  function WithCount(r: seq<Entry>, c: nat): seq<Entry> {
    if |r| == 0 then [] else (if r[0].1 == c then [r[0]] else []) + WithCount(r[1..], c)
  }

  lemma WithCountCons(x: Entry, r: seq<Entry>, c: nat)
    ensures WithCount([x] + r, c) == (if x.1 == c then [x] else []) + WithCount(r, c)
  {
    assert ([x] + r)[0] == x && ([x] + r)[1..] == r;
  }

  /** Insertion passes over entries of other counts only, so among the
      entries of any one count it puts `e` first. */
  lemma {:induction false} InsertWithCount(e: Entry, r: seq<Entry>, c: nat)
    ensures WithCount(Insert(e, r), c) == WithCount([e] + r, c)
  {
    if |r| > 0 && r[0].1 > e.1 {
      var rest := r[1..];
      assert r == [r[0]] + rest;
      InsertWithCount(e, rest, c);
      WithCountCons(r[0], Insert(e, rest), c);
      WithCountCons(e, rest, c);
      WithCountCons(e, r, c);
      WithCountCons(r[0], rest, c);
    }
  }

  /** The sort is stable: for every count, the entries with that count come
      out in the order they went in. */
  lemma {:induction false} SortByCountStable(r: seq<Entry>, c: nat)
    ensures WithCount(SortByCount(r), c) == WithCount(r, c)
  {
    if |r| > 0 {
      var sorted := SortByCount(r[1..]);
      SortByCountStable(r[1..], c);
      InsertWithCount(r[0], sorted, c);
      WithCountCons(r[0], sorted, c);
      WithCountCons(r[0], r[1..], c);
      assert r == [r[0]] + r[1..];
    }
  }

  /** The sum of the counts of a listing. */
  function CountSum(r: seq<Entry>): nat {
    if |r| == 0 then 0 else r[0].1 + CountSum(r[1..])
  }

  /** The location listing of `handleYears` for the sites of its flights. */
  function Listing(sites: seq<string>): seq<Entry> {
    var h := Histogram(sites);
    SortByCount(Entries(Distinct(sites), h))
  }

  /** The listing has counts that never increase; it holds every site that
      occurs exactly once, paired with its number of occurrences, and
      nothing else; and its counts add up to the number of flights. */
  lemma ListingIsSortedHistogram(sites: seq<string>)
    ensures var r := Listing(sites);
      && ByCountDescending(r)
      && (forall k :: k in sites ==> multiset(r)[(k, multiset(sites)[k])] == 1)
      && (forall e :: e in r ==> e.0 in sites && e.1 == multiset(sites)[e.0])
      && CountSum(r) == |sites|
  {
    var h := Histogram(sites);
    var keys := Distinct(sites);
    var es := Entries(keys, h);
    var r := Listing(sites);
    assert multiset(r) == multiset(es);
    forall e | e in r ensures e.0 in sites && e.1 == multiset(sites)[e.0] {
      assert e in multiset(es);
    }
    forall k | k in sites ensures multiset(r)[(k, multiset(sites)[k])] == 1 {
      var i :| 0 <= i < |keys| && keys[i] == k;
      EntryOnce(keys, h, i);
    }
    CountSumPermutation(r, es);
    EntriesCountSum(sites);
  }

  /** A key listed once has its entry exactly once among the entries. */
  lemma {:induction false} EntryOnce(keys: seq<string>, h: map<string, nat>, i: nat)
    requires forall k :: k in keys ==> k in h
    requires forall a, b :: 0 <= a < b < |keys| ==> keys[a] != keys[b]
    requires i < |keys|
    ensures multiset(Entries(keys, h))[(keys[i], h[keys[i]])] == 1
  {
    var es := Entries(keys, h);
    assert es == [es[0]] + Entries(keys[1..], h);
    if i == 0 {
      NoEntryFor(keys[1..], h, keys[0]);
    } else {
      EntryOnce(keys[1..], h, i - 1);
      assert keys[0] != keys[i];
    }
  }

  lemma {:induction false} NoEntryFor(keys: seq<string>, h: map<string, nat>, k: string)
    requires forall x :: x in keys ==> x in h
    requires k !in keys
    ensures multiset(Entries(keys, h))[(k, h[k])] == 0 || k !in h
  {
    if |keys| > 0 {
      var es := Entries(keys, h);
      assert es == [es[0]] + Entries(keys[1..], h);
      NoEntryFor(keys[1..], h, k);
    }
  }

  /** Rearranging a listing does not change the sum of its counts. */
  lemma {:induction false} CountSumPermutation(a: seq<Entry>, b: seq<Entry>)
    requires multiset(a) == multiset(b)
    ensures CountSum(a) == CountSum(b)
    decreases |a|
  {
    if |a| > 0 {
      assert a[0] in multiset(b);
      var j :| 0 <= j < |b| && b[j] == a[0];
      var rest := b[..j] + b[j + 1..];
      SameAfterRemoval(a, b, j);
      CountSumPermutation(a[1..], rest);
      CountSumRemove(b, j);
    }
  }

  /** Taking the first entry out of one listing and an equal entry out of
      a rearrangement leaves rearrangements. */
  lemma SameAfterRemoval(a: seq<Entry>, b: seq<Entry>, j: nat)
    requires multiset(a) == multiset(b) && |a| > 0 && j < |b| && b[j] == a[0]
    ensures multiset(a[1..]) == multiset(b[..j] + b[j + 1..])
  {
    assert a == [a[0]] + a[1..];
    assert multiset(a[1..]) == multiset(a) - multiset{a[0]};
    var rest := b[..j] + b[j + 1..];
    assert b == b[..j] + [b[j]] + b[j + 1..];
    assert multiset(b) == multiset(rest) + multiset{b[j]};
  }

  /** Taking one entry out of a listing takes its count off the sum. */
  lemma CountSumRemove(b: seq<Entry>, j: nat)
    requires j < |b|
    ensures CountSum(b) == b[j].1 + CountSum(b[..j] + b[j + 1..])
  {
    assert b == b[..j] + ([b[j]] + b[j + 1..]);
    CountSumAppend(b[..j], [b[j]] + b[j + 1..]);
    CountSumAppend(b[..j], b[j + 1..]);
  }

  /** The counts of the histogram, one per distinct site, add up to the
      number of sites. */
  lemma {:induction false} EntriesCountSum(sites: seq<string>)
    ensures CountSum(Entries(Distinct(sites), Histogram(sites))) == |sites|
    decreases |sites|
  {
    if |sites| > 0 {
      var init, x := sites[..|sites| - 1], sites[|sites| - 1];
      assert sites == init + [x];
      var h, keys := Histogram(init), Distinct(init);
      EntriesCountSum(init);
      if x in keys {
        assert Distinct(sites) == keys;
        EntriesBump(keys, h, x);
      } else {
        assert Distinct(sites) == keys + [x];
        var h' := Histogram(sites);
        assert h' == h[x := 1];
        EntriesOtherKey(keys, h, x, 1);
        EntriesAppend(keys, x, h');
        CountSumAppend(Entries(keys, h'), [(x, 1)]);
      }
    }
  }

  /** Raising the count of one listed key by one raises the sum by one. */
  lemma {:induction false} EntriesBump(keys: seq<string>, h: map<string, nat>, x: string)
    requires forall k :: k in keys ==> k in h
    requires forall a, b :: 0 <= a < b < |keys| ==> keys[a] != keys[b]
    requires x in keys
    ensures CountSum(Entries(keys, h[x := h[x] + 1])) == CountSum(Entries(keys, h)) + 1
  {
    var h' := h[x := h[x] + 1];
    if keys[0] == x {
      assert x !in keys[1..];
      EntriesOtherKey(keys[1..], h, x, h[x] + 1);
    } else {
      EntriesBump(keys[1..], h, x);
    }
  }

  /** The entries of keys other than `x` do not see a change at `x`. */
  lemma EntriesOtherKey(keys: seq<string>, h: map<string, nat>, x: string, v: nat)
    requires forall k :: k in keys ==> k in h
    requires x !in keys
    ensures Entries(keys, h[x := v]) == Entries(keys, h)
  {
  }

  lemma EntriesAppend(keys: seq<string>, x: string, h: map<string, nat>)
    requires forall k :: k in keys ==> k in h
    requires x in h
    ensures Entries(keys + [x], h) == Entries(keys, h) + [(x, h[x])]
  {
  }

  lemma {:induction false} CountSumAppend(a: seq<Entry>, b: seq<Entry>)
    ensures CountSum(a + b) == CountSum(a) + CountSum(b)
  {
    if |a| > 0 {
      assert (a + b)[1..] == a[1..] + b;
      CountSumAppend(a[1..], b);
    } else {
      assert a + b == b;
    }
  }
}
