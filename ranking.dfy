/**
 * The ranking done by `ContributorsRepository.__init__`: keep the
 * contributors whose login is not in the exclude list, stable-sort them by
 * contribution count in the chosen direction, and keep the first `limit`.
 *
 * Python's `sorted` is stable in both directions: `reverse=True` orders by
 * descending key and still keeps equal keys in input order. The model gives
 * that sort as an insertion sort (StableSort) and proves the properties that
 * characterise it: ordered, a permutation, and, for every key, the entries
 * with that key in their input order. StableSortUnique shows these determine
 * the result, so any stable sort yields the same sequence.
 */
module Ranking {

  /** A `Contributor` object: login, profile URL and contribution count. */
  datatype Contributor = Contributor(login: string, url: string, contributions: int)

  /** The contributors whose login is not excluded, in input order, duplicates included. */
  function Filter(cs: seq<Contributor>, exclude: seq<string>): (r: seq<Contributor>)
    ensures |r| <= |cs| && multiset(r) <= multiset(cs)
    ensures forall c :: c in r <==> c in cs && c.login !in exclude
    ensures forall c :: multiset(r)[c] == if c.login in exclude then 0 else multiset(cs)[c]
  {
    if cs == [] then []
    else
      assert cs == [cs[0]] + cs[1..];
      if cs[0].login in exclude then Filter(cs[1..], exclude)
      else [cs[0]] + Filter(cs[1..], exclude)
  }

  /** `a` may come before `b` in a list sorted in the given direction. */
  predicate Precedes(a: Contributor, b: Contributor, descending: bool) {
    if descending then a.contributions >= b.contributions else a.contributions <= b.contributions
  }

  predicate Sorted(s: seq<Contributor>, descending: bool) {
    forall i, j :: 0 <= i < j < |s| ==> Precedes(s[i], s[j], descending)
  }

  /** The entries of `s` whose count is `k`, in the order they have in `s`. */
  function WithCount(s: seq<Contributor>, k: int): seq<Contributor>
  {
    if s == [] then []
    else if s[0].contributions == k then [s[0]] + WithCount(s[1..], k)
    else WithCount(s[1..], k)
  }

  /**
   * Inserts `x` before the first entry it may precede. Every entry it passes
   * has a strictly better count, so `x` lands before all entries of equal count.
   */
  function Insert(x: Contributor, t: seq<Contributor>, descending: bool): (r: seq<Contributor>)
    ensures multiset(r) == multiset{x} + multiset(t)
  {
    if t == [] then [x]
    else if Precedes(x, t[0], descending) then [x] + t
    else
      assert t == [t[0]] + t[1..];
      [t[0]] + Insert(x, t[1..], descending)
  }

  /** Python's stable sort of `s` by contribution count, highest first when `descending`. */
  function StableSort(s: seq<Contributor>, descending: bool): (r: seq<Contributor>)
    ensures multiset(r) == multiset(s)
  {
    if s == [] then []
    else
      assert s == [s[0]] + s[1..];
      Insert(s[0], StableSort(s[1..], descending), descending)
  }

  /** The first `limit` entries of `s`, or all of them when there are fewer. */
  function Take(s: seq<Contributor>, limit: nat): (r: seq<Contributor>)
    ensures |r| == if limit < |s| then limit else |s|
    ensures r <= s
  {
    if limit < |s| then s[..limit] else s
  }

  /** The ranked list a `ContributorsRepository` holds. */
  function Rank(cs: seq<Contributor>, descending: bool, limit: nat, exclude: seq<string>): (r: seq<Contributor>)
    requires limit > 0
    ensures |r| <= limit
    ensures forall c :: c in r ==> c in cs && c.login !in exclude
  {
    var kept := Filter(cs, exclude);
    StableSortMembers(kept, descending);
    Take(StableSort(kept, descending), limit)
  }

  lemma StableSortMembers(s: seq<Contributor>, descending: bool)
    ensures forall c :: c in StableSort(s, descending) <==> c in s
  {
    var r := StableSort(s, descending);
    forall c ensures c in r <==> c in s {
      assert c in r <==> c in multiset(r);
      assert c in s <==> c in multiset(s);
    }
  }

  // ---- the sort ----

  lemma {:induction false} InsertSorted(x: Contributor, t: seq<Contributor>, descending: bool)
    requires Sorted(t, descending)
    ensures Sorted(Insert(x, t, descending), descending)
  {
    if t != [] && !Precedes(x, t[0], descending) {
      var rest := Insert(x, t[1..], descending);
      InsertSorted(x, t[1..], descending);
      assert x in multiset(rest);
      forall e | e in rest
        ensures Precedes(t[0], e, descending)
      {
        assert e in multiset(rest);
        assert e == x || e in t[1..];
      }
      SortedCons(t[0], rest, descending);
    }
  }

  /** A sorted list stays sorted when an entry that may precede all of it is put in front. */
  lemma SortedCons(x: Contributor, s: seq<Contributor>, descending: bool)
    requires Sorted(s, descending)
    requires forall e :: e in s ==> Precedes(x, e, descending)
    ensures Sorted([x] + s, descending)
  {
    forall i, j | 0 <= i < j < |s| + 1
      ensures Precedes(([x] + s)[i], ([x] + s)[j], descending)
    {
      assert ([x] + s)[j] == s[j - 1];
      if i > 0 {
        assert ([x] + s)[i] == s[i - 1];
      }
    }
  }

  lemma {:induction false} StableSortSorted(s: seq<Contributor>, descending: bool)
    ensures Sorted(StableSort(s, descending), descending)
  {
    if s != [] {
      StableSortSorted(s[1..], descending);
      InsertSorted(s[0], StableSort(s[1..], descending), descending);
    }
  }

  lemma {:induction false} WithCountAppend(a: seq<Contributor>, b: seq<Contributor>, k: int)
    ensures WithCount(a + b, k) == WithCount(a, k) + WithCount(b, k)
  {
    if a != [] {
      assert (a + b)[0] == a[0];
      assert (a + b)[1..] == a[1..] + b;
      WithCountAppend(a[1..], b, k);
    } else {
      assert a + b == b;
    }
  }

  /** Inserting `x` puts it first among the entries with its count. */
  lemma {:induction false} InsertWithCount(x: Contributor, t: seq<Contributor>, descending: bool, k: int)
    ensures WithCount(Insert(x, t, descending), k)
         == if x.contributions == k then [x] + WithCount(t, k) else WithCount(t, k)
  {
    if t == [] {
    } else if Precedes(x, t[0], descending) {
      WithCountCons(x, t, k);
    } else {
      var rest := Insert(x, t[1..], descending);
      InsertWithCount(x, t[1..], descending, k);
      WithCountCons(t[0], rest, k);
      assert t == [t[0]] + t[1..];
      WithCountCons(t[0], t[1..], k);
    }
  }

  lemma WithCountCons(c: Contributor, s: seq<Contributor>, k: int)
    ensures WithCount([c] + s, k) == if c.contributions == k then [c] + WithCount(s, k) else WithCount(s, k)
  {
    assert ([c] + s)[1..] == s;
  }

  /** Stability: for every count, the entries with that count keep their input order. */
  lemma {:induction false} StableSortWithCount(s: seq<Contributor>, descending: bool, k: int)
    ensures WithCount(StableSort(s, descending), k) == WithCount(s, k)
  {
    if s != [] {
      StableSortWithCount(s[1..], descending, k);
      InsertWithCount(s[0], StableSort(s[1..], descending), descending, k);
    }
  }

  lemma {:induction false} WithCountMembers(s: seq<Contributor>, k: int)
    ensures forall c :: c in WithCount(s, k) <==> c in s && c.contributions == k
    ensures forall c: Contributor :: c.contributions == k ==> multiset(WithCount(s, k))[c] == multiset(s)[c]
  {
    if s != [] {
      WithCountMembers(s[1..], k);
      assert s == [s[0]] + s[1..];
    }
  }

  /** `WithCount(t, c.contributions)` and `WithCount(u, c.contributions)` agreeing for every count gives equal multisets. */
  lemma SameCountsSameMultiset(t: seq<Contributor>, u: seq<Contributor>)
    requires forall k :: WithCount(t, k) == WithCount(u, k)
    ensures multiset(t) == multiset(u)
  {
    forall c
      ensures multiset(t)[c] == multiset(u)[c]
    {
      WithCountMembers(t, c.contributions);
      WithCountMembers(u, c.contributions);
      assert WithCount(t, c.contributions) == WithCount(u, c.contributions);
    }
  }

  /** Two sorted sequences that agree on the order within every count are equal. */
  lemma {:induction false} SortedWithCountsEqual(t: seq<Contributor>, u: seq<Contributor>, descending: bool)
    requires Sorted(t, descending) && Sorted(u, descending)
    requires forall k :: WithCount(t, k) == WithCount(u, k)
    ensures t == u
    decreases |t|
  {
    SameCountsSameMultiset(t, u);
    assert |t| == |multiset(t)| == |multiset(u)| == |u|;
    if t != [] {
      SortedSameHead(t, u, descending);
      forall k' ensures WithCount(t[1..], k') == WithCount(u[1..], k') {
        assert WithCount(t, k') == WithCount(u, k');
        WithCountTail(t, k');
        WithCountTail(u, k');
      }
      SortedWithCountsEqual(t[1..], u[1..], descending);
      assert t == [t[0]] + t[1..] && u == [u[0]] + u[1..];
    }
  }

  /** Sorted lists with the same entries and the same order within every count start alike. */
  lemma SortedSameHead(t: seq<Contributor>, u: seq<Contributor>, descending: bool)
    requires t != [] && u != []
    requires Sorted(t, descending) && Sorted(u, descending)
    requires multiset(t) == multiset(u)
    requires forall k :: WithCount(t, k) == WithCount(u, k)
    ensures t[0] == u[0]
  {
    var a, b := t[0], u[0];
    assert a in multiset(u) && b in multiset(t);
    var i :| 0 <= i < |u| && u[i] == a;
    var j :| 0 <= j < |t| && t[j] == b;
    assert Precedes(b, a, descending) by { if i > 0 { assert Precedes(u[0], u[i], descending); } }
    assert Precedes(a, b, descending) by { if j > 0 { assert Precedes(t[0], t[j], descending); } }
    var k := a.contributions;
    assert b.contributions == k;
    assert WithCount(t, k) == WithCount(u, k);
    assert WithCount(t, k)[0] == a && WithCount(u, k)[0] == b;
  }

  lemma WithCountTail(s: seq<Contributor>, k: int)
    requires s != []
    ensures WithCount(s[1..], k) == if s[0].contributions == k then WithCount(s, k)[1..] else WithCount(s, k)
  {
  }

  /**
   * The stable sort is unique: a sequence that is sorted and keeps every
   * count's entries in input order IS StableSort(s). Python's `sorted`,
   * being stable, therefore returns exactly StableSort(s).
   */
  lemma StableSortUnique(s: seq<Contributor>, t: seq<Contributor>, descending: bool)
    requires Sorted(t, descending)
    requires forall k :: WithCount(t, k) == WithCount(s, k)
    ensures t == StableSort(s, descending)
  {
    StableSortSorted(s, descending);
    forall k ensures WithCount(t, k) == WithCount(StableSort(s, descending), k) {
      StableSortWithCount(s, descending, k);
    }
    SortedWithCountsEqual(t, StableSort(s, descending), descending);
  }

  /**
   * Filtering works element by element: the first contributor is kept exactly
   * when its login is not excluded, ahead of the filter of the rest.
   */
  lemma FilterCons(c: Contributor, s: seq<Contributor>, exclude: seq<string>)
    ensures Filter([c] + s, exclude) == (if c.login in exclude then [] else [c]) + Filter(s, exclude)
  {
    assert ([c] + s)[1..] == s;
  }

  /** The filter of a concatenation is the concatenation of the filters. */
  lemma {:induction false} FilterAppend(a: seq<Contributor>, b: seq<Contributor>, exclude: seq<string>)
    ensures Filter(a + b, exclude) == Filter(a, exclude) + Filter(b, exclude)
  {
    if a == [] {
      assert a + b == b;
    } else {
      var t, head := a[1..], if a[0].login in exclude then [] else [a[0]];
      assert a == [a[0]] + t;
      assert a + b == [a[0]] + (t + b);
      calc {
        Filter(a + b, exclude);
        { FilterCons(a[0], t + b, exclude); }
        head + Filter(t + b, exclude);
        { FilterAppend(t, b, exclude); }
        head + (Filter(t, exclude) + Filter(b, exclude));
        { AppendAssociative(head, Filter(t, exclude), Filter(b, exclude)); }
        (head + Filter(t, exclude)) + Filter(b, exclude);
        { FilterCons(a[0], t, exclude); }
        Filter(a, exclude) + Filter(b, exclude);
      }
    }
  }

  /** Concatenation regroups freely; stated once so that long calculations need not rediscover it. */
  lemma AppendAssociative(x: seq<Contributor>, y: seq<Contributor>, z: seq<Contributor>)
    ensures x + (y + z) == (x + y) + z
  {
  }

  // ---- truncation ----

  lemma {:induction false} WithCountPrefix(s: seq<Contributor>, n: nat, k: int)
    requires n <= |s|
    ensures WithCount(s[..n], k) <= WithCount(s, k)
  {
    if n > 0 {
      assert s[..n][1..] == s[1..][..n - 1];
      WithCountPrefix(s[1..], n - 1, k);
    }
  }

  lemma {:induction false} FilterWithCount(cs: seq<Contributor>, exclude: seq<string>, k: int)
    ensures WithCount(Filter(cs, exclude), k) == Filter(WithCount(cs, k), exclude)
  {
    if cs != [] {
      FilterWithCount(cs[1..], exclude, k);
    }
  }

  // ---- what a ContributorsRepository promises about its list ----

  /**
   * Every ranked entry comes from the input, never more often than it occurs
   * there; with a limit covering every kept entry, the ranking is a
   * permutation of the kept entries.
   */
  lemma RankFromInput(cs: seq<Contributor>, descending: bool, limit: nat, exclude: seq<string>)
    requires limit > 0
    ensures multiset(Rank(cs, descending, limit, exclude)) <= multiset(cs)
    ensures limit >= |Filter(cs, exclude)| ==>
      multiset(Rank(cs, descending, limit, exclude)) == multiset(Filter(cs, exclude))
  {
    var f := Filter(cs, exclude);
    var sorted := StableSort(f, descending);
    var r := Rank(cs, descending, limit, exclude);
    assert |sorted| == |f| by {
      assert |multiset(sorted)| == |multiset(f)|;
    }
    if limit < |sorted| {
      assert sorted == r + sorted[limit..];
      assert multiset(sorted) == multiset(r) + multiset(sorted[limit..]);
    } else {
      assert r == sorted;
    }
  }

  /** Counts never increase (descending) or never decrease (ascending) along the ranking. */
  lemma RankSorted(cs: seq<Contributor>, descending: bool, limit: nat, exclude: seq<string>)
    requires limit > 0
    ensures Sorted(Rank(cs, descending, limit, exclude), descending)
    ensures forall i :: 0 <= i < |Rank(cs, descending, limit, exclude)| - 1 ==>
      var r := Rank(cs, descending, limit, exclude);
      if descending then r[i].contributions >= r[i + 1].contributions
      else r[i].contributions <= r[i + 1].contributions
  {
    StableSortSorted(Filter(cs, exclude), descending);
    var r := Rank(cs, descending, limit, exclude);
    forall i | 0 <= i < |r| - 1
      ensures Precedes(r[i], r[i + 1], descending)
    {
    }
  }

  /**
   * Stability under truncation: among the contributors with count k, the
   * ranked ones are the first non-excluded ones, in input order.
   */
  lemma RankStable(cs: seq<Contributor>, descending: bool, limit: nat, exclude: seq<string>, k: int)
    requires limit > 0
    ensures WithCount(Rank(cs, descending, limit, exclude), k) <= Filter(WithCount(cs, k), exclude)
    ensures limit >= |Filter(cs, exclude)| ==>
      WithCount(Rank(cs, descending, limit, exclude), k) == Filter(WithCount(cs, k), exclude)
  {
    var f := Filter(cs, exclude);
    var sorted := StableSort(f, descending);
    assert |sorted| == |f| by {
      assert |multiset(sorted)| == |multiset(f)|;
    }
    StableSortWithCount(f, descending, k);
    FilterWithCount(cs, exclude, k);
    if limit < |sorted| {
      WithCountPrefix(sorted, limit, k);
    }
  }

  /** The ranking has min(limit, kept) entries and is a prefix of the sorted kept entries. */
  lemma RankLength(cs: seq<Contributor>, descending: bool, limit: nat, exclude: seq<string>)
    requires limit > 0
    ensures var kept := |Filter(cs, exclude)|;
      |Rank(cs, descending, limit, exclude)| == if limit < kept then limit else kept
    ensures Rank(cs, descending, limit, exclude) <= StableSort(Filter(cs, exclude), descending)
  {
  }

  // ---- three contributors: a tie and a leader ----

  /** Excluding nothing that occurs as a login keeps the whole list. */
  lemma {:induction false} FilterKeepsAll(cs: seq<Contributor>, exclude: seq<string>)
    requires forall i :: 0 <= i < |cs| ==> cs[i].login !in exclude
    ensures Filter(cs, exclude) == cs
  {
    if cs != [] {
      FilterKeepsAll(cs[1..], exclude);
    }
  }

  /** `a` and `c` tie below `b`: sorting high to low puts `b` first and keeps `a` ahead of `c`. */
  lemma SortDescendingExample(a: Contributor, b: Contributor, c: Contributor)
    requires a.contributions == c.contributions < b.contributions
    ensures StableSort([a, b, c], true) == [b, a, c]
  {
    assert [a, b, c][1..] == [b, c];
    assert [b, c][1..] == [c];
    assert StableSort([c], true) == [c];
    assert StableSort([b, c], true) == [b, c];
    assert Insert(a, [c], true) == [a, c];
  }

  /** Sorting low to high keeps the tied `a` ahead of `c`, then puts `b` last. */
  lemma SortAscendingExample(a: Contributor, b: Contributor, c: Contributor)
    requires a.contributions == c.contributions < b.contributions
    ensures StableSort([a, b, c], false) == [a, c, b]
  {
    assert [a, b, c][1..] == [b, c];
    assert [b, c][1..] == [c];
    assert StableSort([c], false) == [c];
    assert Insert(b, [c], false) == [c] + Insert(b, [], false);
    assert StableSort([b, c], false) == [c, b];
  }

  /** For example alice(5), bob(12), carol(5) ranks as bob, alice, carol. */
  lemma RankTieExample(a: Contributor, b: Contributor, c: Contributor)
    requires a.contributions == c.contributions < b.contributions
    ensures Rank([a, b, c], true, 10, []) == [b, a, c]
  {
    assert StableSort(Filter([a, b, c], []), true) == [b, a, c] by {
      assert Filter([a, b, c], []) == [a, b, c] by { FilterKeepsAll([a, b, c], []); }
      SortDescendingExample(a, b, c);
    }
  }

  /** `[:1]` of a non-empty list is its first entry. */
  lemma TakeFirst(s: seq<Contributor>)
    requires s != []
    ensures Take(s, 1) == [s[0]]
  {
  }

  /** With a limit of 1 only the leader is kept. */
  lemma RankLimitExample(a: Contributor, b: Contributor, c: Contributor)
    requires a.contributions == c.contributions < b.contributions
    ensures Rank([a, b, c], true, 1, []) == [b]
  {
    assert StableSort(Filter([a, b, c], []), true) == [b, a, c] by {
      assert Filter([a, b, c], []) == [a, b, c] by { FilterKeepsAll([a, b, c], []); }
      SortDescendingExample(a, b, c);
    }
    TakeFirst([b, a, c]);
  }

  /** Ascending, with the default exclusion list `[""]`, which no real login matches. */
  lemma RankAscendingExample(a: Contributor, b: Contributor, c: Contributor)
    requires a.contributions == c.contributions < b.contributions
    requires a.login != "" && b.login != "" && c.login != ""
    ensures Rank([a, b, c], false, 10, [""]) == [a, c, b]
  {
    assert StableSort(Filter([a, b, c], [""]), false) == [a, c, b] by {
      assert Filter([a, b, c], [""]) == [a, b, c] by { FilterKeepsAll([a, b, c], [""]); }
      SortAscendingExample(a, b, c);
    }
  }

  /** Excluding the leader's login leaves the tied pair, in input order. */
  lemma RankExcludeExample(a: Contributor, b: Contributor, c: Contributor)
    requires a.contributions == c.contributions < b.contributions
    requires a.login != b.login && c.login != b.login
    ensures Rank([a, b, c], true, 10, [b.login]) == [a, c]
  {
    assert StableSort(Filter([a, b, c], [b.login]), true) == [a, c] by {
      FilterOneOutExample(a, b, c);
      SortTiedPairExample(a, c);
    }
  }

  /** Two tied contributors stay in input order. */
  lemma SortTiedPairExample(a: Contributor, c: Contributor)
    requires a.contributions == c.contributions
    ensures StableSort([a, c], true) == [a, c]
  {
    assert [a, c][1..] == [c];
    assert StableSort([c], true) == [c];
  }

  /** Excluding `b`'s login drops `b` and keeps the others in order. */
  lemma FilterOneOutExample(a: Contributor, b: Contributor, c: Contributor)
    requires a.login != b.login && c.login != b.login
    ensures Filter([a, b, c], [b.login]) == [a, c]
  {
    var exclude := [b.login];
    assert a.login !in exclude && b.login in exclude && c.login !in exclude;
    assert Filter([c], exclude) == [c] by { assert [c][1..] == []; }
    assert Filter([b, c], exclude) == [c] by { assert [b, c][1..] == [c]; }
    assert [a, b, c][1..] == [b, c];
  }
}
