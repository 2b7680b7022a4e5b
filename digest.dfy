/**
 * The digest built from everything the accounts' walks sent: sorted newest
 * release first, then only the first repository of each `databaseId` kept,
 * then cut to the configured number of entries. The vector the program
 * sorts, filters and truncates in place is an array and a length.
 */
module Digest {
  import opened Graphql

  /** The number of releases in the digest when `RF_RELEASES_COUNT` is not set. */
  const DefaultMaxReleases: nat := 50

  /** Every collected repository has a latest release (the filter saw to that); the sort's comparator relies on it. */
  predicate AllReleased(s: seq<Repository>) {
    forall x :: x in s ==> x.latestRelease.Some?
  }

  /** The sort key: the latest release's timestamp. */
  function Recency(r: Repository): int
    requires r.latestRelease.Some?
  {
    Timestamp(r.latestRelease.value)
  }

  /** Newest release first; entries with equal timestamps in any order. */
  predicate SortedByRecency(s: seq<Repository>) {
    && AllReleased(s)
    && forall i, j :: 0 <= i < j < |s| ==> Recency(s[i]) >= Recency(s[j])
  }

  /** The repository ids that occur in `s`. */
  function Ids(s: seq<Repository>): set<int> {
    set x | x in s :: x.databaseId
  }

  predicate UniqueIds(s: seq<Repository>) {
    forall i, j :: 0 <= i < j < |s| ==> s[i].databaseId != s[j].databaseId
  }

  lemma IdsSnoc(s: seq<Repository>, x: Repository)
    ensures Ids(s + [x]) == Ids(s) + {x.databaseId}
  {
    assert forall y :: y in s + [x] <==> y in s || y == x;
  }

  /** What `retain` with a set of seen ids keeps: each entry whose id has not occurred before it. */
  function FirstOfEachId(s: seq<Repository>): seq<Repository> {
    if s == [] then []
    else
      var init, last := s[..|s| - 1], s[|s| - 1];
      if last.databaseId in Ids(init) then FirstOfEachId(init) else FirstOfEachId(init) + [last]
  }

  lemma FirstOfEachIdSnoc(init: seq<Repository>, x: Repository)
    ensures FirstOfEachId(init + [x])
      == if x.databaseId in Ids(init) then FirstOfEachId(init) else FirstOfEachId(init) + [x]
  {
    assert (init + [x])[..|init|] == init;
  }

  /** One step of `retain`: what is kept and the ids seen after looking at `s[i]`. */
  lemma RetainStep(s: seq<Repository>, i: nat, kept: seq<Repository>, seen: set<int>)
    requires i < |s| && kept == FirstOfEachId(s[..i]) && seen == Ids(s[..i])
    ensures FirstOfEachId(s[..i + 1]) == if s[i].databaseId in seen then kept else kept + [s[i]]
    ensures Ids(s[..i + 1]) == seen + {s[i].databaseId}
  {
    assert s[..i + 1] == s[..i] + [s[i]];
    IdsSnoc(s[..i], s[i]);
    FirstOfEachIdSnoc(s[..i], s[i]);
  }

  /** The index of the first entry of `s` with the given id. */
  function FirstIndex(s: seq<Repository>, id: int): (i: nat)
    requires id in Ids(s)
    ensures i < |s| && s[i].databaseId == id
    ensures forall j :: 0 <= j < i ==> s[j].databaseId != id
  {
    var init := s[..|s| - 1];
    assert s == init + [s[|s| - 1]];
    IdsSnoc(init, s[|s| - 1]);
    if id in Ids(init) then FirstIndex(init, id) else |s| - 1
  }

  /** A first index found in a prefix is still the first one once an entry is appended. */
  lemma FirstIndexSnoc(init: seq<Repository>, last: Repository, id: int)
    requires id in Ids(init)
    ensures id in Ids(init + [last]) && FirstIndex(init + [last], id) == FirstIndex(init, id)
  {
    IdsSnoc(init, last);
    assert (init + [last])[..|init|] == init;
  }

  /** Deduplication keeps only entries of the input. */
  lemma {:induction false} FirstOfEachIdSubset(s: seq<Repository>)
    ensures forall x :: x in FirstOfEachId(s) ==> x in s
  {
    if s != [] {
      var init, last := s[..|s| - 1], s[|s| - 1];
      FirstOfEachIdSubset(init);
      assert s == init + [last];
    }
  }

  /** Deduplication loses no id. */
  lemma {:induction false} FirstOfEachIdSameIds(s: seq<Repository>)
    ensures Ids(FirstOfEachId(s)) == Ids(s)
  {
    if s != [] {
      var init, last := s[..|s| - 1], s[|s| - 1];
      FirstOfEachIdSameIds(init);
      assert s == init + [last];
      IdsSnoc(init, last);
      if last.databaseId !in Ids(init) {
        IdsSnoc(FirstOfEachId(init), last);
      }
    }
  }

  /** Deduplication leaves no id twice. */
  lemma {:induction false} FirstOfEachIdUnique(s: seq<Repository>)
    ensures UniqueIds(FirstOfEachId(s))
  {
    if s != [] {
      var init, last := s[..|s| - 1], s[|s| - 1];
      var r := FirstOfEachId(init);
      FirstOfEachIdUnique(init);
      if last.databaseId !in Ids(init) {
        FirstOfEachIdSameIds(init);
        assert forall k :: 0 <= k < |r| ==> r[k] in r;
      }
    }
  }

  /** With no id twice there are as many distinct ids as entries. */
  lemma {:induction false} UniqueIdsCount(s: seq<Repository>)
    requires UniqueIds(s)
    ensures |Ids(s)| == |s|
  {
    if s != [] {
      var init, last := s[..|s| - 1], s[|s| - 1];
      assert s == init + [last];
      UniqueIdsCount(init);
      IdsSnoc(init, last);
      forall x | x in init
        ensures x.databaseId != last.databaseId
      {
        var j :| 0 <= j < |init| && init[j] == x;
        assert s[j] == x;
      }
    }
  }

  /** So the deduplicated sequence has exactly one entry per distinct id. */
  lemma FirstOfEachIdLength(s: seq<Repository>)
    ensures |FirstOfEachId(s)| == |Ids(s)|
  {
    FirstOfEachIdUnique(s);
    FirstOfEachIdSameIds(s);
    UniqueIdsCount(FirstOfEachId(s));
  }

  /** Every entry deduplication keeps is the first entry of `s` with its id. */
  lemma {:induction false} FirstOfEachIdKeepsFirsts(s: seq<Repository>)
    ensures forall k :: 0 <= k < |FirstOfEachId(s)| ==> FirstOfEachId(s)[k].databaseId in Ids(s)
    ensures forall k :: 0 <= k < |FirstOfEachId(s)| ==>
      FirstOfEachId(s)[k] == s[FirstIndex(s, FirstOfEachId(s)[k].databaseId)]
  {
    if s != [] {
      var init, last := s[..|s| - 1], s[|s| - 1];
      var r := FirstOfEachId(init);
      FirstOfEachIdKeepsFirsts(init);
      assert s == init + [last];
      IdsSnoc(init, last);
      forall k | 0 <= k < |r| ensures FirstIndex(s, r[k].databaseId) == FirstIndex(init, r[k].databaseId) {
        FirstIndexSnoc(init, last, r[k].databaseId);
      }
    }
  }

  /** The first entry of every id is kept. */
  lemma {:induction false} FirstOfEachIdKeepsEveryFirst(s: seq<Repository>)
    ensures forall id :: id in Ids(s) ==> s[FirstIndex(s, id)] in FirstOfEachId(s)
  {
    if s != [] {
      var init, last := s[..|s| - 1], s[|s| - 1];
      FirstOfEachIdKeepsEveryFirst(init);
      assert s == init + [last];
      IdsSnoc(init, last);
      forall id | id in Ids(s) ensures s[FirstIndex(s, id)] in FirstOfEachId(s) {
        if id in Ids(init) {
          FirstIndexSnoc(init, last, id);
        }
      }
    }
  }

  /** Kept entries stay in the order of their first occurrence. */
  lemma {:induction false} FirstOfEachIdKeepsOrder(s: seq<Repository>)
    ensures forall k :: 0 <= k < |FirstOfEachId(s)| ==> FirstOfEachId(s)[k].databaseId in Ids(s)
    ensures forall k, l :: 0 <= k < l < |FirstOfEachId(s)| ==>
      FirstIndex(s, FirstOfEachId(s)[k].databaseId) < FirstIndex(s, FirstOfEachId(s)[l].databaseId)
  {
    FirstOfEachIdKeepsFirsts(s);
    if s != [] {
      var init, last := s[..|s| - 1], s[|s| - 1];
      var r := FirstOfEachId(init);
      FirstOfEachIdKeepsOrder(init);
      assert s == init + [last];
      IdsSnoc(init, last);
      forall k | 0 <= k < |r| ensures FirstIndex(s, r[k].databaseId) == FirstIndex(init, r[k].databaseId) < |init| {
        FirstIndexSnoc(init, last, r[k].databaseId);
      }
    }
  }

  /** Deduplication leaves a sorted input sorted. */
  lemma {:induction false} FirstOfEachIdSorted(s: seq<Repository>)
    requires SortedByRecency(s)
    ensures SortedByRecency(FirstOfEachId(s))
  {
    FirstOfEachIdSubset(s);
    if s != [] {
      var init, last := s[..|s| - 1], s[|s| - 1];
      var r := FirstOfEachId(init);
      assert SortedByRecency(init);
      FirstOfEachIdSorted(init);
      FirstOfEachIdSubset(init);
      if last.databaseId !in Ids(init) {
        forall k | 0 <= k < |r| ensures Recency(r[k]) >= Recency(last) {
          assert r[k] in init;
          var j :| 0 <= j < |init| && init[j] == r[k];
          assert s[j] == init[j];
        }
      }
    }
  }

  /** On a sorted input, the entry kept for an id is at least as new as every entry with that id. */
  lemma {:induction false} FirstOfEachIdNewest(s: seq<Repository>)
    requires SortedByRecency(s)
    ensures AllReleased(FirstOfEachId(s))
    ensures forall x, y :: x in FirstOfEachId(s) && y in s && y.databaseId == x.databaseId ==> Recency(y) <= Recency(x)
  {
    FirstOfEachIdSubset(s);
    if s != [] {
      var init, last := s[..|s| - 1], s[|s| - 1];
      assert SortedByRecency(init);
      FirstOfEachIdNewest(init);
      FirstOfEachIdSubset(init);
      assert s == init + [last];
      forall x, y | x in FirstOfEachId(s) && y in s && y.databaseId == x.databaseId
        ensures Recency(y) <= Recency(x)
      {
        NewestPair(init, last, x, y);
      }
    }
  }

  /** The step of `FirstOfEachIdNewest` for one kept entry `x` and one entry `y` with its id. */
  lemma NewestPair(init: seq<Repository>, last: Repository, x: Repository, y: Repository)
    requires SortedByRecency(init + [last])
    requires forall z :: z in FirstOfEachId(init) ==> z in init
    requires forall x', y' :: x' in FirstOfEachId(init) && y' in init && y'.databaseId == x'.databaseId ==>
      Recency(y') <= Recency(x')
    requires x in FirstOfEachId(init + [last]) && y in init + [last] && y.databaseId == x.databaseId
    ensures Recency(y) <= Recency(x)
  {
    var s := init + [last];
    assert s[..|s| - 1] == init;
    var r := FirstOfEachId(init);
    if x in r {
      if y == last {
        var j :| 0 <= j < |init| && init[j] == x;
        assert s[j] == x;
      } else {
        assert y in init;
      }
    } else {
      assert x == last && last.databaseId !in Ids(init);
      assert y !in init;
    }
  }

  /** The smaller of two lengths. */
  function Min(a: nat, b: nat): nat {
    if a < b then a else b
  }

  /** `Vec::truncate`: the first `max` entries, or all of them when there are fewer. */
  function Truncate(s: seq<Repository>, max: nat): (r: seq<Repository>)
    ensures |r| == Min(|s|, max) && r == s[..|r|]
  {
    if max < |s| then s[..max] else s
  }

  /** A permutation has the same entries and so the same ids. */
  lemma SameEntries(collected: seq<Repository>, sorted: seq<Repository>)
    requires multiset(sorted) == multiset(collected)
    ensures forall x :: x in sorted <==> x in collected
    ensures Ids(sorted) == Ids(collected)
  {
    forall x ensures x in sorted <==> x in collected {
      assert x in sorted <==> x in multiset(sorted);
    }
  }

  /** Truncation keeps a prefix, so order, distinct ids and membership carry over. */
  lemma TruncateKeeps(r: seq<Repository>, max: nat)
    requires SortedByRecency(r) && UniqueIds(r)
    ensures SortedByRecency(Truncate(r, max)) && UniqueIds(Truncate(r, max))
    ensures forall x :: x in Truncate(r, max) ==> x in r
  {
    var t := Truncate(r, max);
    forall x | x in t ensures x in r {
      var k :| 0 <= k < |t| && t[k] == x;
      assert r[k] == x;
    }
  }

  /** On a sorted input, whatever truncation cuts off is no newer than anything it keeps. */
  lemma TruncateDropsOlder(r: seq<Repository>, max: nat)
    requires SortedByRecency(r)
    ensures AllReleased(Truncate(r, max))
    ensures forall x, y :: x in Truncate(r, max) && y in r && y.databaseId !in Ids(Truncate(r, max)) ==>
      Recency(y) <= Recency(x)
    ensures forall i, j :: 0 <= i < |Truncate(r, max)| <= j < |r| ==> Recency(r[j]) <= Recency(r[i])
  {
    var t := Truncate(r, max);
    forall x, y | x in t && y in r && y.databaseId !in Ids(t) ensures Recency(y) <= Recency(x) {
      var k :| 0 <= k < |t| && t[k] == x;
      var m :| 0 <= m < |r| && r[m] == y;
      assert r[k] == x;
    }
  }

  /**
   * The digest of the sorted vector `sorted`, cut to `maxReleases`, is
   * newest first, has no id twice, has one entry per distinct id up to the
   * bound, holds only collected repositories, carries for each id one of
   * its newest releases, and leaves out nothing newer than what it keeps.
   */
  lemma DigestOfSorted(collected: seq<Repository>, sorted: seq<Repository>, maxReleases: nat)
    requires AllReleased(collected)
    requires SortedByRecency(sorted) && multiset(sorted) == multiset(collected)
    ensures var digest := Truncate(FirstOfEachId(sorted), maxReleases);
      && SortedByRecency(digest)
      && UniqueIds(digest)
      && |digest| == Min(|Ids(collected)|, maxReleases)
      && (forall x :: x in digest ==> x in collected)
      && (forall x, y :: x in digest && y in collected && y.databaseId == x.databaseId ==> Recency(y) <= Recency(x))
      && (forall x, y :: x in digest && y in collected && y.databaseId !in Ids(digest) ==> Recency(y) <= Recency(x))
  {
    var r := FirstOfEachId(sorted);
    var digest := Truncate(r, maxReleases);
    SameEntries(collected, sorted);
    FirstOfEachIdSubset(sorted);
    FirstOfEachIdSameIds(sorted);
    FirstOfEachIdUnique(sorted);
    FirstOfEachIdLength(sorted);
    FirstOfEachIdSorted(sorted);
    FirstOfEachIdNewest(sorted);
    TruncateKeeps(r, maxReleases);
    TruncateDropsOlder(r, maxReleases);
    forall x, y | x in digest && y in collected && y.databaseId !in Ids(digest)
      ensures Recency(y) <= Recency(x)
    {
      assert y in sorted;
      assert y.databaseId in Ids(r);
      var z :| z in r && z.databaseId == y.databaseId;
      assert Recency(y) <= Recency(z);
    }
  }

  method Swap(a: array<Repository>, i: nat, j: nat)
    requires i < a.Length && j < a.Length
    modifies a
    ensures a[..] == old(a[..])[i := old(a[j])][j := old(a[i])]
    ensures multiset(a[..]) == multiset(old(a[..]))
  {
    a[i], a[j] := a[j], a[i];
  }

  /**
   * `sort_unstable_by` with the descending-timestamp comparator: a
   * permutation of the vector, newest first. The algorithm (a selection
   * sort) is not the library's; like it, it promises nothing about ties.
   */
  method SortByRecency(a: array<Repository>)
    requires AllReleased(a[..])
    modifies a
    ensures SortedByRecency(a[..])
    ensures multiset(a[..]) == multiset(old(a[..]))
  {
    for i := 0 to a.Length
      invariant multiset(a[..]) == multiset(old(a[..]))
      invariant SelectedUpTo(a[..], i)
    {
      var m := NewestFrom(a, i);
      ghost var before := a[..];
      Swap(a, i, m);
      SelectionStep(before, a[..], i, m);
    }
  }

  /**
   * The selection sort's loop invariant: every entry is released, `s[..i]`
   * is newest first, and nothing in it is older than anything after it.
   */
  predicate SelectedUpTo(s: seq<Repository>, i: nat) {
    && AllReleased(s)
    && i <= |s|
    && (forall p, q :: 0 <= p < q < i ==> Recency(s[p]) >= Recency(s[q]))
    && (forall p, q :: 0 <= p < i <= q < |s| ==> Recency(s[p]) >= Recency(s[q]))
  }

  /** Swapping a newest entry of `s[i..]` into place `i` extends the selected prefix by one. */
  lemma SelectionStep(s: seq<Repository>, t: seq<Repository>, i: nat, m: nat)
    requires SelectedUpTo(s, i) && i <= m < |s|
    requires forall q :: i <= q < |s| ==> Recency(s[m]) >= Recency(s[q])
    requires t == s[i := s[m]][m := s[i]]
    ensures SelectedUpTo(t, i + 1)
  {
    assert forall k :: 0 <= k < |t| ==> t[k] in s;
  }

  /** The index of a newest entry among `a[from..]`. */
  method NewestFrom(a: array<Repository>, from: nat) returns (m: nat)
    requires from < a.Length && AllReleased(a[..])
    ensures from <= m < a.Length
    ensures forall q :: from <= q < a.Length ==> Recency(a[m]) >= Recency(a[q])
  {
    m := from;
    for k := from + 1 to a.Length
      invariant from <= m < a.Length
      invariant forall q :: from <= q < k ==> Recency(a[m]) >= Recency(a[q])
    {
      if Recency(a[k]) > Recency(a[m]) {
        m := k;
      }
    }
  }

  /**
   * `retain` with a closure that inserts each id into a set and keeps the
   * entry when the id was new: the kept entries are moved to the front in
   * order and their number returned.
   */
  method RetainFirstIds(a: array<Repository>) returns (len: nat)
    modifies a
    ensures len <= a.Length
    ensures a[..len] == FirstOfEachId(old(a[..]))
  {
    ghost var s := a[..];
    var foundIds: set<int> := {};
    len := 0;
    for i := 0 to a.Length
      invariant len <= i
      invariant a[..len] == FirstOfEachId(s[..i])
      invariant foundIds == Ids(s[..i])
      invariant forall k :: i <= k < a.Length ==> a[k] == s[k]
    {
      var repo := a[i];
      ghost var kept := a[..len];
      RetainStep(s, i, kept, foundIds);
      var inserted := repo.databaseId !in foundIds;
      foundIds := foundIds + {repo.databaseId};
      if inserted {
        a[len] := repo;
        assert a[..len + 1] == kept + [repo];
        len := len + 1;
      }
    }
    assert s[..a.Length] == s;
  }

  /**
   * The digest steps: sort the collected repositories newest first, keep
   * the first of each id, truncate to `maxReleases`. `sorted` is the vector
   * after the sort, which ties leave open.
   */
  method BuildDigest(collected: seq<Repository>, maxReleases: nat)
    returns (digest: seq<Repository>, ghost sorted: seq<Repository>)
    requires AllReleased(collected)
    ensures SortedByRecency(sorted) && multiset(sorted) == multiset(collected)
    ensures digest == Truncate(FirstOfEachId(sorted), maxReleases)
    ensures SortedByRecency(digest)
    ensures UniqueIds(digest)
    ensures |digest| == Min(|Ids(collected)|, maxReleases)
    ensures forall x :: x in digest ==> x in collected
    ensures forall x, y :: x in digest && y in collected && y.databaseId == x.databaseId ==> Recency(y) <= Recency(x)
    ensures forall x, y :: x in digest && y in collected && y.databaseId !in Ids(digest) ==> Recency(y) <= Recency(x)
  {
    var releases := new Repository[|collected|](i requires 0 <= i < |collected| => collected[i]);
    assert releases[..] == collected;
    SortByRecency(releases);
    sorted := releases[..];
    var len := RetainFirstIds(releases);
    if maxReleases < len {
      len := maxReleases;
    }
    digest := releases[..len];
    DigestOfSorted(collected, sorted, maxReleases);
  }

  /** With the default bound the digest has at most 50 entries. */
  lemma DefaultBound(collected: seq<Repository>, sorted: seq<Repository>)
    requires AllReleased(collected)
    requires SortedByRecency(sorted) && multiset(sorted) == multiset(collected)
    ensures |Truncate(FirstOfEachId(sorted), DefaultMaxReleases)| <= 50
  {
    DigestOfSorted(collected, sorted, DefaultMaxReleases);
  }
}
