/** `resolutionUsageCount`: how often each resolution was applied to each display, and the
    "most used" list the tray menu derives from it. */
module ResolutionUsage {
  import opened Wrappers
  import opened Seqs
  import opened JsObjects

  /** One display's counts: resolution string to number of times applied. */
  type Counts = seq<Entry<int>>

  /** Display persistent id to that display's counts. */
  type UsageTable = seq<Entry<Counts>>

  predicate WellFormedTable(t: UsageTable) {
    UniqueKeys(t) && forall i :: 0 <= i < |t| ==> UniqueKeys(t[i].1)
  }

  /** `usageCounts[persistentId] || {}` */
  function DisplayUsage(t: UsageTable, id: string): Counts {
    Get(t, id).GetOr([])
  }

  /** The recorded count, 0 for a resolution never applied. */
  function UsageCount(t: UsageTable, id: string, res: string): int {
    Get(DisplayUsage(t, id), res).GetOr(0)
  }

  predicate Recorded(t: UsageTable, id: string, res: string) {
    HasKey(DisplayUsage(t, id), res)
  }

  lemma DisplayUsageWellFormed(t: UsageTable, id: string)
    requires WellFormedTable(t)
    ensures UniqueKeys(DisplayUsage(t, id))
  {
    if Get(t, id).Some? {
      GetFound(t, id);
    }
  }

  // ----- trackResolutionUsage -----

  /** `trackResolutionUsage(persistentId, resolution)`: a missing display entry starts as `{}` and a
      missing (or zero) count as 0, and the count goes up by one. A count that is present but 0 ends
      at 1 either way, so the truthiness test reduces to "count + 1". */
  function TrackResolutionUsage(t: UsageTable, id: string, res: string): UsageTable {
    var display := DisplayUsage(t, id);
    Set(t, id, Set(display, res, Get(display, res).GetOr(0) + 1))
  }

  /** Tracking rewrites only the tracked display's entry, to that entry with the count set. */
  lemma TrackDisplays(t: UsageTable, id: string, res: string)
    requires WellFormedTable(t)
    ensures DisplayUsage(TrackResolutionUsage(t, id, res), id)
      == Set(DisplayUsage(t, id), res, Get(DisplayUsage(t, id), res).GetOr(0) + 1)
    ensures forall id' :: id' != id ==> DisplayUsage(TrackResolutionUsage(t, id, res), id') == DisplayUsage(t, id')
  {
    var display := DisplayUsage(t, id);
    SetGet(t, id, Set(display, res, Get(display, res).GetOr(0) + 1));
  }

  /** Exactly one count changes, by exactly one. */
  lemma TrackCounts(t: UsageTable, id: string, res: string)
    requires WellFormedTable(t)
    ensures forall id', res' ::
      (UsageCount(TrackResolutionUsage(t, id, res), id', res') == UsageCount(t, id', res') + if id' == id && res' == res then 1 else 0)
  {
    var display := DisplayUsage(t, id);
    TrackDisplays(t, id, res);
    DisplayUsageWellFormed(t, id);
    SetGet(display, res, Get(display, res).GetOr(0) + 1);
  }

  /** The table stays well formed. */
  lemma TrackWellFormed(t: UsageTable, id: string, res: string)
    requires WellFormedTable(t)
    ensures WellFormedTable(TrackResolutionUsage(t, id, res))
  {
    var display := DisplayUsage(t, id);
    var display' := Set(display, res, Get(display, res).GetOr(0) + 1);
    var t' := TrackResolutionUsage(t, id, res);
    DisplayUsageWellFormed(t, id);
    SetKeys(display, res, Get(display, res).GetOr(0) + 1);
    SetKeys(t, id, display');
    SetEntries(t, id, display');
    forall i | 0 <= i < |t'| ensures UniqueKeys(t'[i].1) {
      if t'[i] != (id, display') {
        assert t'[i] == t[i];
      }
    }
  }

  /** The resolution is recorded afterwards, and so is everything recorded before. */
  lemma TrackRecords(t: UsageTable, id: string, res: string)
    requires WellFormedTable(t)
    ensures Recorded(TrackResolutionUsage(t, id, res), id, res)
    ensures forall id', res' :: Recorded(t, id', res') ==> Recorded(TrackResolutionUsage(t, id, res), id', res')
  {
    var display := DisplayUsage(t, id);
    var display' := Set(display, res, Get(display, res).GetOr(0) + 1);
    TrackDisplays(t, id, res);
    DisplayUsageWellFormed(t, id);
    SetKeys(display, res, Get(display, res).GetOr(0) + 1);
  }

  /** A resolution applied for the first time goes to the end of the display's key order; one
      seen before keeps its place; other displays are untouched. */
  lemma TrackKeyOrder(t: UsageTable, id: string, res: string)
    requires WellFormedTable(t)
    ensures Keys(DisplayUsage(TrackResolutionUsage(t, id, res), id))
      == if Recorded(t, id, res) then Keys(DisplayUsage(t, id)) else Keys(DisplayUsage(t, id)) + [res]
    ensures forall id' :: id' != id ==> DisplayUsage(TrackResolutionUsage(t, id, res), id') == DisplayUsage(t, id')
  {
    var display := DisplayUsage(t, id);
    var display' := Set(display, res, Get(display, res).GetOr(0) + 1);
    DisplayUsageWellFormed(t, id);
    SetKeys(display, res, Get(display, res).GetOr(0) + 1);
    SetGet(t, id, display');
  }

  // ----- Sorting by count, highest first, ties in key order -----

  /** Where an entry with count `e.1` goes: past every leading entry whose count is at least its own. */
  function InsertPos(e: Entry<int>, s: Counts): (k: nat)
    ensures k <= |s|
    ensures forall i :: 0 <= i < k ==> s[i].1 >= e.1
    ensures k < |s| ==> s[k].1 < e.1
  {
    if |s| == 0 || s[0].1 < e.1 then 0
    else 1 + InsertPos(e, s[1..])
  }

  function InsertByCount(e: Entry<int>, s: Counts): Counts {
    s[..InsertPos(e, s)] + [e] + s[InsertPos(e, s)..]
  }

  /** Where each entry lands: the ones before the insertion point stay, the rest move up by one. */
  lemma InsertAt(e: Entry<int>, s: Counts)
    ensures var k := InsertPos(e, s); var r := InsertByCount(e, s);
      |r| == |s| + 1 && r[k] == e
      && (forall i :: 0 <= i < k ==> r[i] == s[i])
      && (forall i :: k < i < |r| ==> r[i] == s[i - 1])
  {
    var k := InsertPos(e, s);
    var before, after := s[..k], s[k..];
    var r := before + [e] + after;
    assert r == InsertByCount(e, s);
    forall i | 0 <= i < k ensures r[i] == s[i] {
      assert r[i] == before[i];
    }
    forall i | k < i < |r| ensures r[i] == s[i - 1] {
      assert r[i] == after[i - k - 1];
    }
  }

  /** `Object.entries(displayUsage).sort((a, b) => b[1] - a[1])`: a stable sort, as
      `Array.prototype.sort` is required to be, written as insertion of each entry in turn. */
  function SortByCount(s: Counts): (r: Counts)
    ensures multiset(r) == multiset(s)
    decreases |s|
  {
    if |s| == 0 then []
    else
      var init, last := s[..|s| - 1], s[|s| - 1];
      var sorted := SortByCount(init);
      var k := InsertPos(last, sorted);
      assert s == init + [last];
      assert sorted == sorted[..k] + sorted[k..];
      InsertByCount(last, sorted)
  }

  predicate SortedByCount(s: Counts) {
    forall i, j :: 0 <= i < j < |s| ==> s[i].1 >= s[j].1
  }

  /** The entries with count `c`, in order: the sort is stable when it keeps each of these lists. */
  function WithCount(s: Counts, c: int): Counts {
    if |s| == 0 then []
    else (if s[0].1 == c then [s[0]] else []) + WithCount(s[1..], c)
  }

  lemma {:induction false} WithCountAppend(a: Counts, b: Counts, c: int)
    ensures WithCount(a + b, c) == WithCount(a, c) + WithCount(b, c)
    decreases |a|
  {
    if |a| > 0 {
      assert (a + b)[1..] == a[1..] + b;
      WithCountAppend(a[1..], b, c);
    } else {
      assert a + b == b;
    }
  }

  lemma {:induction false} WithCountBelow(s: Counts, c: int)
    requires forall i :: 0 <= i < |s| ==> s[i].1 < c
    ensures WithCount(s, c) == []
    decreases |s|
  {
    if |s| > 0 {
      WithCountBelow(s[1..], c);
    }
  }

  /** Entries past the insertion point all count less than the inserted one. */
  lemma InsertPosSplit(e: Entry<int>, s: Counts)
    requires SortedByCount(s)
    ensures forall i :: InsertPos(e, s) <= i < |s| ==> s[i].1 < e.1
    ensures forall i :: 0 <= i < |s[InsertPos(e, s)..]| ==> s[InsertPos(e, s)..][i].1 < e.1
  {
  }

  lemma InsertSorted(e: Entry<int>, s: Counts)
    requires SortedByCount(s)
    ensures SortedByCount(InsertByCount(e, s))
  {
    InsertPosSplit(e, s);
  }

  lemma WithCountSplice(before: Counts, e: Entry<int>, after: Counts, c: int)
    ensures WithCount(before + [e] + after, c) == WithCount(before, c) + (if e.1 == c then [e] else []) + WithCount(after, c)
  {
    WithCountAppend(before + [e], after, c);
    WithCountAppend(before, [e], c);
    assert WithCount([e], c) == if e.1 == c then [e] else [];
  }

  /** Inserting into a sorted list keeps every count's entries in order, the new one last. */
  lemma InsertWithCount(e: Entry<int>, s: Counts, c: int)
    requires forall i :: 0 <= i < |s[InsertPos(e, s)..]| ==> s[InsertPos(e, s)..][i].1 < e.1
    ensures WithCount(InsertByCount(e, s), c) == WithCount(s, c) + if e.1 == c then [e] else []
  {
    var k := InsertPos(e, s);
    var before, after := s[..k], s[k..];
    WithCountSplice(before, e, after, c);
    assert before + after == s;
    WithCountAppend(before, after, c);
    if e.1 == c {
      WithCountBelow(after, c);
    }
  }

  lemma {:induction false} WithCountMembers(s: Counts, c: int)
    ensures forall e :: e in WithCount(s, c) <==> e in s && e.1 == c
    decreases |s|
  {
    if |s| > 0 {
      WithCountMembers(s[1..], c);
      assert s == [s[0]] + s[1..];
    }
  }

  lemma WithCountOfFirst(s: Counts)
    ensures |s| > 0 ==> WithCount(s, s[0].1) != []
  {
  }

  /** Two such orderings start with the same entry: the first entry of either has the highest
      count, and among the entries with that count it comes first in both. */
  lemma StableOrderHeads(a: Counts, b: Counts)
    requires SortedByCount(a) && SortedByCount(b) && |a| > 0 && |b| > 0
    requires WithCount(a, a[0].1) == WithCount(b, a[0].1) && WithCount(a, b[0].1) == WithCount(b, b[0].1)
    ensures a[0] == b[0]
  {
    var c := a[0].1;
    WithCountMembers(a, b[0].1);
    WithCountMembers(b, c);
    assert WithCount(b, b[0].1)[0] == b[0];
    assert WithCount(a, c)[0] == a[0];
  }

  lemma StableOrderTails(a: Counts, b: Counts, c: int)
    requires |a| > 0 && |b| > 0 && a[0] == b[0]
    requires WithCount(a, c) == WithCount(b, c)
    ensures WithCount(a[1..], c) == WithCount(b[1..], c)
  {
    var head := if a[0].1 == c then [a[0]] else [];
    assert WithCount(a, c) == head + WithCount(a[1..], c);
    assert WithCount(b, c) == head + WithCount(b[1..], c);
    assert (head + WithCount(a[1..], c))[|head|..] == WithCount(a[1..], c);
    assert (head + WithCount(b[1..], c))[|head|..] == WithCount(b[1..], c);
  }

  /** Orderings with the same entries per count are both empty or both not. */
  lemma StableOrderEmpty(a: Counts, b: Counts)
    requires forall c :: WithCount(a, c) == WithCount(b, c)
    ensures |a| == 0 <==> |b| == 0
  {
    WithCountOfFirst(a);
    WithCountOfFirst(b);
    if |a| > 0 {
      assert WithCount(a, a[0].1) == WithCount(b, a[0].1);
    }
    if |b| > 0 {
      assert WithCount(a, b[0].1) == WithCount(b, b[0].1);
    }
  }

  lemma SortedTail(s: Counts)
    requires SortedByCount(s) && |s| > 0
    ensures SortedByCount(s[1..])
  {
    assert forall i :: 0 <= i < |s| - 1 ==> s[1..][i] == s[i + 1];
  }

  /** Sorting by count and keeping every count's entries in order pins the result down: any two
      such orderings of a list agree. So every stable sort, whatever algorithm an engine uses for
      `Array.prototype.sort`, gives what `SortByCount` gives. */
  lemma {:induction false} StableOrderUnique(a: Counts, b: Counts)
    requires SortedByCount(a) && SortedByCount(b)
    requires forall c :: WithCount(a, c) == WithCount(b, c)
    ensures a == b
    decreases |a| + |b|
  {
    StableOrderEmpty(a, b);
    if |a| > 0 {
      StableOrderHeads(a, b);
      forall c ensures WithCount(a[1..], c) == WithCount(b[1..], c) {
        StableOrderTails(a, b, c);
      }
      SortedTail(a);
      SortedTail(b);
      StableOrderUnique(a[1..], b[1..]);
      assert a == [a[0]] + a[1..] && b == [b[0]] + b[1..];
    }
  }

  /** The insertion sort is a stable sort, and by `StableOrderUnique` the only one. */
  lemma SortIsStableSort(s: Counts, r: Counts)
    requires SortedByCount(r) && forall c :: WithCount(r, c) == WithCount(s, c)
    ensures r == SortByCount(s)
  {
    SortSorted(s);
    forall c ensures WithCount(r, c) == WithCount(SortByCount(s), c) {
      SortStable(s, c);
    }
    StableOrderUnique(r, SortByCount(s));
  }

  lemma {:induction false} SortSorted(s: Counts)
    ensures SortedByCount(SortByCount(s))
    decreases |s|
  {
    if |s| > 0 {
      SortSorted(s[..|s| - 1]);
      InsertSorted(s[|s| - 1], SortByCount(s[..|s| - 1]));
    }
  }

  lemma {:induction false} SortStable(s: Counts, c: int)
    ensures WithCount(SortByCount(s), c) == WithCount(s, c)
    decreases |s|
  {
    if |s| > 0 {
      var init, last := s[..|s| - 1], s[|s| - 1];
      SortStable(init, c);
      SortSorted(init);
      InsertPosSplit(last, SortByCount(init));
      InsertWithCount(last, SortByCount(init), c);
      WithCountAppend(init, [last], c);
      assert init + [last] == s;
    }
  }

  lemma InsertUniqueKeys(e: Entry<int>, s: Counts)
    requires UniqueKeys(s) && !HasKey(s, e.0)
    ensures UniqueKeys(InsertByCount(e, s))
  {
    var k := InsertPos(e, s);
    var r := InsertByCount(e, s);
    InsertAt(e, s);
    forall i, j | 0 <= i < |r| && 0 <= j < |r| && i != j ensures r[i].0 != r[j].0 {
      var i', j' := if i < k then i else i - 1, if j < k then j else j - 1;
      assert i != k ==> r[i] == s[i'];
      assert j != k ==> r[j] == s[j'];
      assert i == k ==> r[j].0 in Keys(s) by {
        if i == k { assert Keys(s)[j'] == r[j].0; }
      }
      assert j == k ==> r[i].0 in Keys(s) by {
        if j == k { assert Keys(s)[i'] == r[i].0; }
      }
    }
  }

  lemma {:induction false} SortUniqueKeys(s: Counts)
    requires UniqueKeys(s)
    ensures UniqueKeys(SortByCount(s))
    decreases |s|
  {
    if |s| > 0 {
      var init, last := s[..|s| - 1], s[|s| - 1];
      assert UniqueKeys(init);
      SortUniqueKeys(init);
      var sorted := SortByCount(init);
      assert !HasKey(sorted, last.0) by {
        forall i | 0 <= i < |sorted| ensures sorted[i].0 != last.0 {
          assert sorted[i] in multiset(init);
          var j :| 0 <= j < |init| && init[j] == sorted[i];
          assert s[j] == sorted[i];
        }
      }
      InsertUniqueKeys(last, sorted);
    }
  }

  // ----- getMostUsedResolutions -----

  /** The tray menu asks for this many. */
  const MostUsedLimit := 5

  function Min(a: nat, b: nat): nat {
    if a <= b then a else b
  }

  /** `getMostUsedResolutions(persistentId, limit)`: the display's resolutions by count, highest
      first, ties in the order they were first applied, cut to `limit`. */
  function GetMostUsedResolutions(t: UsageTable, id: string, limit: nat): seq<string> {
    var sorted := SortByCount(DisplayUsage(t, id));
    Keys(sorted[..Min(limit, |sorted|)])
  }

  /** An entry of the sorted list is an entry of the display's counts, so its count reads back. */
  lemma SortedEntryCount(t: UsageTable, id: string, i: nat)
    requires WellFormedTable(t)
    requires i < |SortByCount(DisplayUsage(t, id))|
    ensures var e := SortByCount(DisplayUsage(t, id))[i];
      Recorded(t, id, e.0) && UsageCount(t, id, e.0) == e.1
  {
    var display := DisplayUsage(t, id);
    var e := SortByCount(display)[i];
    assert e in multiset(display);
    var j :| 0 <= j < |display| && display[j] == e;
    DisplayUsageWellFormed(t, id);
    GetAt(display, j);
  }

  /** The list holds `limit` resolutions, or all of them when fewer were recorded (none for a
      display without usage); each was recorded for the display, none twice, and the counts do
      not increase along it. */
  lemma MostUsedProperties(t: UsageTable, id: string, limit: nat)
    requires WellFormedTable(t)
    ensures var r := GetMostUsedResolutions(t, id, limit);
      && |r| == Min(limit, |DisplayUsage(t, id)|)
      && (!HasKey(t, id) ==> r == [])
      && NoDups(r)
      && (forall i :: 0 <= i < |r| ==> Recorded(t, id, r[i]))
      && (forall i, j :: 0 <= i < j < |r| ==> UsageCount(t, id, r[i]) >= UsageCount(t, id, r[j]))
  {
    var display := DisplayUsage(t, id);
    var sorted := SortByCount(display);
    var r := GetMostUsedResolutions(t, id, limit);
    assert |sorted| == |display| by {
      assert |multiset(sorted)| == |multiset(display)|;
    }
    if !HasKey(t, id) {
      GetMissing(t, id);
    }
    DisplayUsageWellFormed(t, id);
    SortUniqueKeys(display);
    SortSorted(display);
    forall i | 0 <= i < |r| ensures Recorded(t, id, r[i]) && UsageCount(t, id, r[i]) == sorted[i].1 {
      SortedEntryCount(t, id, i);
    }
  }

  /** An entry in the first `n` of a list has its key among the first `n` keys. */
  lemma ListedPrefix(sorted: Counts, n: nat, m: nat)
    requires n <= |sorted| && m < |sorted|
    ensures sorted[m].0 !in Keys(sorted[..n]) ==> m >= n
  {
    if m < n {
      assert Keys(sorted[..n])[m] == sorted[m].0;
    }
  }

  /** Nothing left out was used more often than anything on the list. */
  lemma MostUsedIsTop(t: UsageTable, id: string, limit: nat)
    requires WellFormedTable(t)
    ensures var r := GetMostUsedResolutions(t, id, limit);
      forall res, i :: Recorded(t, id, res) && res !in r && 0 <= i < |r| ==> UsageCount(t, id, r[i]) >= UsageCount(t, id, res)
  {
    var r := GetMostUsedResolutions(t, id, limit);
    forall res, i | Recorded(t, id, res) && res !in r && 0 <= i < |r|
      ensures UsageCount(t, id, r[i]) >= UsageCount(t, id, res)
    {
      LeftOutCountsNoMore(t, id, limit, res, i);
    }
  }

  lemma LeftOutCountsNoMore(t: UsageTable, id: string, limit: nat, res: string, i: nat)
    requires WellFormedTable(t)
    requires Recorded(t, id, res) && res !in GetMostUsedResolutions(t, id, limit)
    requires i < |GetMostUsedResolutions(t, id, limit)|
    ensures UsageCount(t, id, GetMostUsedResolutions(t, id, limit)[i]) >= UsageCount(t, id, res)
  {
    var display := DisplayUsage(t, id);
    var sorted := SortByCount(display);
    var n := Min(limit, |sorted|);
    DisplayUsageWellFormed(t, id);
    var j :| 0 <= j < |display| && display[j].0 == res;
    GetAt(display, j);
    assert display[j] in multiset(sorted);
    var m :| 0 <= m < |sorted| && sorted[m] == display[j];
    ListedPrefix(sorted, n, m);
    SortSorted(display);
    SortedEntryCount(t, id, i);
  }
}
