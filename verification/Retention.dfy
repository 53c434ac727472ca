/** Retention limits: what is too old goes, and of the rest the newest that fit the size limit stay. */
module Retention {
  import opened Bytes
  import opened Measurements
  import opened ServerStores
  import opened Reconcile

  /** `size` is the length of a record's JSONL event, newline included. */
  datatype Limits = Limits(timeLimitMs: Option<int>, sizeLimitBytes: Option<int>, size: Record -> nat)

  /** The records displayed at `cutoff` or later. */
  function Unexpired(list: seq<Record>, cutoff: int): seq<Record> {
    FilterRecords(list, Query(None, Some(cutoff), None))
  }

  lemma {:induction false} FilterSorted(list: seq<Record>, q: Query)
    requires Sorted(list)
    ensures Sorted(FilterRecords(list, q))
    decreases |list|
  {
    hide Before, Matches;
    if list != [] {
      FilterSorted(list[1..], q);
      forall r | r in FilterRecords(list[1..], q)
        ensures Before(list[0], r)
      {
        var i :| 1 <= i < |list| && list[i] == r;
      }
    }
  }

  lemma {:induction false} FilterAll(list: seq<Record>, q: Query)
    requires forall r :: r in list ==> Matches(r, q)
    ensures FilterRecords(list, q) == list
    decreases |list|
  {
    hide Matches;
    if list != [] {
      assert list[0] in list;
      FilterAll(list[1..], q);
    }
  }

  function TotalSize(list: seq<Record>, size: Record -> nat): nat {
    if list == [] then 0 else size(list[0]) + TotalSize(list[1..], size)
  }

  lemma {:induction false} SuffixSize(list: seq<Record>, from: nat, size: Record -> nat)
    requires from <= |list|
    ensures TotalSize(list[from..], size) <= TotalSize(list, size)
  {
    if from > 0 {
      SuffixSize(list[1..], from - 1, size);
      assert list[1..][from - 1..] == list[from..];
    } else {
      assert list[0..] == list;
    }
  }

  /** Where the newest-first scan of an ordered list stops, when it has taken `list[from..]` so far. */
  function KeepFrom(list: seq<Record>, from: nat, limit: int, size: Record -> nat): (r: nat)
    requires from <= |list|
    ensures r <= from
    decreases from
  {
    if from == 0 then 0
    else if from == |list| || TotalSize(list[from - 1..], size) <= limit then KeepFrom(list, from - 1, limit, size)
    else from
  }

  /** `list[from..]` fits, or is the newest record alone, and nothing longer fits. */
  predicate LongestNewest(list: seq<Record>, from: nat, limit: int, size: Record -> nat) {
    && from <= |list|
    && (list != [] ==> from < |list|)
    && (TotalSize(list[from..], size) <= limit || from + 1 >= |list|)
    && forall k :: 0 <= k < from ==> TotalSize(list[k..], size) > limit
  }

  lemma {:induction false} KeepFromIsLongest(list: seq<Record>, from: nat, limit: int, size: Record -> nat)
    requires from <= |list|
    requires TotalSize(list[from..], size) <= limit || from + 1 >= |list|
    ensures LongestNewest(list, KeepFrom(list, from, limit, size), limit, size)
    decreases from
  {
    if from == 0 {
    } else if from == |list| || TotalSize(list[from - 1..], size) <= limit {
      KeepFromIsLongest(list, from - 1, limit, size);
    } else {
      forall k | 0 <= k < from
        ensures TotalSize(list[k..], size) > limit
      {
        SuffixSize(list[k..], from - 1 - k, size);
        assert list[k..][from - 1 - k..] == list[from - 1..];
      }
    }
  }

  /** There is only one such run. */
  lemma LongestNewestUnique(list: seq<Record>, a: nat, b: nat, limit: int, size: Record -> nat)
    requires LongestNewest(list, a, limit, size) && LongestNewest(list, b, limit, size)
    ensures a == b
  {
  }

  function Current(list: seq<Record>, nowUnixMs: int, limits: Limits): seq<Record> {
    if limits.timeLimitMs.Some? then Unexpired(list, nowUnixMs - limits.timeLimitMs.value) else list
  }

  /** What stays of an ordered list of records. */
  function Retained(list: seq<Record>, nowUnixMs: int, limits: Limits): seq<Record> {
    var current := Current(list, nowUnixMs, limits);
    if limits.sizeLimitBytes.None? then current
    else if limits.sizeLimitBytes.value <= 0 then []
    else current[KeepFrom(current, |current|, limits.sizeLimitBytes.value, limits.size)..]
  }

  /** Retention keeps exactly the longest newest-first run of unexpired records that fits, and the
      newest unexpired record even if it alone is too big. */
  lemma RetainedIsLongestNewest(list: seq<Record>, nowUnixMs: int, limits: Limits) returns (from: nat)
    requires limits.sizeLimitBytes.Some? && limits.sizeLimitBytes.value > 0
    ensures var current := Current(list, nowUnixMs, limits);
            && LongestNewest(current, from, limits.sizeLimitBytes.value, limits.size)
            && Retained(list, nowUnixMs, limits) == current[from..]
  {
    var current := Current(list, nowUnixMs, limits);
    from := KeepFrom(current, |current|, limits.sizeLimitBytes.value, limits.size);
    KeepFromIsLongest(current, |current|, limits.sizeLimitBytes.value, limits.size);
  }

  function Reversed(list: seq<Record>): (out: seq<Record>)
    ensures |out| == |list| && forall i :: 0 <= i < |out| ==> out[i] == list[|list| - 1 - i]
  {
    seq(|list|, i requires 0 <= i < |list| => list[|list| - 1 - i])
  }

  /** The newest `n` records, put back in order. */
  lemma NewestInOrder(list: seq<Record>, n: nat)
    requires Sorted(list) && DistinctKeys(list) && n <= |list|
    ensures SortRecords(Reversed(list)[..n]) == list[|list| - n..]
  {
    hide Before;
    var kept, tail := Reversed(list)[..n], list[|list| - n..];
    assert forall i :: 0 <= i < n ==> kept[i] == list[|list| - 1 - i];
    assert DistinctKeys(kept);
    SortSorts(kept);
    forall r
      ensures r in kept <==> r in tail
    {
      if r in tail {
        var i :| 0 <= i < n && tail[i] == r;
        assert kept[n - 1 - i] == r;
      }
    }
    SortedUnique(SortRecords(kept), tail);
  }

  lemma SortedUnchanged(list: seq<Record>)
    requires Sorted(list) && DistinctKeys(list)
    ensures SortRecords(list) == list
  {
    hide Sorted;
    SortSorts(list);
    SortedUnique(SortRecords(list), list);
  }

  method RetainedRecords(records: seq<Record>, nowUnixMs: int, limits: Limits) returns (kept: seq<Record>)
    requires DistinctKeys(records)
    ensures kept == Retained(SortRecords(records), nowUnixMs, limits)
  {
    hide Sorted, DistinctKeys, SortRecords, FilterRecords;
    var retained := SortRecords(records);
    SortSorts(records);
    SortedByKeys(records);
    if limits.timeLimitMs.Some? {
      var q := Query(None, Some(nowUnixMs - limits.timeLimitMs.value), None);
      FilterSorted(retained, q);
      FilterDistinct(retained, q);
      retained := FilterRecords(retained, q);
    }
    if limits.sizeLimitBytes.None? {
      return retained;
    }
    if limits.sizeLimitBytes.value <= 0 {
      return [];
    }
    kept := NewestThatFit(retained, limits.sizeLimitBytes.value, limits.size);
  }

  lemma {:induction false} SortedByKeys(records: seq<Record>)
    requires DistinctKeys(records)
    ensures DistinctKeys(SortRecords(records))
  {
    SortSorts(records);
    hide Sorted, SortRecords;
    SortedDistinct(SortRecords(records));
  }

  lemma ScanStep(list: seq<Record>, from: nat, limit: int, size: Record -> nat)
    requires 0 < from <= |list|
    ensures TotalSize(list[from - 1..], size) == TotalSize(list[from..], size) + size(list[from - 1])
    ensures KeepFrom(list, from, limit, size)
         == if from == |list| || TotalSize(list[from - 1..], size) <= limit then KeepFrom(list, from - 1, limit, size)
            else from
  {
    assert list[from - 1..][1..] == list[from..];
  }

  /** The newest-first scan after it took `taken` records of `total` bytes. */
  ghost predicate Scanned(list: seq<Record>, taken: nat, total: nat, limit: int, size: Record -> nat) {
    && taken <= |list|
    && total == TotalSize(list[|list| - taken..], size)
    && KeepFrom(list, |list|, limit, size) == KeepFrom(list, |list| - taken, limit, size)
  }

  lemma ScanStarts(list: seq<Record>, limit: int, size: Record -> nat)
    ensures Scanned(list, 0, 0, limit, size)
  {
  }

  lemma ScanTakes(list: seq<Record>, taken: nat, total: nat, limit: int, size: Record -> nat)
    requires taken < |list| && Scanned(list, taken, total, limit, size)
    ensures var record := Reversed(list)[taken];
            if total + size(record) <= limit || taken == 0
              then Scanned(list, taken + 1, total + size(record), limit, size)
            else KeepFrom(list, |list|, limit, size) == |list| - taken
  {
    hide KeepFrom, TotalSize;
    ScanStep(list, |list| - taken, limit, size);
  }

  lemma ScanEnds(list: seq<Record>, total: nat, limit: int, size: Record -> nat)
    requires Scanned(list, |list|, total, limit, size)
    ensures KeepFrom(list, |list|, limit, size) == 0
  {
  }

  /** The newest-first scan. */
  method NewestThatFit(retained: seq<Record>, limit: int, size: Record -> nat) returns (kept: seq<Record>)
    requires Sorted(retained) && DistinctKeys(retained)
    ensures kept == retained[KeepFrom(retained, |retained|, limit, size)..]
  {
    hide Sorted, DistinctKeys, KeepFrom, TotalSize, SortRecords, Scanned;
    SortedUnchanged(retained);
    var newestFirst := Reversed(SortRecords(retained));
    var total: nat := 0;
    kept := [];
    ScanStarts(retained, limit, size);
    while |kept| < |newestFirst|
      invariant |kept| <= |retained| && kept == newestFirst[..|kept|]
      invariant Scanned(retained, |kept|, total, limit, size)
    {
      var record := newestFirst[|kept|];
      var recordSize := size(record);
      ScanTakes(retained, |kept|, total, limit, size);
      if total + recordSize <= limit || kept == [] {
        kept := kept + [record];
        total := total + recordSize;
        continue;
      }
      break;
    }
    if |kept| == |retained| {
      ScanEnds(retained, total, limit, size);
    }
    NewestInOrder(retained, |kept|);
    kept := SortRecords(kept);
  }

  predicate Unlimited(limits: Limits) {
    limits.timeLimitMs.None? && limits.sizeLimitBytes.None?
  }

  /** Applies the limits to a store; nothing is touched when nothing is to go. Otherwise exactly what was
      listed and is kept stays: of a store of more than 1,000,000 records the rest was not listed. */
  method EnforceStoreRetention(store: Store, nowUnixMs: int, limits: Limits) returns (removed: nat)
    modifies ObjectOf(store)
    ensures var listed := Listed(old(ViewOf(store)));
            var kept := Retained(listed, nowUnixMs, limits);
            if Unlimited(limits) || |kept| == |listed| then ViewOf(store) == old(ViewOf(store)) && removed == 0
            else
              && ViewOf(store) == Restrict(old(ViewOf(store)), KeysOf(kept))
              && removed == |old(ViewOf(store))| - |kept|
    ensures |old(ViewOf(store))| <= LIST_LIMIT ==>
              var listed := ListingOf(old(ViewOf(store)), EVERYTHING);
              var kept := Retained(listed, nowUnixMs, limits);
              && ViewOf(store) == Restrict(old(ViewOf(store)), KeysOf(kept))
              && removed == |listed| - |kept|
  {
    ghost var m := ViewOf(store);
    var records := ListStore(store);
    RetainedFrom(m, nowUnixMs, limits);
    WholeRetention(m, nowUnixMs, limits);
    hide Listing, Listed, Sorted, DistinctKeys, Retained, KeysOf, Restrict, ViewOf;
    if limits.timeLimitMs.None? && limits.sizeLimitBytes.None? {
      return 0;
    }
    var retained := RetainedRecords(records, nowUnixMs, limits);
    if |retained| == |records| {
      return 0;
    }
    removed := RetainInStore(store, retained);
  }

  /** On a store that is listed whole. */
  lemma WholeRetention(m: Contents, nowUnixMs: int, limits: Limits)
    ensures |m| <= LIST_LIMIT ==>
              var listed := ListingOf(m, EVERYTHING);
              var kept := Retained(listed, nowUnixMs, limits);
              && Listed(m) == listed && |listed| == |m|
              && (Unlimited(limits) || |kept| == |listed| ==> |kept| == |listed| && Restrict(m, KeysOf(kept)) == m)
  {
    hide Listing, Listed, KeysOf, Restrict, Retained;
    var listed := ListingOf(m, EVERYTHING);
    WholePage(m);
    ListedOnce(m, listed);
    if Unlimited(limits) {
      NoLimits(m, listed, nowUnixMs, limits);
    } else if |Retained(listed, nowUnixMs, limits)| == |listed| {
      NothingGone(m, listed, nowUnixMs, limits);
    }
  }

  /** What is not listed does not survive a retention that removes anything: in a store of more than
      1,000,000 records those are the last in display order, the newest. */
  lemma {:induction false} UnlistedIsLost(m: Contents, nowUnixMs: int, limits: Limits, k: Key)
    requires k in m && m[k] !in Listed(m)
    ensures |m| > LIST_LIMIT
    ensures k !in Restrict(m, KeysOf(Retained(Listed(m), nowUnixMs, limits)))
    ensures forall r :: r in Listed(m) ==> Before(r, m[k])
  {
    hide Before, Retained;
    var all := ListingOf(m, EVERYTHING);
    WholePage(m);
    RetainedFrom(m, nowUnixMs, limits);
    assert m[k] in all;
    var i :| 0 <= i < |all| && all[i] == m[k];
    assert forall j :: 0 <= j < |Listed(m)| ==> Listed(m)[j] == all[j];
    assert i >= |Listed(m)|;
  }

  lemma ListedOnce(m: Contents, listed: seq<Record>)
    requires Listing(listed, m, EVERYTHING)
    ensures DistinctKeys(listed) && SortRecords(listed) == listed && |listed| == |m|
  {
    hide Before, Sorted;
    ListingDistinct(listed, m);
    SortedUnchanged(listed);
    ListingFolds(listed, m, KeepFirst);
  }

  /** What stays is part of the listing, in its order. */
  lemma RetainedInOrder(listed: seq<Record>, nowUnixMs: int, limits: Limits)
    requires Sorted(listed) && DistinctKeys(listed)
    ensures var kept := Retained(listed, nowUnixMs, limits);
            && Sorted(kept) && DistinctKeys(kept) && |kept| <= |listed|
            && forall r :: r in kept ==> r in listed
  {
    hide Before, FilterRecords, KeepFrom;
    if limits.timeLimitMs.Some? {
      var q := Query(None, Some(nowUnixMs - limits.timeLimitMs.value), None);
      FilterSorted(listed, q);
      FilterDistinct(listed, q);
      FilterShorter(listed, q);
    }
  }

  lemma RetainedFrom(m: Contents, nowUnixMs: int, limits: Limits)
    ensures var listed := Listed(m);
            var kept := Retained(listed, nowUnixMs, limits);
            && DistinctKeys(listed) && SortRecords(listed) == listed
            && Sorted(kept) && DistinctKeys(kept) && |kept| <= |listed|
            && forall r :: r in kept ==> r in listed && r.key in m && m[r.key] == r
  {
    hide Sorted, DistinctKeys, Retained, SortRecords;
    ListedInOrder(m);
    SortedUnchanged(Listed(m));
    RetainedInOrder(Listed(m), nowUnixMs, limits);
  }

  lemma {:induction false} FilterShorter(list: seq<Record>, q: Query)
    ensures |FilterRecords(list, q)| <= |list|
    ensures |FilterRecords(list, q)| == |list| ==> FilterRecords(list, q) == list
  {
    if list != [] {
      FilterShorter(list[1..], q);
    }
  }

  lemma WholeListing(m: Contents, listed: seq<Record>)
    requires Listing(listed, m, EVERYTHING)
    ensures Restrict(m, KeysOf(listed)) == m
  {
    ListingKeys(listed, m);
  }

  lemma NoLimits(m: Contents, listed: seq<Record>, nowUnixMs: int, limits: Limits)
    requires Listing(listed, m, EVERYTHING) && limits.timeLimitMs.None? && limits.sizeLimitBytes.None?
    ensures Retained(listed, nowUnixMs, limits) == listed && Restrict(m, KeysOf(listed)) == m
  {
    WholeListing(m, listed);
  }

  lemma NothingGone(m: Contents, listed: seq<Record>, nowUnixMs: int, limits: Limits)
    requires Listing(listed, m, EVERYTHING) && |Retained(listed, nowUnixMs, limits)| == |listed|
    ensures Retained(listed, nowUnixMs, limits) == listed && Restrict(m, KeysOf(listed)) == m
  {
    WholeListing(m, listed);
    hide Listing, Restrict, KeepFrom, KeysOf, Current;
    CurrentShorter(listed, nowUnixMs, limits);
    var current := Current(listed, nowUnixMs, limits);
    if limits.sizeLimitBytes.Some? && limits.sizeLimitBytes.value > 0 {
      WholeSuffix(current, KeepFrom(current, |current|, limits.sizeLimitBytes.value, limits.size));
    }
  }

  lemma CurrentShorter(list: seq<Record>, nowUnixMs: int, limits: Limits)
    ensures var current := Current(list, nowUnixMs, limits);
            |current| <= |list| && (|current| == |list| ==> current == list)
  {
    if limits.timeLimitMs.Some? {
      FilterShorter(list, Query(None, Some(nowUnixMs - limits.timeLimitMs.value), None));
    }
  }

  lemma WholeSuffix(list: seq<Record>, from: nat)
    requires from <= |list|
    ensures |list[from..]| == |list| ==> list[from..] == list
  {
  }

  /** The longest run that fits, scanned again, is kept whole. */
  lemma KeepFromAgain(list: seq<Record>, limit: int, size: Record -> nat)
    ensures var kept := list[KeepFrom(list, |list|, limit, size)..];
            KeepFrom(kept, |kept|, limit, size) == 0
  {
    hide TotalSize, KeepFrom;
    var kept := list[KeepFrom(list, |list|, limit, size)..];
    NothingKeptAtEnd(list, size);
    NothingKeptAtEnd(kept, size);
    KeepFromIsLongest(list, |list|, limit, size);
    KeepFromIsLongest(kept, |kept|, limit, size);
    assert kept[0..] == kept;
  }

  lemma NothingKeptAtEnd(list: seq<Record>, size: Record -> nat)
    ensures TotalSize(list[|list|..], size) == 0
  {
  }

  /** Keeping a kept run again keeps all of it. */
  lemma RetainedAgain(list: seq<Record>, nowUnixMs: int, limits: Limits)
    ensures var kept := Retained(list, nowUnixMs, limits);
            Retained(kept, nowUnixMs, limits) == kept
  {
    hide KeepFrom, FilterRecords;
    var kept := Retained(list, nowUnixMs, limits);
    if limits.timeLimitMs.Some? {
      FilterAll(kept, Query(None, Some(nowUnixMs - limits.timeLimitMs.value), None));
    }
    if limits.sizeLimitBytes.Some? && limits.sizeLimitBytes.value > 0 {
      KeepFromAgain(Current(list, nowUnixMs, limits), limits.sizeLimitBytes.value, limits.size);
      assert kept[0..] == kept;
    }
  }

  lemma KeptIsListing(m: Contents, listed: seq<Record>, nowUnixMs: int, limits: Limits)
    requires Listing(listed, m, EVERYTHING)
    ensures var kept := Retained(listed, nowUnixMs, limits);
            Listing(kept, Restrict(m, KeysOf(kept)), EVERYTHING)
  {
    ListedOnce(m, listed);
    RetainedInOrder(listed, nowUnixMs, limits);
    hide Sorted, Retained, DistinctKeys;
    var kept := Retained(listed, nowUnixMs, limits);
    var left := Restrict(m, KeysOf(kept));
    forall r
      ensures r in kept <==> r.key in left && left[r.key] == r && Matches(r, EVERYTHING)
    {
      if r.key in left && left[r.key] == r {
        var x :| x in kept && x.key == r.key;
        assert m[x.key] == x;
      }
    }
  }

  /** Enforcing the limits again at the same time removes nothing. */
  lemma SecondEnforcementRemovesNothing(m: Contents, nowUnixMs: int, limits: Limits)
    ensures var kept := Retained(ListingOf(m, EVERYTHING), nowUnixMs, limits);
            var left := Restrict(m, KeysOf(kept));
            && ListingOf(left, EVERYTHING) == kept
            && Retained(ListingOf(left, EVERYTHING), nowUnixMs, limits) == ListingOf(left, EVERYTHING)
  {
    hide Listing, Retained, Restrict, KeysOf;
    var listed := ListingOf(m, EVERYTHING);
    var kept := Retained(listed, nowUnixMs, limits);
    var left := Restrict(m, KeysOf(kept));
    KeptIsListing(m, listed, nowUnixMs, limits);
    ListingUnique(kept, ListingOf(left, EVERYTHING), left, EVERYTHING);
    RetainedAgain(listed, nowUnixMs, limits);
  }

  // What stays, in terms of a record's time.

  predicate Expired(r: Record, nowUnixMs: int, limits: Limits) {
    limits.timeLimitMs.Some? && r.displayUnixMs < nowUnixMs - limits.timeLimitMs.value
  }

  lemma CurrentByTime(list: seq<Record>, nowUnixMs: int, limits: Limits)
    ensures forall r :: r in Current(list, nowUnixMs, limits) <==> r in list && !Expired(r, nowUnixMs, limits)
  {
  }

  /** What stays of an ordered list: no expired record; without a size limit all others, with one that is
      not positive none; else the newest of the others, at least one if there is one, more only as long
      as they fit together, and all of them if they do. */
  lemma {:induction false} StaysByTimeAndSize(list: seq<Record>, nowUnixMs: int, limits: Limits)
    requires Sorted(list) && DistinctKeys(list)
    ensures var kept := Retained(list, nowUnixMs, limits);
            var size := limits.size;
            && (forall r :: r in kept ==> r in list && !Expired(r, nowUnixMs, limits))
            && (limits.sizeLimitBytes.None? ==> forall r :: r in list && !Expired(r, nowUnixMs, limits) ==> r in kept)
            && (limits.sizeLimitBytes.Some? && limits.sizeLimitBytes.value <= 0 ==> kept == [])
            && (limits.sizeLimitBytes.Some? && limits.sizeLimitBytes.value > 0 ==>
                 && (forall r, s :: r in list && !Expired(r, nowUnixMs, limits) && r !in kept && s in kept ==>
                       r.displayUnixMs <= s.displayUnixMs && Before(r, s))
                 && (TotalSize(kept, size) <= limits.sizeLimitBytes.value || |kept| <= 1)
                 && (kept == [] ==> forall r :: r in list ==> Expired(r, nowUnixMs, limits)))
  {
    CurrentByTime(list, nowUnixMs, limits);
    hide Sorted, DistinctKeys, TotalSize, KeepFrom, Before, FilterRecords;
    if limits.sizeLimitBytes.Some? && limits.sizeLimitBytes.value > 0 {
      var current := Current(list, nowUnixMs, limits);
      var kept := Retained(list, nowUnixMs, limits);
      var from := RetainedIsLongestNewest(list, nowUnixMs, limits);
      CurrentSorted(list, nowUnixMs, limits);
      forall r, s | r in list && !Expired(r, nowUnixMs, limits) && r !in kept && s in kept
        ensures r.displayUnixMs <= s.displayUnixMs && Before(r, s)
      {
        SuffixIsLater(current, from, r, s);
      }
    }
  }

  lemma CurrentSorted(list: seq<Record>, nowUnixMs: int, limits: Limits)
    requires Sorted(list)
    ensures Sorted(Current(list, nowUnixMs, limits))
  {
    hide Sorted;
    if limits.timeLimitMs.Some? {
      FilterSorted(list, Query(None, Some(nowUnixMs - limits.timeLimitMs.value), None));
    }
  }

  lemma SuffixIsLater(list: seq<Record>, from: nat, r: Record, s: Record)
    requires Sorted(list) && from <= |list| && r in list && r !in list[from..] && s in list[from..]
    ensures Before(r, s) && r.displayUnixMs <= s.displayUnixMs
  {
    var i :| 0 <= i < |list| && list[i] == r;
    var j :| 0 <= j < |list[from..]| && list[from..][j] == s;
    assert list[from + j] == s;
    forall t | from <= t < |list|
      ensures list[t] in list[from..]
    {
      assert list[from..][t - from] == list[t];
    }
  }

  /** And one more would not fit: the newest record that does not stay, with those that do, exceeds the
      limit. */
  lemma {:induction false} OneMoreIsTooMuch(list: seq<Record>, nowUnixMs: int, limits: Limits)
    requires limits.sizeLimitBytes.Some? && limits.sizeLimitBytes.value > 0
    ensures var current := Current(list, nowUnixMs, limits);
            var kept := Retained(list, nowUnixMs, limits);
            |kept| < |current| ==>
              && kept == current[|current| - |kept|..]
              && limits.size(current[|current| - |kept| - 1]) + TotalSize(kept, limits.size)
                 > limits.sizeLimitBytes.value
  {
    hide TotalSize, KeepFrom, Current;
    var current := Current(list, nowUnixMs, limits);
    var from := RetainedIsLongestNewest(list, nowUnixMs, limits);
    if from > 0 {
      ScanStep(current, from, limits.sizeLimitBytes.value, limits.size);
      assert TotalSize(current[from - 1..], limits.size) > limits.sizeLimitBytes.value;
    }
  }

  lemma {:induction false} SizeAddsUp(list: seq<Record>, size: Record -> nat, r: Record)
    ensures TotalSize([], size) == 0 && TotalSize(list + [r], size) == TotalSize(list, size) + size(r)
  {
    if list != [] {
      SizeAddsUp(list[1..], size, r);
      assert (list + [r])[1..] == list[1..] + [r];
    } else {
      assert list + [r] == [r] && [r][1..] == [];
    }
  }
}
