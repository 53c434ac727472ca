/** Measurement records as the server stores them, their display order, and what it means for a list
    to be the listing of a store. */
module Measurements {
  import opened Bytes

  /** The idempotency key. */
  datatype Key = Key(deviceId: string, sequence: int)

  /** `payload` is the canonical JSON of the upload, compared only for equality. */
  datatype Record = Record(
    key: Key,
    payload: string,
    receivedUnixMs: int,
    source: string,
    displayUnixMs: int,
    displayTimeSource: string)

  type Contents = m: map<Key, Record> | forall k :: k in m ==> m[k].key == k

  // Display order: display time, then device, then sequence.

  predicate StringBefore(a: string, b: string) {
    b != [] && (a == [] || a[0] < b[0] || (a[0] == b[0] && StringBefore(a[1..], b[1..])))
  }

  lemma {:induction false} StringOrder(a: string, b: string, c: string)
    ensures !StringBefore(a, a)
    ensures StringBefore(a, b) && StringBefore(b, c) ==> StringBefore(a, c)
    ensures a == b || StringBefore(a, b) || StringBefore(b, a)
  {
    var a', b', c' := if a == [] then a else a[1..], if b == [] then b else b[1..], if c == [] then c else c[1..];
    if a != [] || b != [] || c != [] {
      StringOrder(a', b', c');
    }
    if a != [] && b != [] {
      assert a == [a[0]] + a' && b == [b[0]] + b';
    }
  }

  predicate Before(r: Record, s: Record) {
    || r.displayUnixMs < s.displayUnixMs
    || (r.displayUnixMs == s.displayUnixMs
        && (StringBefore(r.key.deviceId, s.key.deviceId)
            || (r.key.deviceId == s.key.deviceId && r.key.sequence < s.key.sequence)))
  }

  lemma DisplayOrder(r: Record, s: Record, t: Record)
    ensures !Before(r, r)
    ensures Before(r, s) && Before(s, t) ==> Before(r, t)
    ensures r.key == s.key || Before(r, s) || Before(s, r)
  {
    hide StringBefore;
    StringOrder(r.key.deviceId, s.key.deviceId, t.key.deviceId);
    StringOrder(s.key.deviceId, r.key.deviceId, t.key.deviceId);
  }

  predicate Sorted(list: seq<Record>) {
    forall i, j :: 0 <= i < j < |list| ==> Before(list[i], list[j])
  }

  /** A record in its place among records with other keys. */
  function InsertSorted(list: seq<Record>, r: Record): (out: seq<Record>)
    ensures |out| == |list| + 1
    ensures forall x :: x in out <==> x == r || x in list
  {
    if list == [] then [r]
    else if Before(r, list[0]) then [r] + list
    else
      assert list == [list[0]] + list[1..];
      [list[0]] + InsertSorted(list[1..], r)
  }

  lemma {:induction false} InsertKeepsSorted(list: seq<Record>, r: Record)
    requires Sorted(list) && forall x :: x in list ==> x.key != r.key
    ensures Sorted(InsertSorted(list, r))
    decreases |list|
  {
    hide Before;
    if list == [] {
    } else if Before(r, list[0]) {
      forall i | 1 <= i < |list|
        ensures Before(r, list[i])
      {
        DisplayOrder(r, list[0], list[i]);
      }
    } else {
      var rest := InsertSorted(list[1..], r);
      InsertKeepsSorted(list[1..], r);
      DisplayOrder(r, list[0], r);
      assert Before(list[0], r);
      forall i | 0 <= i < |rest|
        ensures Before(list[0], rest[i])
      {
        assert rest[i] in rest;
        assert rest[i] == r || rest[i] in list[1..];
      }
    }
  }

  function SortRecords(records: seq<Record>): (out: seq<Record>)
    ensures |out| == |records|
    ensures forall x :: x in out <==> x in records
  {
    if records == [] then []
    else
      assert records == [records[0]] + records[1..];
      InsertSorted(SortRecords(records[1..]), records[0])
  }

  predicate DistinctKeys(records: seq<Record>) {
    forall i, j :: 0 <= i < j < |records| ==> records[i].key != records[j].key
  }

  lemma {:induction false} SortSorts(records: seq<Record>)
    requires DistinctKeys(records)
    ensures Sorted(SortRecords(records))
    decreases |records|
  {
    if records != [] {
      SortSorts(records[1..]);
      InsertKeepsSorted(SortRecords(records[1..]), records[0]);
    }
  }

  /** A strictly ordered list is determined by its elements. */
  lemma {:induction false} SortedUnique(a: seq<Record>, b: seq<Record>)
    requires Sorted(a) && Sorted(b) && forall x :: x in a <==> x in b
    ensures a == b
    decreases |a|
  {
    hide Before;
    if a == [] {
      assert forall i :: 0 <= i < |b| ==> b[i] in b;
    } else {
      assert a[0] in b;
      assert b[0] in a;
      FirstIsLeast(a, b[0]);
      FirstIsLeast(b, a[0]);
      DisplayOrder(a[0], b[0], a[0]);
      forall x
        ensures x in a[1..] <==> x in b[1..]
      {
        FirstOnlyOnce(a);
        FirstOnlyOnce(b);
        assert x in a <==> x == a[0] || x in a[1..];
        assert x in b <==> x == b[0] || x in b[1..];
      }
      SortedUnique(a[1..], b[1..]);
      assert a == [a[0]] + a[1..] && b == [b[0]] + b[1..];
    }
  }

  lemma FirstIsLeast(list: seq<Record>, x: Record)
    requires Sorted(list) && x in list
    ensures x == list[0] || Before(list[0], x)
  {
  }

  lemma FirstOnlyOnce(list: seq<Record>)
    requires Sorted(list) && list != []
    ensures list[0] !in list[1..]
  {
    hide Before;
    if list[0] in list[1..] {
      var i :| 1 <= i < |list| && list[i] == list[0];
      assert Before(list[0], list[i]);
      DisplayOrder(list[0], list[0], list[0]);
    }
  }

  // Queries.

  datatype Query = Query(deviceId: Option<string>, startUnixMs: Option<int>, endUnixMs: Option<int>)

  const EVERYTHING := Query(None, None, None)

  predicate Matches(r: Record, q: Query) {
    && (q.deviceId.Some? ==> r.key.deviceId == q.deviceId.value)
    && (q.startUnixMs.Some? ==> r.displayUnixMs >= q.startUnixMs.value)
    && (q.endUnixMs.Some? ==> r.displayUnixMs <= q.endUnixMs.value)
  }

  /** The records of `m` that match `q`, in display order. */
  ghost predicate Listing(list: seq<Record>, m: Contents, q: Query) {
    Sorted(list) && forall r :: r in list <==> r.key in m && m[r.key] == r && Matches(r, q)
  }

  lemma ListingUnique(a: seq<Record>, b: seq<Record>, m: Contents, q: Query)
    requires Listing(a, m, q) && Listing(b, m, q)
    ensures a == b
  {
    SortedUnique(a, b);
  }

  function Page(list: seq<Record>, limit: nat, offset: nat): seq<Record> {
    if offset >= |list| then []
    else if offset + limit >= |list| then list[offset..]
    else list[offset..offset + limit]
  }

  /** Text is ordered character by character, and a prefix comes before what it begins. */
  lemma TextOrder(a: string, b: string, x: char, y: char)
    ensures StringBefore(a + [x], a + [y]) <==> x < y
    ensures StringBefore(a, a + [x]) && !StringBefore(a + [x], a)
    ensures x < y ==> StringBefore(a + [x] + b, a + [y])
    decreases |a|
  {
    if a == [] {
      assert a + [x] == [x] && a + [y] == [y] && a + [x] + b == [x] + b;
    } else {
      TextOrder(a[1..], b, x, y);
      assert (a + [x])[1..] == a[1..] + [x] && (a + [y])[1..] == a[1..] + [y];
      assert (a + [x] + b)[1..] == a[1..] + [x] + b;
    }
  }

  /** A listed page: oldest display time first, then by device name, then by sequence; only records of
      the asked device between the two times, both included. */
  lemma PageByTime(list: seq<Record>, m: Contents, q: Query, limit: nat, offset: nat)
    requires Listing(list, m, q)
    ensures var page := Page(list, limit, offset);
            && (forall i, j :: 0 <= i < j < |page| ==>
                  && page[i].displayUnixMs <= page[j].displayUnixMs
                  && (page[i].displayUnixMs == page[j].displayUnixMs ==>
                        || StringBefore(page[i].key.deviceId, page[j].key.deviceId)
                        || (page[i].key.deviceId == page[j].key.deviceId
                           && page[i].key.sequence < page[j].key.sequence)))
            && (forall r :: r in page ==>
                  && r.key in m && m[r.key] == r
                  && (q.deviceId.Some? ==> r.key.deviceId == q.deviceId.value)
                  && (q.startUnixMs.Some? ==> q.startUnixMs.value <= r.displayUnixMs)
                  && (q.endUnixMs.Some? ==> r.displayUnixMs <= q.endUnixMs.value))
  {
    var page := Page(list, limit, offset);
    assert forall i :: 0 <= i < |page| ==> page[i] == list[offset + i];
    forall r | r in page
      ensures r in list
    {
      var i :| 0 <= i < |page| && page[i] == r;
    }
  }

  /** The whole listing leaves out no matching record, and pages of `limit` records cut it into pieces. */
  lemma PagesCoverListing(list: seq<Record>, m: Contents, q: Query, r: Record, limit: nat, offset: nat)
    requires Listing(list, m, q)
    ensures r.key in m && m[r.key] == r
            && (q.deviceId.None? || r.key.deviceId == q.deviceId.value)
            && (q.startUnixMs.None? || q.startUnixMs.value <= r.displayUnixMs)
            && (q.endUnixMs.None? || r.displayUnixMs <= q.endUnixMs.value)
            ==> r in list
    ensures offset <= |list| ==>
              list[offset..] == Page(list, limit, offset) + Page(list, |list|, offset + limit)
              && (|Page(list, limit, offset)| == limit || offset + limit > |list|)
  {
    hide Before;
    if offset <= |list| && offset + limit <= |list| {
      assert list[offset..] == list[offset..offset + limit] + list[offset + limit..];
    }
  }
}
