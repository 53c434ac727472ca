/** The server's two measurement stores: SQLite rows keyed by (device, sequence), and a JSONL event
    log that is folded on every read. They agree on everything a caller can see. */
module ServerStores {
  import opened Bytes
  import opened Measurements

  datatype Strategy = KeepFirst | KeepLast | Overwrite | Reject

  datatype WriteResult = WriteResult(stored: bool, duplicate: bool, conflict: bool, error: Option<string>)

  predicate ReplacesConflicts(strategy: Strategy) {
    strategy == KeepLast || strategy == Overwrite
  }

  // The canonical contents, whatever holds them.

  /** What one write does to a store's contents, and its result. */
  function WriteTo(m: Contents, r: Record, strategy: Strategy): (Contents, WriteResult) {
    if r.key !in m then (m[r.key := r], WriteResult(true, false, false, None))
    else
      var conflict := m[r.key].payload != r.payload;
      if conflict && strategy == Reject then (m, WriteResult(false, true, true, Some("duplicate conflict rejected")))
      else if conflict && ReplacesConflicts(strategy) then (m[r.key := r], WriteResult(true, true, true, None))
      else (m, WriteResult(true, true, conflict, None))
  }

  function Restrict(m: Contents, keep: set<Key>): Contents {
    map k | k in m && k in keep :: m[k]
  }

  function KeysOf(records: seq<Record>): set<Key> {
    set r | r in records :: r.key
  }

  lemma ListingAdds(list: seq<Record>, m: Contents, q: Query, r: Record)
    requires Listing(list, m, q) && r.key !in m
    ensures Listing(if Matches(r, q) then InsertSorted(list, r) else list, m[r.key := r], q)
  {
    hide Before, Matches;
    if Matches(r, q) {
      InsertKeepsSorted(list, r);
    }
  }

  lemma {:induction false} ListingExists(m: Contents, q: Query)
    ensures exists list :: Listing(list, m, q)
    decreases |m|
  {
    if m.Keys == {} {
      assert Listing([], m, q);
    } else {
      var k :| k in m;
      var rest := m - {k};
      ListingExists(rest, q);
      var list :| Listing(list, rest, q);
      ListingAdds(list, rest, q, m[k]);
      assert rest[k := m[k]] == m;
    }
  }

  /** The one listing of `m`. */
  ghost function ListingOf(m: Contents, q: Query): (list: seq<Record>)
    ensures Listing(list, m, q)
  {
    ListingExists(m, q);
    var list :| Listing(list, m, q);
    list
  }

  // SQLite.

  datatype Row = Row(record: Record, duplicateCount: nat, updatedUnixMs: int)

  type Table = rows: map<Key, Row> | forall k :: k in rows ==> rows[k].record.key == k

  /** What reading the rows back gives. */
  ghost function RecordsOf(rows: Table): (m: Contents)
    ensures m.Keys == rows.Keys
  {
    map k | k in rows :: rows[k].record
  }

  lemma RowUpdated(rows: Table, row: Row)
    ensures RecordsOf(rows[row.record.key := row]) == RecordsOf(rows)[row.record.key := row.record]
  {
  }

  lemma RowTouched(rows: Table, k: Key, row: Row)
    requires k in rows && row.record == rows[k].record
    ensures RecordsOf(rows[k := row]) == RecordsOf(rows)
  {
  }

  lemma RowsDeleted(rows: Table, gone: set<Key>, keep: set<Key>)
    requires gone == rows.Keys - keep
    ensures RecordsOf(rows - gone) == Restrict(RecordsOf(rows), keep)
  {
    var left, right := RecordsOf(rows - gone), Restrict(RecordsOf(rows), keep);
    assert forall k :: k in left <==> k in rows && k in keep;
    assert left.Keys == right.Keys;
  }

  lemma RowsDeletedCount(rows: Table, gone: set<Key>)
    requires gone <= rows.Keys
    ensures |RecordsOf(rows - gone)| == |RecordsOf(rows)| - |gone|
  {
    hide RecordsOf;
    SizeOfKeys(RecordsOf(rows - gone));
    SizeOfKeys(RecordsOf(rows));
    SplitSize(rows.Keys, gone);
    assert (rows - gone).Keys == rows.Keys - gone;
  }

  lemma SplitSize(all: set<Key>, gone: set<Key>)
    requires gone <= all
    ensures |all - gone| == |all| - |gone|
  {
    assert all == (all - gone) + gone;
  }

  class SqliteStore {
    var rows: Table
    const dedupStrategy: Strategy

    ghost function View(): Contents
      reads this
    {
      RecordsOf(rows)
    }

    constructor (dedupStrategy: Strategy)
      ensures View() == map[] && this.dedupStrategy == dedupStrategy
    {
      rows := map[];
      this.dedupStrategy := dedupStrategy;
    }

    method Write(record: Record) returns (result: WriteResult)
      modifies this
      ensures (View(), result) == WriteTo(old(View()), record, dedupStrategy)
      ensures record.key !in old(View()) ==>
                View() == old(View())[record.key := record] && result == WriteResult(true, false, false, None)
      ensures record.key in old(View()) && old(View())[record.key].payload == record.payload ==>
                View() == old(View()) && result == WriteResult(true, true, false, None)
      ensures record.key in old(View()) && old(View())[record.key].payload != record.payload ==>
                match dedupStrategy
                case KeepFirst => View() == old(View()) && result == WriteResult(true, true, true, None)
                case KeepLast | Overwrite =>
                  View() == old(View())[record.key := record] && result == WriteResult(true, true, true, None)
                case Reject =>
                  && View() == old(View())
                  && result == WriteResult(false, true, true, Some("duplicate conflict rejected"))
      ensures record.key in rows
    {
      ghost var before := RecordsOf(rows);
      if record.key in rows {
        var row := rows[record.key];
        assert before[record.key] == row.record;
        hide RecordsOf;
        var conflict := row.record.payload != record.payload;
        if conflict && dedupStrategy == Reject {
          return WriteResult(false, true, true, Some("duplicate conflict rejected"));
        }
        if conflict && ReplacesConflicts(dedupStrategy) {
          var updated := Row(record, row.duplicateCount + 1, record.receivedUnixMs);
          RowUpdated(rows, updated);
          rows := rows[record.key := updated];
          return WriteResult(true, true, true, None);
        }
        var touched := row.(duplicateCount := row.duplicateCount + 1, updatedUnixMs := record.receivedUnixMs);
        RowTouched(rows, record.key, touched);
        rows := rows[record.key := touched];
        return WriteResult(true, true, conflict, None);
      }
      hide RecordsOf;
      var inserted := Row(record, 0, record.receivedUnixMs);
      RowUpdated(rows, inserted);
      rows := rows[record.key := inserted];
      return WriteResult(true, false, false, None);
    }

    /** Every matching row is put in its place. */
    method SelectRows(q: Query) returns (list: seq<Record>)
      ensures list == ListingOf(View(), q)
    {
      list := [];
      var keys := rows.Keys;
      ghost var seen: Contents := map[];
      EmptyListing(q);
      while keys != {}
        invariant keys <= rows.Keys && seen == View() - keys && Listing(list, seen, q)
        decreases keys
      {
        hide Listing;
        var k :| k in keys;
        ListingAdds(list, seen, q, rows[k].record);
        if Matches(rows[k].record, q) {
          list := InsertSorted(list, rows[k].record);
        }
        keys := keys - {k};
        seen := seen[k := rows[k].record];
      }
      assert seen == View();
      ListingUnique(list, ListingOf(View(), q), View(), q);
    }

    method ListRecords(q: Query, limit: nat, offset: nat) returns (list: seq<Record>)
      ensures list == Page(ListingOf(View(), q), limit, offset)
    {
      var all := SelectRows(q);
      return Page(all, limit, offset);
    }

    /** Deletes the rows whose key is not kept, one at a time. */
    method RetainRecords(records: seq<Record>) returns (removed: nat)
      modifies this
      ensures View() == Restrict(old(View()), KeysOf(records))
      ensures removed == |old(View())| - |View()|
    {
      hide KeysOf, RecordsOf, Restrict;
      var keep := KeysOf(records);
      var remaining := rows.Keys;
      ghost var before := rows;
      ghost var gone: set<Key> := {};
      removed := 0;
      while remaining != {}
        invariant remaining <= before.Keys && gone <= before.Keys - remaining && gone !! keep
        invariant before.Keys - remaining - gone <= keep
        invariant rows == before - gone && removed == |gone|
        decreases remaining
      {
        var k :| k in remaining;
        remaining := remaining - {k};
        if k !in keep {
          rows := rows - {k};
          removed := removed + 1;
          gone := gone + {k};
        }
      }
      RowsDeleted(before, gone, keep);
      RowsDeletedCount(before, gone);
    }
  }

  lemma EmptyListing(q: Query)
    ensures Listing([], map[], q)
  {
  }

  lemma SizeOfKeys(m: Contents)
    ensures |m| == |m.Keys|
  {
  }

  // JSONL.

  function Find(records: seq<Record>, key: Key): (i: Option<nat>)
    ensures i.Some? ==> i.value < |records| && records[i.value].key == key
    ensures i.None? ==> forall r :: r in records ==> r.key != key
  {
    if records == [] then None
    else if records[0].key == key then Some(0)
    else
      assert records == [records[0]] + records[1..];
      var rest := Find(records[1..], key);
      if rest.Some? then Some(rest.value + 1) else None
  }

  /** One line of the log, folded into the records read so far (kept in the order of first sight). */
  function Absorb(records: seq<Record>, r: Record, strategy: Strategy): seq<Record> {
    match Find(records, r.key)
    case None => records + [r]
    case Some(i) =>
      if records[i].payload != r.payload && ReplacesConflicts(strategy) then records[i := r] else records
  }

  function Canonical(lines: seq<Record>, strategy: Strategy): seq<Record> {
    if lines == [] then [] else Absorb(Canonical(lines[..|lines| - 1], strategy), lines[|lines| - 1], strategy)
  }

  function AsMap(records: seq<Record>): (m: Contents)
    ensures m.Keys == KeysOf(records)
  {
    if records == [] then map[]
    else
      assert records == records[..|records| - 1] + [records[|records| - 1]];
      AsMap(records[..|records| - 1])[records[|records| - 1].key := records[|records| - 1]]
  }

  lemma {:induction false} AsMapAt(records: seq<Record>, i: nat)
    requires DistinctKeys(records) && i < |records|
    ensures records[i].key in AsMap(records) && AsMap(records)[records[i].key] == records[i]
    decreases |records|
  {
    if i < |records| - 1 {
      AsMapAt(records[..|records| - 1], i);
    }
  }

  lemma AsMapElements(records: seq<Record>)
    requires DistinctKeys(records)
    ensures forall r :: r in records <==> r.key in AsMap(records) && AsMap(records)[r.key] == r
  {
    forall r
      ensures r in records <==> r.key in AsMap(records) && AsMap(records)[r.key] == r
    {
      if r in records {
        var i :| 0 <= i < |records| && records[i] == r;
        AsMapAt(records, i);
      } else if r.key in AsMap(records) {
        var s :| s in records && s.key == r.key;
        var i :| 0 <= i < |records| && records[i] == s;
        AsMapAt(records, i);
      }
    }
  }

  lemma {:induction false} AsMapSize(records: seq<Record>)
    requires DistinctKeys(records)
    ensures |AsMap(records)| == |records|
    decreases |records|
  {
    if records != [] {
      var front := records[..|records| - 1];
      AsMapSize(front);
      AsMapElements(front);
      assert records[|records| - 1].key !in AsMap(front);
    }
  }

  lemma {:induction false} AsMapUpdate(records: seq<Record>, i: nat, r: Record)
    requires DistinctKeys(records) && i < |records| && records[i].key == r.key
    ensures AsMap(records[i := r]) == AsMap(records)[r.key := r]
    decreases |records|
  {
    var n := |records| - 1;
    var front, last := records[..n], records[n];
    DistinctFront(records, i);
    UpdatedFront(records, i, r);
    AppendInMap(front, last);
    hide KeysOf, AsMap, DistinctKeys;
    if i < n {
      AsMapUpdate(front, i, r);
      AppendInMap(front[i := r], last);
      UpdatesCommute(AsMap(front), last, r);
    } else {
      AppendInMap(front, r);
      UpdateTwice(AsMap(front), last, r);
    }
  }

  lemma UpdatedFront(records: seq<Record>, i: nat, r: Record)
    requires i < |records|
    ensures var n := |records| - 1;
            && records == records[..n] + [records[n]]
            && records[i := r] == if i < n then records[..n][i := r] + [records[n]] else records[..n] + [r]
  {
  }

  lemma UpdateTwice(m: Contents, a: Record, b: Record)
    requires a.key == b.key
    ensures m[a.key := a][b.key := b] == m[b.key := b]
  {
  }

  lemma DistinctFront(records: seq<Record>, i: nat)
    requires DistinctKeys(records) && i < |records|
    ensures DistinctKeys(records[..|records| - 1])
    ensures i < |records| - 1 ==> records[i].key != records[|records| - 1].key
  {
  }

  lemma UpdatesCommute(m: Contents, a: Record, b: Record)
    requires a.key != b.key
    ensures m[a.key := a][b.key := b] == m[b.key := b][a.key := a]
  {
  }

  lemma AppendInMap(records: seq<Record>, r: Record)
    ensures AsMap(records + [r]) == AsMap(records)[r.key := r]
  {
    assert (records + [r])[..|records|] == records;
  }

  lemma FoundInMap(records: seq<Record>, key: Key)
    requires DistinctKeys(records)
    ensures match Find(records, key)
            case None => key !in AsMap(records)
            case Some(i) => key in AsMap(records) && AsMap(records)[key] == records[i]
  {
    var found := Find(records, key);
    if found.Some? {
      AsMapAt(records, found.value);
    }
  }

  /** Folding one more line writes it, unless the store would have rejected it. */
  lemma AbsorbWrites(records: seq<Record>, r: Record, strategy: Strategy)
    requires DistinctKeys(records)
    ensures DistinctKeys(Absorb(records, r, strategy))
    ensures AsMap(Absorb(records, r, strategy)) == WriteTo(AsMap(records), r, strategy).0
  {
    hide KeysOf, AsMap;
    FoundInMap(records, r.key);
    AppendInMap(records, r);
    match Find(records, r.key)
    case None =>
    case Some(i) =>
      if records[i].payload != r.payload && ReplacesConflicts(strategy) {
        AsMapUpdate(records, i, r);
      }
  }

  lemma {:induction false} CanonicalDistinct(lines: seq<Record>, strategy: Strategy)
    ensures DistinctKeys(Canonical(lines, strategy))
    decreases |lines|
  {
    if lines != [] {
      CanonicalDistinct(lines[..|lines| - 1], strategy);
      AbsorbWrites(Canonical(lines[..|lines| - 1], strategy), lines[|lines| - 1], strategy);
    }
  }

  /** Records with distinct keys fold to themselves. */
  lemma {:induction false} CanonicalOfDistinct(records: seq<Record>, strategy: Strategy)
    requires DistinctKeys(records)
    ensures Canonical(records, strategy) == records
    decreases |records|
  {
    if records != [] {
      var front := records[..|records| - 1];
      CanonicalOfDistinct(front, strategy);
      assert records == front + [records[|records| - 1]];
      assert Find(front, records[|records| - 1].key).None?;
    }
  }

  ghost function Folded(lines: seq<Record>, strategy: Strategy): Contents {
    AsMap(Canonical(lines, strategy))
  }

  /** One more line in the log is one more write to the contents. */
  lemma FoldedAppend(lines: seq<Record>, r: Record, strategy: Strategy)
    ensures Folded(lines + [r], strategy) == WriteTo(Folded(lines, strategy), r, strategy).0
  {
    hide Absorb, WriteTo, AsMap;
    assert (lines + [r])[..|lines|] == lines;
    CanonicalDistinct(lines, strategy);
    AbsorbWrites(Canonical(lines, strategy), r, strategy);
  }

  function FilterRecords(records: seq<Record>, q: Query): (out: seq<Record>)
    ensures forall r :: r in out <==> r in records && Matches(r, q)
  {
    if records == [] then []
    else
      assert records == [records[0]] + records[1..];
      (if Matches(records[0], q) then [records[0]] else []) + FilterRecords(records[1..], q)
  }

  lemma {:induction false} FilterDistinct(records: seq<Record>, q: Query)
    requires DistinctKeys(records)
    ensures DistinctKeys(FilterRecords(records, q))
    decreases |records|
  {
    hide Matches;
    if records != [] {
      FilterDistinct(records[1..], q);
      forall r | r in FilterRecords(records[1..], q)
        ensures r.key != records[0].key
      {
        var i :| 0 <= i < |records| - 1 && records[1..][i] == r;
      }
    }
  }

  class JsonlStore {
    var lines: seq<Record>
    const dedupStrategy: Strategy

    ghost function View(): Contents
      reads this
    {
      Folded(lines, dedupStrategy)
    }

    constructor (dedupStrategy: Strategy)
      ensures lines == [] && View() == map[] && this.dedupStrategy == dedupStrategy
    {
      lines := [];
      this.dedupStrategy := dedupStrategy;
    }

    /** Reads the whole log into a dictionary; its values in insertion order. */
    method CanonicalRecords() returns (records: seq<Record>)
      ensures records == Canonical(lines, dedupStrategy)
      ensures DistinctKeys(records) && AsMap(records) == View()
    {
      records := [];
      var i := 0;
      while i < |lines|
        invariant 0 <= i <= |lines| && records == Canonical(lines[..i], dedupStrategy)
      {
        var record := lines[i];
        assert lines[..i + 1][..i] == lines[..i];
        var existing := Find(records, record.key);
        if existing.None? {
          records := records + [record];
        } else if records[existing.value].payload != record.payload && ReplacesConflicts(dedupStrategy) {
          records := records[existing.value := record];
        }
        i := i + 1;
      }
      assert lines[..i] == lines;
      CanonicalDistinct(lines, dedupStrategy);
    }

    method Write(record: Record) returns (result: WriteResult)
      modifies this
      ensures (View(), result) == WriteTo(old(View()), record, dedupStrategy)
      ensures record.key !in old(View()) ==>
                View() == old(View())[record.key := record] && result == WriteResult(true, false, false, None)
      ensures record.key in old(View()) && old(View())[record.key].payload == record.payload ==>
                View() == old(View()) && result == WriteResult(true, true, false, None)
      ensures record.key in old(View()) && old(View())[record.key].payload != record.payload ==>
                match dedupStrategy
                case KeepFirst => View() == old(View()) && result == WriteResult(true, true, true, None)
                case KeepLast | Overwrite =>
                  View() == old(View())[record.key := record] && result == WriteResult(true, true, true, None)
                case Reject =>
                  && View() == old(View())
                  && result == WriteResult(false, true, true, Some("duplicate conflict rejected"))
      ensures lines == if result.stored then old(lines) + [record] else old(lines)
    {
      hide Canonical, AsMap;
      var canonical := CanonicalRecords();
      var existing := Find(canonical, record.key);
      var duplicate := existing.Some?;
      var conflict := existing.Some? && canonical[existing.value].payload != record.payload;
      FoundInMap(canonical, record.key);
      if conflict && dedupStrategy == Reject {
        return WriteResult(false, true, true, Some("duplicate conflict rejected"));
      }
      FoldedAppend(lines, record, dedupStrategy);
      lines := lines + [record];
      return WriteResult(true, duplicate, conflict, None);
    }

    method ListRecords(q: Query, limit: nat, offset: nat) returns (list: seq<Record>)
      ensures list == Page(ListingOf(View(), q), limit, offset)
    {
      var canonical := CanonicalRecords();
      var records := SortRecords(FilterRecords(canonical, q));
      SortedIsListing(canonical, q);
      ListingUnique(records, ListingOf(View(), q), View(), q);
      return Page(records, limit, offset);
    }

    /** Rewrites the log as its canonical records. */
    method Compact() returns (written: nat)
      modifies this
      ensures lines == Canonical(old(lines), dedupStrategy) && View() == old(View())
      ensures written == |View()|
    {
      var records := CanonicalRecords();
      lines := records;
      CanonicalOfDistinct(records, dedupStrategy);
      AsMapSize(records);
      return |records|;
    }

    method RetainRecords(records: seq<Record>) returns (removed: nat)
      modifies this
      ensures lines == records
      ensures removed == if |records| <= |old(View())| then |old(View())| - |records| else 0
    {
      var existing := CanonicalRecords();
      AsMapSize(existing);
      lines := records;
      return if |records| <= |existing| then |existing| - |records| else 0;
    }
  }

  lemma SortedIsListing(records: seq<Record>, q: Query)
    requires DistinctKeys(records)
    ensures Listing(SortRecords(FilterRecords(records, q)), AsMap(records), q)
  {
    hide Matches, Sorted, AsMap, SortRecords, FilterRecords;
    FilterDistinct(records, q);
    SortSorts(FilterRecords(records, q));
    AsMapElements(records);
  }

  // Runs of operations on both stores.

  /** What a caller can ask of either store. A retention keeps the listed records with given keys. */
  datatype Op = WriteRecord(record: Record) | Compact | Retain(keep: set<Key>)

  /** The listed records a retention hands to the store. */
  ghost function Kept(m: Contents, keep: set<Key>): (records: seq<Record>)
    ensures Listing(records, Restrict(m, keep), EVERYTHING)
  {
    ListingOf(Restrict(m, keep), EVERYTHING)
  }

  ghost function SqliteNext(m: Contents, op: Op, strategy: Strategy): (Contents, Option<WriteResult>) {
    match op
    case WriteRecord(r) => var (m', result) := WriteTo(m, r, strategy); (m', Some(result))
    case Compact => (m, None)
    case Retain(keep) => (Restrict(m, KeysOf(Kept(m, keep))), None)
  }

  ghost function JsonlNext(lines: seq<Record>, op: Op, strategy: Strategy): (seq<Record>, Option<WriteResult>) {
    match op
    case WriteRecord(r) =>
      var result := WriteTo(Folded(lines, strategy), r, strategy).1;
      (if result.stored then lines + [r] else lines, Some(result))
    case Compact => (Canonical(lines, strategy), None)
    case Retain(keep) => (Kept(Folded(lines, strategy), keep), None)
  }

  ghost function SqliteRun(ops: seq<Op>, strategy: Strategy): (Contents, seq<Option<WriteResult>>) {
    if ops == [] then (map[], [])
    else
      var (m, results) := SqliteRun(ops[..|ops| - 1], strategy);
      var (m', result) := SqliteNext(m, ops[|ops| - 1], strategy);
      (m', results + [result])
  }

  ghost function JsonlRun(ops: seq<Op>, strategy: Strategy): (seq<Record>, seq<Option<WriteResult>>) {
    if ops == [] then ([], [])
    else
      var (lines, results) := JsonlRun(ops[..|ops| - 1], strategy);
      var (lines', result) := JsonlNext(lines, ops[|ops| - 1], strategy);
      (lines', results + [result])
  }

  lemma SortedDistinct(list: seq<Record>)
    requires Sorted(list)
    requires forall r, s :: r in list && s in list && r.key == s.key ==> r == s
    ensures DistinctKeys(list)
  {
    hide Before;
    forall i, j | 0 <= i < j < |list|
      ensures list[i].key != list[j].key
    {
      assert list[i] in list && list[j] in list;
      DisplayOrder(list[i], list[j], list[i]);
    }
  }

  lemma ListingDistinct(list: seq<Record>, m: Contents)
    requires Listing(list, m, EVERYTHING)
    ensures DistinctKeys(list)
  {
    hide Sorted;
    SortedDistinct(list);
  }

  lemma ListingKeys(list: seq<Record>, m: Contents)
    requires Listing(list, m, EVERYTHING)
    ensures KeysOf(list) == m.Keys
  {
    hide Sorted;
    forall k
      ensures k in KeysOf(list) <==> k in m
    {
      if k in m {
        assert m[k] in list;
      }
    }
  }

  lemma ListingAsMap(list: seq<Record>, m: Contents)
    requires Listing(list, m, EVERYTHING)
    ensures AsMap(list) == m
  {
    ListingDistinct(list, m);
    ListingKeys(list, m);
    AsMapElements(list);
    hide Sorted, KeysOf, AsMap;
    forall k | k in m
      ensures AsMap(list)[k] == m[k]
    {
      assert m[k] in list;
    }
  }

  /** The log rewritten as a listing folds back to what was listed. */
  lemma ListingFolds(list: seq<Record>, m: Contents, strategy: Strategy)
    requires Listing(list, m, EVERYTHING)
    ensures Folded(list, strategy) == m && |list| == |m| && KeysOf(list) == m.Keys
  {
    ListingDistinct(list, m);
    ListingKeys(list, m);
    ListingAsMap(list, m);
    hide Listing, AsMap, KeysOf;
    CanonicalOfDistinct(list, strategy);
    AsMapSize(list);
  }

  lemma {:induction false} NextAgrees(m: Contents, lines: seq<Record>, op: Op, strategy: Strategy)
    requires Folded(lines, strategy) == m
    ensures var (m', a) := SqliteNext(m, op, strategy);
            var (lines', b) := JsonlNext(lines, op, strategy);
            Folded(lines', strategy) == m' && a == b
  {
    hide WriteTo, Canonical, AsMap, Listing;
    match op
    case WriteRecord(r) =>
      FoldedAppend(lines, r, strategy);
      RejectedUnchanged(m, r, strategy);
    case Compact =>
      CanonicalDistinct(lines, strategy);
      CanonicalOfDistinct(Canonical(lines, strategy), strategy);
    case Retain(keep) =>
      var kept := Kept(m, keep);
      ListingFolds(kept, Restrict(m, keep), strategy);
      assert Restrict(m, KeysOf(kept)) == Restrict(m, keep);
  }

  lemma RejectedUnchanged(m: Contents, r: Record, strategy: Strategy)
    ensures !WriteTo(m, r, strategy).1.stored ==> WriteTo(m, r, strategy).0 == m
  {
  }

  /** Whatever is done to both stores with the same strategy, they hold the same records, every write
      returned the same result, and every query lists the same records in the same order. */
  lemma {:induction false} StoresAgree(ops: seq<Op>, strategy: Strategy)
    ensures Folded(JsonlRun(ops, strategy).0, strategy) == SqliteRun(ops, strategy).0
    ensures JsonlRun(ops, strategy).1 == SqliteRun(ops, strategy).1
    ensures forall q ::
              ListingOf(Folded(JsonlRun(ops, strategy).0, strategy), q) == ListingOf(SqliteRun(ops, strategy).0, q)
    decreases |ops|
  {
    hide Folded, SqliteNext, JsonlNext;
    if ops != [] {
      StoresAgree(ops[..|ops| - 1], strategy);
      NextAgrees(SqliteRun(ops[..|ops| - 1], strategy).0, JsonlRun(ops[..|ops| - 1], strategy).0, ops[|ops| - 1],
        strategy);
    } else {
      NothingFolded(strategy);
    }
  }

  lemma NothingFolded(strategy: Strategy)
    ensures Folded([], strategy) == map[]
  {
  }

  /** The `max(0, ...)` a JSONL retention reports is the number of rows a SQLite retention deletes. */
  lemma RetentionCountsAgree(m: Contents, keep: set<Key>)
    ensures |Kept(m, keep)| == |Restrict(m, keep)| <= |m|
  {
    hide Listing;
    ListingFolds(Kept(m, keep), Restrict(m, keep), KeepFirst);
    KeysNotMore(Restrict(m, keep).Keys, m.Keys);
    SizeOfKeys(m);
    SizeOfKeys(Restrict(m, keep));
  }

  lemma {:induction false} KeysNotMore(a: set<Key>, b: set<Key>)
    requires a <= b
    ensures |a| <= |b|
  {
    if a != {} {
      var k :| k in a;
      KeysNotMore(a - {k}, b - {k});
    }
  }
}
