/** Reconciliation: every enabled store is backfilled from the others. */
module Reconcile {
  import opened Bytes
  import opened Measurements
  import opened ServerStores

  const LIST_LIMIT := 1_000_000

  datatype Conflict = KeepExisting | TakeCandidate | Earliest | Latest | Refuse

  datatype Backfill = Backfill(source: string, exclude: set<string>, conflict: Conflict)

  datatype Setup = Setup(target: string, backfill: Backfill)

  // What one store's backfill does, on contents.

  function Resolve(existing: Record, candidate: Record, conflict: Conflict): (r: Option<Record>)
    ensures r.Some? ==> r.value == existing || r.value == candidate
  {
    if existing.payload == candidate.payload then Some(existing)
    else
      match conflict
      case KeepExisting => Some(existing)
      case TakeCandidate => Some(candidate)
      case Earliest => Some(if candidate.displayUnixMs < existing.displayUnixMs then candidate else existing)
      case Latest => Some(if candidate.displayUnixMs > existing.displayUnixMs then candidate else existing)
      case Refuse => None
  }

  /** The sources' records, and the keys on which they disagreed beyond repair. */
  datatype Gathered = Gathered(records: Contents, blocked: set<Key>)

  function GatherOne(g: Gathered, r: Record, conflict: Conflict): Gathered {
    if r.key in g.blocked then g
    else if r.key !in g.records then Gathered(g.records[r.key := r], g.blocked)
    else
      match Resolve(g.records[r.key], r, conflict)
      case None => Gathered(g.records - {r.key}, g.blocked + {r.key})
      case Some(selected) => Gathered(g.records[r.key := selected], g.blocked)
  }

  function GatherAll(g: Gathered, list: seq<Record>, conflict: Conflict): Gathered {
    if list == [] then g else GatherOne(GatherAll(g, list[..|list| - 1], conflict), list[|list| - 1], conflict)
  }

  predicate UsesSource(destination: Setup, source: Setup) {
    && source.target != destination.target
    && source.target !in destination.backfill.exclude
    && (destination.backfill.source == "all" || source.target == destination.backfill.source)
  }

  const NOTHING := Gathered(map[], {})

  /** What destination `i` collects from the first `n` stores. */
  ghost function SourcesUpTo(setups: seq<Setup>, views: seq<Contents>, i: nat, n: nat): Gathered
    requires |views| == |setups| && i < |setups| && n <= |setups|
  {
    if n == 0 then NOTHING
    else
      var g := SourcesUpTo(setups, views, i, n - 1);
      if UsesSource(setups[i], setups[n - 1])
      then GatherAll(g, ListingOf(views[n - 1], EVERYTHING), setups[i].backfill.conflict) else g
  }

  /** What stays at a key both sides have. */
  function Winner(existing: Record, candidate: Record, conflict: Conflict): (r: Record)
    ensures r == existing || r == candidate
  {
    match Resolve(existing, candidate, conflict)
    case None => existing
    case Some(selected) => if selected.payload == existing.payload then existing else selected
  }

  function MergedAt(dest: Contents, src: Contents, conflict: Conflict, k: Key): (r: Record)
    requires k in dest || k in src
    ensures r.key == k
  {
    if k !in dest then src[k] else if k !in src then dest[k] else Winner(dest[k], src[k], conflict)
  }

  /** The destination after its backfill. */
  function Merged(dest: Contents, src: Contents, conflict: Conflict): (m: Contents)
    ensures m.Keys == dest.Keys + src.Keys
  {
    map k | k in dest.Keys + src.Keys :: MergedAt(dest, src, conflict, k)
  }

  /** The keys at which the backfill writes. */
  function Written(dest: Contents, src: Contents, conflict: Conflict): set<Key> {
    set k | k in src && (k !in dest || MergedAt(dest, src, conflict, k) != dest[k])
  }

  ghost function ReconcileFrom(setups: seq<Setup>, views: seq<Contents>, i: nat): (r: (seq<Contents>, nat))
    requires |views| == |setups| && i <= |setups|
    ensures |r.0| == |views|
    decreases |setups| - i
  {
    if i == |setups| then (views, 0)
    else
      var src := SourcesUpTo(setups, views, i, |setups|).records;
      var conflict := setups[i].backfill.conflict;
      var (views', writes) := ReconcileFrom(setups, views[i := Merged(views[i], src, conflict)], i + 1);
      (views', |Written(views[i], src, conflict)| + writes)
  }

  /** One pass over all stores: their contents afterwards, and the number of writes. */
  ghost function Pass(setups: seq<Setup>, views: seq<Contents>): (r: (seq<Contents>, nat))
    requires |views| == |setups|
    ensures |r.0| == |views|
  {
    if |setups| < 2 then (views, 0) else ReconcileFrom(setups, views, 0)
  }

  // The pass over the real stores.

  datatype Store = Sqlite(sqlite: SqliteStore) | Jsonl(jsonl: JsonlStore)

  function ObjectOf(store: Store): object {
    match store
    case Sqlite(s) => s
    case Jsonl(s) => s
  }

  ghost function ViewOf(store: Store): Contents
    reads ObjectOf(store)
  {
    match store
    case Sqlite(s) => s.View()
    case Jsonl(s) => s.View()
  }

  function StrategyOf(store: Store): Strategy {
    match store
    case Sqlite(s) => s.dedupStrategy
    case Jsonl(s) => s.dedupStrategy
  }

  method WriteStore(store: Store, r: Record) returns (result: WriteResult)
    modifies ObjectOf(store)
    ensures (ViewOf(store), result) == WriteTo(old(ViewOf(store)), r, StrategyOf(store))
  {
    match store
    case Sqlite(s) => result := s.Write(r);
    case Jsonl(s) => result := s.Write(r);
  }

  /** What a list call without a query returns: the first 1,000,000 records of the listing. */
  ghost function Listed(m: Contents): (list: seq<Record>)
    ensures forall r :: r in list ==> r.key in m && m[r.key] == r
  {
    hide Sorted;
    Page(ListingOf(m, EVERYTHING), LIST_LIMIT, 0)
  }

  method ListStore(store: Store) returns (list: seq<Record>)
    ensures list == Listed(ViewOf(store))
    ensures |ViewOf(store)| <= LIST_LIMIT ==> list == ListingOf(ViewOf(store), EVERYTHING)
  {
    match store {
      case Sqlite(s) => list := s.ListRecords(EVERYTHING, LIST_LIMIT, 0);
      case Jsonl(s) => list := s.ListRecords(EVERYTHING, LIST_LIMIT, 0);
    }
    WholePage(ViewOf(store));
  }

  method ListWhole(store: Store) returns (list: seq<Record>)
    requires |ViewOf(store)| <= LIST_LIMIT
    ensures list == ListingOf(ViewOf(store), EVERYTHING)
  {
    list := ListStore(store);
  }

  /** A store of at most 1,000,000 records is listed whole; of a bigger one, exactly that many are. */
  lemma WholePage(m: Contents)
    ensures |m| <= LIST_LIMIT ==> Listed(m) == ListingOf(m, EVERYTHING)
    ensures |Listed(m)| == Min(|m|, 1_000_000)
  {
    hide Listing;
    ListingFolds(ListingOf(m, EVERYTHING), m, KeepFirst);
  }

  /** Listed records stand in display order, each key once. */
  lemma ListedInOrder(m: Contents)
    ensures Sorted(Listed(m)) && DistinctKeys(Listed(m))
  {
    hide Before;
    ListingDistinct(ListingOf(m, EVERYTHING), m);
  }

  method RetainInStore(store: Store, records: seq<Record>) returns (removed: nat)
    requires forall r :: r in records ==> r.key in ViewOf(store) && ViewOf(store)[r.key] == r
    requires DistinctKeys(records)
    modifies ObjectOf(store)
    ensures ViewOf(store) == Restrict(old(ViewOf(store)), KeysOf(records))
    ensures removed == |old(ViewOf(store))| - |records|
  {
    RetainedIsRestricted(ViewOf(store), records, StrategyOf(store));
    RetainedCount(ViewOf(store), records);
    match store
    case Sqlite(s) => removed := s.RetainRecords(records);
    case Jsonl(s) => removed := s.RetainRecords(records);
  }

  lemma RetainedCount(m: Contents, records: seq<Record>)
    requires forall r :: r in records ==> r.key in m && m[r.key] == r
    requires DistinctKeys(records)
    ensures |Restrict(m, KeysOf(records))| == |records| <= |m|
  {
    RetainedIsRestricted(m, records, KeepFirst);
    CanonicalOfDistinct(records, KeepFirst);
    AsMapSize(records);
    hide DistinctKeys, AsMap, Canonical, KeysOf;
    RestrictedKeys(m, KeysOf(records));
    SizeOfKeys(m);
    SizeOfKeys(Restrict(m, KeysOf(records)));
    KeysNotMore(Restrict(m, KeysOf(records)).Keys, m.Keys);
  }

  lemma RetainedIsRestricted(m: Contents, records: seq<Record>, strategy: Strategy)
    requires forall r :: r in records ==> r.key in m && m[r.key] == r
    requires DistinctKeys(records)
    ensures Folded(records, strategy) == Restrict(m, KeysOf(records))
  {
    CanonicalOfDistinct(records, strategy);
    AsMapElements(records);
    hide DistinctKeys, Canonical;
    var folded := AsMap(records);
    forall k | k in folded
      ensures k in m && folded[k] == m[k]
    {
      var r :| r in records && r.key == k;
    }
  }

  function Without(list: seq<Record>, key: Key): (out: seq<Record>)
    ensures forall r :: r in out <==> r in list && r.key != key
  {
    if list == [] then []
    else
      assert list == [list[0]] + list[1..];
      (if list[0].key != key then [list[0]] else []) + Without(list[1..], key)
  }

  lemma {:induction false} WithoutDistinct(list: seq<Record>, key: Key)
    requires DistinctKeys(list)
    ensures DistinctKeys(Without(list, key))
    decreases |list|
  {
    if list != [] {
      WithoutDistinct(list[1..], key);
      forall r | r in Without(list[1..], key)
        ensures r.key != list[0].key
      {
        var i :| 0 <= i < |list| - 1 && list[1..][i] == r;
      }
    }
  }

  /** Replaces one record: everything else that is listed is retained, then the record is written. In a
      store of at most 1,000,000 records that is everything else. */
  method ReplaceStoreRecord(store: Store, key: Key, r: Record) returns (stored: bool)
    requires r.key == key
    modifies ObjectOf(store)
    ensures stored
    ensures ViewOf(store) == Restrict(old(ViewOf(store)), KeysOf(Without(Listed(old(ViewOf(store))), key)))[key := r]
    ensures |old(ViewOf(store))| <= LIST_LIMIT ==> ViewOf(store) == old(ViewOf(store))[key := r]
  {
    ghost var before := ViewOf(store);
    var all := ListStore(store);
    var retained := Without(all, key);
    ListedInOrder(before);
    WithoutDistinct(all, key);
    ReplacedContents(before, all, retained, key, r);
    hide Listing, Listed, DistinctKeys, KeysOf, Restrict;
    var removed := RetainInStore(store, retained);
    var result := WriteStore(store, r);
    return result.stored;
  }

  lemma ReplacedContents(m: Contents, all: seq<Record>, retained: seq<Record>, key: Key, r: Record)
    requires all == Listed(m) && r.key == key
    requires forall x :: x in retained <==> x in all && x.key != key
    ensures key !in Restrict(m, KeysOf(retained))
    ensures |m| <= LIST_LIMIT ==> Restrict(m, KeysOf(retained))[key := r] == m[key := r]
    ensures forall x :: x in retained ==> x.key in m && m[x.key] == x
  {
    hide Sorted;
    if |m| <= LIST_LIMIT {
      WholePage(m);
      forall k | k in m && k != key
        ensures k in KeysOf(retained)
      {
        assert m[k] in all;
        assert m[k] in retained;
      }
    }
  }

  datatype ConfiguredStore = ConfiguredStore(setup: Setup, store: Store)

  predicate Separate(stores: seq<ConfiguredStore>) {
    forall i, j :: 0 <= i < j < |stores| ==> ObjectOf(stores[i].store) != ObjectOf(stores[j].store)
  }

  ghost function ObjectsOf(stores: seq<ConfiguredStore>): set<object> {
    set c | c in stores :: ObjectOf(c.store)
  }

  function SetupsOf(stores: seq<ConfiguredStore>): (r: seq<Setup>)
    ensures |r| == |stores| && forall i :: 0 <= i < |r| ==> r[i] == stores[i].setup
  {
    seq(|stores|, i requires 0 <= i < |stores| => stores[i].setup)
  }

  ghost predicate Holds(stores: seq<ConfiguredStore>, views: seq<Contents>)
    reads ObjectsOf(stores)
  {
    |views| == |stores| && forall i :: 0 <= i < |stores| ==> ViewOf(stores[i].store) == views[i]
  }

  ghost predicate KeysWithin(views: seq<Contents>, all: set<Key>) {
    |all| <= LIST_LIMIT && forall i :: 0 <= i < |views| ==> views[i].Keys <= all
  }

  lemma WithinLimit(m: Contents, all: set<Key>)
    requires m.Keys <= all && |all| <= LIST_LIMIT
    ensures |m| <= LIST_LIMIT
  {
    KeysNotMore(m.Keys, all);
    SizeOfKeys(m);
  }

  method GatherList(g: Gathered, list: seq<Record>, conflict: Conflict) returns (r: Gathered)
    ensures r == GatherAll(g, list, conflict)
  {
    var recordsByKey, blocked := g.records, g.blocked;
    var i := 0;
    while i < |list|
      invariant 0 <= i <= |list| && Gathered(recordsByKey, blocked) == GatherAll(g, list[..i], conflict)
    {
      var record := list[i];
      assert list[..i + 1][..i] == list[..i];
      i := i + 1;
      if record.key in blocked {
        continue;
      }
      if record.key !in recordsByKey {
        recordsByKey := recordsByKey[record.key := record];
        continue;
      }
      var selected := Resolve(recordsByKey[record.key], record, conflict);
      if selected.None? {
        blocked := blocked + {record.key};
        recordsByKey := recordsByKey - {record.key};
        continue;
      }
      recordsByKey := recordsByKey[record.key := selected.value];
    }
    assert list[..i] == list;
    return Gathered(recordsByKey, blocked);
  }

  method GatherFrom(stores: seq<ConfiguredStore>, n: nat, g: Gathered, conflict: Conflict,
                    ghost views: seq<Contents>, ghost all: set<Key>)
    returns (g': Gathered)
    requires n < |stores| && Holds(stores, views) && KeysWithin(views, all)
    ensures Holds(stores, views)
    ensures g' == GatherAll(g, ListingOf(views[n], EVERYTHING), conflict)
  {
    hide RecordsOf, Folded, Listing, GatherAll;
    ViewAt(stores, views, all, n);
    var list := ListWhole(stores[n].store);
    g' := GatherList(g, list, conflict);
    forall j | 0 <= j < |stores|
      ensures ViewOf(stores[j].store) == views[j]
    {
      assert old(ViewOf(stores[j].store)) == views[j];
      match stores[j].store
      case Sqlite(s) => assert s.rows == old(s.rows);
      case Jsonl(s) => assert s.lines == old(s.lines);
    }
  }

  method BackfillSourceRecords(stores: seq<ConfiguredStore>, i: nat, ghost views: seq<Contents>, ghost all: set<Key>)
    returns (records: Contents)
    requires i < |stores| && Holds(stores, views) && KeysWithin(views, all)
    ensures records == SourcesUpTo(SetupsOf(stores), views, i, |stores|).records
  {
    assert |views| == |stores|;
    hide GatherAll, Listing, KeysWithin, SourcesUpTo, Holds;
    var g := NOTHING;
    var n := 0;
    SourcesNone(SetupsOf(stores), views, i);
    while n < |stores|
      invariant 0 <= n <= |stores| && g == SourcesUpTo(SetupsOf(stores), views, i, n)
      invariant Holds(stores, views)
    {
      SourcesStep(SetupsOf(stores), views, i, n);
      if UsesSource(stores[i].setup, stores[n].setup) {
        g := GatherFrom(stores, n, g, stores[i].setup.backfill.conflict, views, all);
      }
      n := n + 1;
    }
    return g.records;
  }

  lemma ViewAt(stores: seq<ConfiguredStore>, views: seq<Contents>, all: set<Key>, n: nat)
    requires n < |stores| && Holds(stores, views) && KeysWithin(views, all)
    ensures |views| == |stores| && ViewOf(stores[n].store) == views[n] && |views[n]| <= LIST_LIMIT
    ensures views[n].Keys <= all && |all| <= LIST_LIMIT
  {
    hide ViewOf;
    WithinLimit(views[n], all);
  }

  lemma SourcesNone(setups: seq<Setup>, views: seq<Contents>, i: nat)
    requires |views| == |setups| && i < |setups|
    ensures SourcesUpTo(setups, views, i, 0) == NOTHING
  {
  }

  lemma SourcesStep(setups: seq<Setup>, views: seq<Contents>, i: nat, n: nat)
    requires |views| == |setups| && i < |setups| && n < |setups|
    ensures var g := SourcesUpTo(setups, views, i, n);
            SourcesUpTo(setups, views, i, n + 1)
            == if UsesSource(setups[i], setups[n])
               then GatherAll(g, ListingOf(views[n], EVERYTHING), setups[i].backfill.conflict) else g
  {
    hide GatherAll, UsesSource, Listing;
  }

  /** Brings one destination up to date with the records collected for it. */
  method BackfillInto(store: Store, src: Contents, conflict: Conflict, ghost all: set<Key>) returns (writes: nat)
    requires ViewOf(store).Keys <= all && src.Keys <= all && |all| <= LIST_LIMIT
    modifies ObjectOf(store)
    ensures ViewOf(store) == Merged(old(ViewOf(store)), src, conflict)
    ensures writes == |Written(old(ViewOf(store)), src, conflict)|
  {
    hide Listing, Merged, Written, ViewOf, Restrict, Updated, AsMap, KeysOf, Winner;
    ghost var before := ViewOf(store);
    WithinLimit(before, all);
    var list := ListStore(store);
    ListingAsMap(list, before);
    var records := AsMap(list);
    var todo := src.Keys;
    ghost var seen: set<Key> := {};
    writes := 0;
    MergedWithNothing(before, conflict);
    RestrictEnds(src);
    while todo != {}
      invariant todo <= src.Keys && seen == src.Keys - todo
      invariant records == ViewOf(store) == Merged(before, Restrict(src, seen), conflict)
      invariant writes == |Written(before, Restrict(src, seen), conflict)|
      decreases |todo|
    {
      var key :| key in todo;
      BackfillProgress(before, src, seen, key, conflict, all);
      TakeOne(src.Keys, todo, key);
      todo := todo - {key};
      seen := seen + {key};
      var written: bool;
      records, written := BackfillRecord(store, records, src[key], conflict);
      if written {
        writes := writes + 1;
      }
    }
    assert seen == src.Keys;
  }

  lemma TakeOne(all: set<Key>, todo: set<Key>, k: Key)
    requires k in todo && todo <= all
    ensures all - (todo - {k}) == (all - todo) + {k}
    ensures |todo - {k}| < |todo|
  {
  }

  lemma RestrictEnds(m: Contents)
    ensures Restrict(m, {}) == map[] && Restrict(m, m.Keys) == m
  {
  }

  lemma RestrictMore(m: Contents, keep: set<Key>, k: Key)
    requires k in m && k !in keep
    ensures k !in Restrict(m, keep)
    ensures Restrict(m, keep + {k}) == Restrict(m, keep)[k := m[k]]
  {
  }

  /** What handling one more key changes, and what may be relied on before it. */
  lemma BackfillProgress(before: Contents, src: Contents, seen: set<Key>, k: Key, conflict: Conflict, all: set<Key>)
    requires k in src && k !in seen && before.Keys <= all && src.Keys <= all && |all| <= LIST_LIMIT
    ensures var done := Restrict(src, seen);
            var now := Merged(before, done, conflict);
            && |now| <= LIST_LIMIT
            && Merged(before, Restrict(src, seen + {k}), conflict) == Updated(now, src[k], conflict)
            && |Written(before, Restrict(src, seen + {k}), conflict)|
               == |Written(before, done, conflict)|
                  + (if k !in now || Winner(now[k], src[k], conflict) != now[k] then 1 else 0)
  {
    var done := Restrict(src, seen);
    RestrictMore(src, seen, k);
    RestrictedKeys(src, seen);
    hide Restrict, Merged, Written, Updated, Winner;
    MergedOneMore(before, done, src[k], conflict);
    MergedUntouched(before, done, k, conflict);
    WrittenOneMore(before, done, src[k], conflict);
    WithinLimit(Merged(before, done, conflict), all);
  }

  lemma RestrictedKeys(m: Contents, keep: set<Key>)
    ensures Restrict(m, keep).Keys <= m.Keys
  {
  }

  /** One source record: written if new, and in place of the existing one if it wins. */
  method BackfillRecord(store: Store, records: Contents, r: Record, conflict: Conflict)
    returns (records': Contents, written: bool)
    requires records == ViewOf(store) && |records| <= LIST_LIMIT
    modifies ObjectOf(store)
    ensures records' == ViewOf(store) == Updated(records, r, conflict)
    ensures written <==> r.key !in records || Winner(records[r.key], r, conflict) != records[r.key]
  {
    records', written := records, false;
    if r.key !in records {
      var result := WriteStore(store, r);
      if result.stored {
        records', written := records[r.key := r], true;
      }
      return;
    }
    hide ViewOf;
    var selected := Resolve(records[r.key], r, conflict);
    if selected.None? || selected.value.payload == records[r.key].payload {
      assert records[r.key := records[r.key]] == records;
      return;
    }
    var replaced := ReplaceStoreRecord(store, r.key, selected.value);
    records', written := records[r.key := selected.value], true;
  }

  function Updated(m: Contents, r: Record, conflict: Conflict): (m': Contents)
    ensures m'.Keys == m.Keys + {r.key}
  {
    m[r.key := if r.key in m then Winner(m[r.key], r, conflict) else r]
  }

  lemma MergedWithNothing(m: Contents, conflict: Conflict)
    ensures Merged(m, map[], conflict) == m && Written(m, map[], conflict) == {}
  {
  }

  /** One more source record changes the merge at its own key only. */
  lemma MergedElsewhere(m: Contents, done: Contents, r: Record, conflict: Conflict, k: Key)
    requires k != r.key && (k in m || k in done)
    ensures MergedAt(m, done[r.key := r], conflict, k) == MergedAt(m, done, conflict, k)
  {
    hide Winner;
  }

  lemma MergedHere(m: Contents, done: Contents, r: Record, conflict: Conflict)
    requires r.key !in done
    ensures MergedAt(m, done[r.key := r], conflict, r.key) == if r.key in m then Winner(m[r.key], r, conflict) else r
    ensures r.key in m ==> MergedAt(m, done, conflict, r.key) == m[r.key]
  {
    hide Winner;
  }

  lemma MergedOneMoreAt(m: Contents, done: Contents, r: Record, conflict: Conflict, k: Key)
    requires r.key !in done && k in Merged(m, done[r.key := r], conflict)
    ensures k in Updated(Merged(m, done, conflict), r, conflict)
    ensures Merged(m, done[r.key := r], conflict)[k] == Updated(Merged(m, done, conflict), r, conflict)[k]
  {
    MergedUntouched(m, done, r.key, conflict);
    MergedHere(m, done, r, conflict);
    if k != r.key {
      MergedElsewhere(m, done, r, conflict, k);
    }
    hide MergedAt, Winner;
  }

  lemma MergedOneMore(m: Contents, done: Contents, r: Record, conflict: Conflict)
    requires r.key !in done
    ensures Merged(m, done[r.key := r], conflict) == Updated(Merged(m, done, conflict), r, conflict)
  {
    hide Merged, Updated;
    var a, b := Merged(m, done[r.key := r], conflict), Updated(Merged(m, done, conflict), r, conflict);
    assert a.Keys == b.Keys;
    forall k | k in a
      ensures a[k] == b[k]
    {
      MergedOneMoreAt(m, done, r, conflict, k);
    }
  }

  lemma MergedUntouched(m: Contents, done: Contents, k: Key, conflict: Conflict)
    requires k !in done
    ensures k in Merged(m, done, conflict) <==> k in m
    ensures k in m ==> Merged(m, done, conflict)[k] == m[k]
  {
    hide Winner;
  }

  lemma WrittenOneMore(m: Contents, done: Contents, r: Record, conflict: Conflict)
    requires r.key !in done
    ensures r.key !in Written(m, done, conflict)
    ensures Written(m, done[r.key := r], conflict)
         == Written(m, done, conflict)
            + (if r.key !in m || Winner(m[r.key], r, conflict) != m[r.key] then {r.key} else {})
  {
    var a, b := Written(m, done[r.key := r], conflict), Written(m, done, conflict);
    MergedHere(m, done, r, conflict);
    hide MergedAt, Winner;
    forall k | k != r.key
      ensures k in a <==> k in b
    {
      if k in done {
        MergedElsewhere(m, done, r, conflict, k);
      }
    }
  }

  /** One destination's turn: it is merged with what was collected for it, the other stores stay. */
  method BackfillDestination(stores: seq<ConfiguredStore>, i: nat, ghost views: seq<Contents>, ghost all: set<Key>)
    returns (writes: nat)
    requires i < |stores| && Separate(stores) && Holds(stores, views) && KeysWithin(views, all)
    modifies ObjectOf(stores[i].store)
    ensures var src := SourcesUpTo(SetupsOf(stores), views, i, |stores|).records;
            var conflict := stores[i].setup.backfill.conflict;
            && Holds(stores, views[i := Merged(views[i], src, conflict)])
            && KeysWithin(views[i := Merged(views[i], src, conflict)], all)
            && writes == |Written(views[i], src, conflict)|
  {
    hide SourcesUpTo, Merged, Written, ViewOf;
    SourceKeys(SetupsOf(stores), views, i, |stores|, all);
    var src := BackfillSourceRecords(stores, i, views, all);
    writes := BackfillInto(stores[i].store, src, stores[i].setup.backfill.conflict, all);
    forall j | 0 <= j < |stores| && j != i
      ensures ViewOf(stores[j].store) == views[j]
    {
      assert ObjectOf(stores[j].store) != ObjectOf(stores[i].store);
    }
  }

  method ReconcileAll(stores: seq<ConfiguredStore>, ghost setups: seq<Setup>, ghost views: seq<Contents>,
                      ghost all: set<Key>)
    returns (writes: nat)
    requires setups == SetupsOf(stores) && |views| == |setups| == |stores|
    requires Separate(stores) && Holds(stores, views) && KeysWithin(views, all)
    modifies ObjectsOf(stores)
    ensures Holds(stores, ReconcileFrom(setups, views, 0).0)
    ensures writes == ReconcileFrom(setups, views, 0).1
  {
    hide SourcesUpTo, Merged, Written, Holds, KeysWithin, Separate, ReconcileFrom, SetupsOf;
    ghost var now: seq<Contents> := views;
    ghost var goal := ReconcileFrom(setups, views, 0);
    var i := 0;
    writes := 0;
    while i < |stores|
      invariant 0 <= i <= |stores| == |now| && Holds(stores, now) && KeysWithin(now, all)
      invariant goal.0 == ReconcileFrom(setups, now, i).0 && goal.1 == writes + ReconcileFrom(setups, now, i).1
    {
      ReconcileStep(setups, now, i);
      ghost var src := SourcesUpTo(setups, now, i, |stores|).records;
      var n := BackfillDestination(stores, i, now, all);
      now := now[i := Merged(now[i], src, stores[i].setup.backfill.conflict)];
      writes := writes + n;
      i := i + 1;
    }
    ReconcileEnd(setups, now);
  }

  method ReconcileOnce(stores: seq<ConfiguredStore>, ghost views: seq<Contents>, ghost all: set<Key>)
    returns (writes: nat)
    requires Separate(stores) && Holds(stores, views) && KeysWithin(views, all)
    modifies ObjectsOf(stores)
    ensures Holds(stores, Pass(SetupsOf(stores), views).0)
    ensures writes == Pass(SetupsOf(stores), views).1
  {
    hide Separate, KeysWithin, ReconcileFrom, ViewOf;
    if |stores| < 2 {
      return 0;
    }
    writes := ReconcileAll(stores, SetupsOf(stores), views, all);
  }

  lemma ReconcileEnd(setups: seq<Setup>, views: seq<Contents>)
    requires |views| == |setups|
    ensures ReconcileFrom(setups, views, |setups|) == (views, 0)
  {
  }

  lemma ReconcileStep(setups: seq<Setup>, views: seq<Contents>, i: nat)
    requires |views| == |setups| && i < |setups|
    ensures var src := SourcesUpTo(setups, views, i, |setups|).records;
            var conflict := setups[i].backfill.conflict;
            var rest := ReconcileFrom(setups, views[i := Merged(views[i], src, conflict)], i + 1);
            ReconcileFrom(setups, views, i) == (rest.0, |Written(views[i], src, conflict)| + rest.1)
  {
    hide SourcesUpTo, Merged, Written;
  }

  lemma GatheredOneFrom(g: Gathered, r: Record, conflict: Conflict)
    ensures GatherOne(g, r, conflict).records.Keys <= g.records.Keys + {r.key}
    ensures forall k :: k in GatherOne(g, r, conflict).records ==>
              var x := GatherOne(g, r, conflict).records[k];
              x == r || (k in g.records && g.records[k] == x)
  {
    hide Resolve;
  }

  lemma {:induction false} GatheredFrom(g: Gathered, list: seq<Record>, conflict: Conflict)
    ensures GatherAll(g, list, conflict).records.Keys <= g.records.Keys + KeysOf(list)
    ensures forall k :: k in GatherAll(g, list, conflict).records ==>
              var r := GatherAll(g, list, conflict).records[k];
              r in list || (k in g.records && g.records[k] == r)
    decreases |list|
  {
    if list != [] {
      var front, last := list[..|list| - 1], list[|list| - 1];
      assert list == front + [last];
      GatheredFrom(g, front, conflict);
      hide GatherOne, KeysOf;
      GatheredOneFrom(GatherAll(g, front, conflict), last, conflict);
      KeysOfAppend(front, last);
    }
  }

  lemma KeysOfAppend(list: seq<Record>, r: Record)
    ensures KeysOf(list + [r]) == KeysOf(list) + {r.key}
  {
    forall k | k in KeysOf(list) + {r.key}
      ensures k in KeysOf(list + [r])
    {
      if k == r.key {
        assert r in list + [r];
      } else {
        var x :| x in list && x.key == k;
        assert x in list + [r];
      }
    }
  }

  lemma {:induction false} SourceKeys(setups: seq<Setup>, views: seq<Contents>, i: nat, n: nat, all: set<Key>)
    requires |views| == |setups| && i < |setups| && n <= |setups| && KeysWithin(views, all)
    ensures SourcesUpTo(setups, views, i, n).records.Keys <= all
  {
    if n > 0 {
      hide GatherAll, Listing, KeysOf;
      SourceKeys(setups, views, i, n - 1, all);
      var list := ListingOf(views[n - 1], EVERYTHING);
      ListingKeys(list, views[n - 1]);
      GatheredFrom(SourcesUpTo(setups, views, i, n - 1), list, setups[i].backfill.conflict);
    }
  }

  // No pass invents a record.

  ghost predicate StoredIn(views: seq<Contents>, r: Record) {
    exists i :: 0 <= i < |views| && r.key in views[i] && views[i][r.key] == r
  }

  ghost predicate AllFrom(m: Contents, origin: seq<Contents>) {
    forall k :: k in m ==> StoredIn(origin, m[k])
  }

  lemma {:induction false} SourcesFrom(setups: seq<Setup>, views: seq<Contents>, i: nat, n: nat, origin: seq<Contents>)
    requires |views| == |setups| && i < |setups| && n <= |setups|
    requires forall j :: 0 <= j < |views| ==> AllFrom(views[j], origin)
    ensures AllFrom(SourcesUpTo(setups, views, i, n).records, origin)
  {
    if n > 0 {
      hide GatherAll, StoredIn, Sorted;
      SourcesFrom(setups, views, i, n - 1, origin);
      GatheredFrom(SourcesUpTo(setups, views, i, n - 1), ListingOf(views[n - 1], EVERYTHING),
        setups[i].backfill.conflict);
      assert AllFrom(views[n - 1], origin);
    }
  }

  lemma MergedFrom(dest: Contents, src: Contents, conflict: Conflict, origin: seq<Contents>)
    requires AllFrom(dest, origin) && AllFrom(src, origin)
    ensures AllFrom(Merged(dest, src, conflict), origin)
  {
    hide StoredIn;
  }

  lemma {:induction false} ReconcileFromOrigin(setups: seq<Setup>, views: seq<Contents>, i: nat, origin: seq<Contents>)
    requires |views| == |setups| && i <= |setups|
    requires forall j :: 0 <= j < |views| ==> AllFrom(views[j], origin)
    ensures forall j :: 0 <= j < |views| ==> AllFrom(ReconcileFrom(setups, views, i).0[j], origin)
    decreases |setups| - i
  {
    if i < |setups| {
      hide AllFrom, SourcesUpTo, Merged, Written;
      var src := SourcesUpTo(setups, views, i, |setups|).records;
      var conflict := setups[i].backfill.conflict;
      SourcesFrom(setups, views, i, |setups|, origin);
      MergedFrom(views[i], src, conflict, origin);
      ReconcileFromOrigin(setups, views[i := Merged(views[i], src, conflict)], i + 1, origin);
    }
  }

  /** However many stores there are, every record a store holds after a pass was held by some store before. */
  lemma NothingInvented(setups: seq<Setup>, views: seq<Contents>, i: nat, k: Key)
    requires |views| == |setups| && i < |setups| && k in Pass(setups, views).0[i]
    ensures StoredIn(views, Pass(setups, views).0[i][k])
  {
    hide ReconcileFrom;
    forall j | 0 <= j < |views|
      ensures AllFrom(views[j], views)
    {
    }
    if |setups| >= 2 {
      ReconcileFromOrigin(setups, views, 0, views);
      assert AllFrom(Pass(setups, views).0[i], views);
    }
  }

  // Two stores, as the server is configured.

  lemma {:induction false} GatherDistinct(list: seq<Record>, conflict: Conflict)
    requires DistinctKeys(list)
    ensures GatherAll(NOTHING, list, conflict) == Gathered(AsMap(list), {})
    decreases |list|
  {
    if list != [] {
      var front, last := list[..|list| - 1], list[|list| - 1];
      GatherDistinct(front, conflict);
      forall r | r in front
        ensures r.key != last.key
      {
        var i :| 0 <= i < |front| && front[i] == r;
      }
    }
  }

  lemma GatherListing(m: Contents, conflict: Conflict)
    ensures GatherAll(NOTHING, ListingOf(m, EVERYTHING), conflict) == Gathered(m, {})
  {
    hide Listing, GatherAll, DistinctKeys, AsMap;
    var list := ListingOf(m, EVERYTHING);
    ListingDistinct(list, m);
    ListingAsMap(list, m);
    GatherDistinct(list, conflict);
  }

  /** What one store is offered by the other. */
  function Offered(destination: Setup, source: Setup, view: Contents): Contents {
    if UsesSource(destination, source) then view else map[]
  }

  lemma SourcesOfTwo(x: Setup, y: Setup, a: Contents, b: Contents)
    ensures SourcesUpTo([x, y], [a, b], 0, 2).records == Offered(x, y, b)
    ensures SourcesUpTo([x, y], [a, b], 1, 2).records == Offered(y, x, a)
  {
    hide GatherAll, Listing, UsesSource;
    var setups, views := [x, y], [a, b];
    GatherListing(a, y.backfill.conflict);
    GatherListing(b, x.backfill.conflict);
    NotItself(x);
    NotItself(y);
    SourcesNone(setups, views, 0);
    SourcesStep(setups, views, 0, 0);
    SourcesStep(setups, views, 0, 1);
    SourcesNone(setups, views, 1);
    SourcesStep(setups, views, 1, 0);
    SourcesStep(setups, views, 1, 1);
  }

  lemma NotItself(x: Setup)
    ensures !UsesSource(x, x)
  {
  }

  lemma PassOfTwo(x: Setup, y: Setup, a: Contents, b: Contents)
    ensures var a' := Merged(a, Offered(x, y, b), x.backfill.conflict);
            var b' := Merged(b, Offered(y, x, a'), y.backfill.conflict);
            Pass([x, y], [a, b])
            == ([a', b'],
                |Written(a, Offered(x, y, b), x.backfill.conflict)|
                  + |Written(b, Offered(y, x, a'), y.backfill.conflict)|)
  {
    hide SourcesUpTo, Merged, Written, Offered, ReconcileFrom;
    var a' := Merged(a, Offered(x, y, b), x.backfill.conflict);
    var b' := Merged(b, Offered(y, x, a'), y.backfill.conflict);
    SourcesOfTwo(x, y, a, b);
    SourcesOfTwo(x, y, a', b);
    ReconcileStep([x, y], [a, b], 0);
    assert [a, b][0 := a'] == [a', b];
    ReconcileStep([x, y], [a', b], 1);
    assert [a', b][1 := b'] == [a', b'];
    ReconcileEnd([x, y], [a', b']);
  }

  /** When both stores use each other, both end up with all the keys of both. */
  lemma BothGetAllKeys(x: Setup, y: Setup, a: Contents, b: Contents)
    requires UsesSource(x, y) && UsesSource(y, x)
    ensures var after := Pass([x, y], [a, b]).0;
            after[0].Keys == after[1].Keys == a.Keys + b.Keys
  {
    hide Pass, Merged;
    PassOfTwo(x, y, a, b);
  }

  /** An existing record that won once wins again. */
  lemma WinnerStays(existing: Record, candidate: Record, conflict: Conflict)
    ensures Winner(Winner(existing, candidate, conflict), candidate, conflict) == Winner(existing, candidate, conflict)
  {
  }

  /** After each side chose, in turn and by its own rule, neither wants the other's choice. */
  lemma ChoicesSettle(a: Record, b: Record, cx: Conflict, cy: Conflict)
    ensures var a' := Winner(a, b, cx);
            var b' := Winner(b, a', cy);
            Winner(a', b', cx) == a' && Winner(b', a', cy) == b'
  {
  }

  lemma SameStays(r: Record, conflict: Conflict)
    ensures Winner(r, r, conflict) == r
  {
  }

  lemma SettledAt(x: Setup, y: Setup, a: Contents, b: Contents, k: Key)
    requires k in a || k in b
    ensures var a' := Merged(a, Offered(x, y, b), x.backfill.conflict);
            var b' := Merged(b, Offered(y, x, a'), y.backfill.conflict);
            && (UsesSource(x, y) && k in b' ==> k in a' && Winner(a'[k], b'[k], x.backfill.conflict) == a'[k])
            && (UsesSource(y, x) && k in a' ==> k in b' && Winner(b'[k], a'[k], y.backfill.conflict) == b'[k])
  {
    hide Winner, UsesSource;
    var cx, cy := x.backfill.conflict, y.backfill.conflict;
    var a' := Merged(a, Offered(x, y, b), cx);
    if k in a && k in b {
      ChoicesSettle(a[k], b[k], cx, cy);
      WinnerStays(a[k], b[k], cx);
      WinnerStays(b[k], a[k], cy);
    } else if k in a {
      SameStays(a[k], cx);
      SameStays(a[k], cy);
    } else {
      SameStays(b[k], cx);
      SameStays(b[k], cy);
    }
  }

  lemma NothingLeftToWrite(dest: Contents, src: Contents, conflict: Conflict)
    requires forall k :: k in src ==> k in dest && Winner(dest[k], src[k], conflict) == dest[k]
    ensures Written(dest, src, conflict) == {} && Merged(dest, src, conflict) == dest
  {
    hide Winner;
  }

  lemma SettledAll(x: Setup, y: Setup, a: Contents, b: Contents)
    ensures var a' := Merged(a, Offered(x, y, b), x.backfill.conflict);
            var b' := Merged(b, Offered(y, x, a'), y.backfill.conflict);
            && (forall k :: k in Offered(x, y, b') ==> k in a' && Winner(a'[k], b'[k], x.backfill.conflict) == a'[k])
            && (forall k :: k in Offered(y, x, a') ==> k in b' && Winner(b'[k], a'[k], y.backfill.conflict) == b'[k])
  {
    hide Winner, Merged, UsesSource;
    var a' := Merged(a, Offered(x, y, b), x.backfill.conflict);
    var b' := Merged(b, Offered(y, x, a'), y.backfill.conflict);
    forall k | k in a' || k in b'
      ensures k in Offered(x, y, b') ==> k in a' && Winner(a'[k], b'[k], x.backfill.conflict) == a'[k]
      ensures k in Offered(y, x, a') ==> k in b' && Winner(b'[k], a'[k], y.backfill.conflict) == b'[k]
    {
      SettledAt(x, y, a, b, k);
    }
  }

  /** Whatever the two stores hold, whichever sources they use and whichever conflict strategies they
      have, a second pass writes nothing. */
  lemma SecondPassWritesNothing(x: Setup, y: Setup, a: Contents, b: Contents)
    ensures var after := Pass([x, y], [a, b]).0;
            Pass([x, y], after) == (after, 0)
  {
    hide Pass, Merged, Written, Winner;
    var cx, cy := x.backfill.conflict, y.backfill.conflict;
    var a' := Merged(a, Offered(x, y, b), cx);
    var b' := Merged(b, Offered(y, x, a'), cy);
    PassOfTwo(x, y, a, b);
    PassOfTwo(x, y, a', b');
    SettledAll(x, y, a, b);
    NothingLeftToWrite(a', Offered(x, y, b'), cx);
    NothingLeftToWrite(b', Offered(y, x, a'), cy);
  }

  // Which record is chosen, by display time and order of the stores.

  /** The choice between two records with different payloads. */
  lemma ChosenOfTwo(existing: Record, candidate: Record, conflict: Conflict)
    requires existing.payload != candidate.payload
    ensures var r := Winner(existing, candidate, conflict);
            && (conflict == KeepExisting || conflict == Refuse ==> r == existing)
            && (conflict == TakeCandidate ==> r == candidate)
            && (conflict == Earliest ==>
                  && r.displayUnixMs <= existing.displayUnixMs && r.displayUnixMs <= candidate.displayUnixMs
                  && (existing.displayUnixMs == candidate.displayUnixMs ==> r == existing))
            && (conflict == Latest ==>
                  && r.displayUnixMs >= existing.displayUnixMs && r.displayUnixMs >= candidate.displayUnixMs
                  && (existing.displayUnixMs == candidate.displayUnixMs ==> r == existing))
  {
  }

  /** Two stores that use each other, after a pass, at a key that both hold with different payloads: the
      first store has made its choice, and the second has chosen between its own record and that. */
  lemma {:induction false} TwoStoresChoose(x: Setup, y: Setup, a: Contents, b: Contents, k: Key)
    requires k in a && k in b && a[k].payload != b[k].payload
    requires x.target != y.target && y.target !in x.backfill.exclude && x.target !in y.backfill.exclude
    requires x.backfill.source in {"all", y.target} && y.backfill.source in {"all", x.target}
    ensures var after := Pass([x, y], [a, b]).0;
            && k in after[0] && k in after[1]
            && var (a', b') := (after[0][k], after[1][k]);
            && (x.backfill.conflict in {KeepExisting, Refuse} ==> a' == a[k])
            && (x.backfill.conflict == TakeCandidate ==> a' == b[k])
            && (x.backfill.conflict == Earliest ==>
                  a' == if b[k].displayUnixMs < a[k].displayUnixMs then b[k] else a[k])
            && (x.backfill.conflict == Latest ==>
                  a' == if b[k].displayUnixMs > a[k].displayUnixMs then b[k] else a[k])
            && (y.backfill.conflict in {KeepExisting, Refuse} ==> b' == b[k])
            && (y.backfill.conflict == TakeCandidate ==> b'.payload == a'.payload)
            && (y.backfill.conflict == Earliest ==>
                  b'.displayUnixMs
                  == if a'.displayUnixMs < b[k].displayUnixMs then a'.displayUnixMs else b[k].displayUnixMs)
            && (y.backfill.conflict == Latest ==>
                  b'.displayUnixMs
                  == if a'.displayUnixMs > b[k].displayUnixMs then a'.displayUnixMs else b[k].displayUnixMs)
  {
    var after := Pass([x, y], [a, b]).0;
    ChoicesAt(x, y, a, b, k);
    hide Pass, Winner;
    ChosenOfTwo(a[k], b[k], x.backfill.conflict);
    if after[0][k].payload != b[k].payload {
      ChosenOfTwo(b[k], after[0][k], y.backfill.conflict);
    } else {
      EqualStays(b[k], after[0][k], y.backfill.conflict);
    }
  }

  lemma EqualStays(existing: Record, candidate: Record, conflict: Conflict)
    requires existing.payload == candidate.payload
    ensures Winner(existing, candidate, conflict) == existing
  {
  }

  lemma ChoicesAt(x: Setup, y: Setup, a: Contents, b: Contents, k: Key)
    requires k in a && k in b
    requires UsesSource(x, y) && UsesSource(y, x)
    ensures var after := Pass([x, y], [a, b]).0;
            && k in after[0] && after[0][k] == Winner(a[k], b[k], x.backfill.conflict)
            && k in after[1] && after[1][k] == Winner(b[k], after[0][k], y.backfill.conflict)
  {
    hide Pass, Winner;
    PassOfTwo(x, y, a, b);
  }

  /** Whether a store takes part: without a leave to use the other, it stays as it is; with it, it gets
      every key of the other and keeps its own. Equal payloads are left alone. */
  lemma {:induction false} UsesOnlyItsSources(x: Setup, y: Setup, a: Contents, b: Contents, k: Key)
    ensures var after := Pass([x, y], [a, b]).0;
            var uses := && x.target != y.target && y.target !in x.backfill.exclude
                        && x.backfill.source in {"all", y.target};
            && (!uses ==> after[0] == a)
            && (uses ==> after[0].Keys == a.Keys + b.Keys)
            && (uses && k in b && k !in a ==> after[0][k] == b[k])
            && (k in a && (k !in b || a[k].payload == b[k].payload) ==> k in after[0] && after[0][k] == a[k])
  {
    hide Pass;
    PassOfTwo(x, y, a, b);
    if !UsesSource(x, y) {
      MergedWithNothing(a, x.backfill.conflict);
    }
  }

  // Several sources: what a destination is offered under one key.

  /** The records under `k` in the stores that destination `i` may use, in the order of the stores. */
  ghost function Candidates(setups: seq<Setup>, views: seq<Contents>, i: nat, n: nat, k: Key): seq<Record>
    requires |views| == |setups| && i < |setups| && n <= |setups|
  {
    if n == 0 then []
    else
      var source, destination := setups[n - 1], setups[i];
      Candidates(setups, views, i, n - 1, k)
      + if source.target != destination.target && source.target !in destination.backfill.exclude
           && destination.backfill.source in {"all", source.target} && k in views[n - 1]
        then [views[n - 1][k]] else []
  }

  predicate SamePayload(records: seq<Record>) {
    forall i, j :: 0 <= i < |records| && 0 <= j < |records| ==> records[i].payload == records[j].payload
  }

  /** What is offered of some candidates: under `Refuse` the first if they agree and nothing if not; else one
      of them, by the rule. */
  ghost predicate ChosenOf(g: Gathered, k: Key, cs: seq<Record>, conflict: Conflict) {
    && (k in g.blocked ==> conflict == Refuse && !SamePayload(cs))
    && (conflict == Refuse && !SamePayload(cs) ==> k in g.blocked)
    && (k in g.records <==> cs != [] && k !in g.blocked)
    && (k in g.records ==>
          var r := g.records[k];
          && r in cs
          && (conflict == Refuse || conflict == KeepExisting ==> r == cs[0])
          && (conflict == TakeCandidate ==> r.payload == cs[|cs| - 1].payload)
          && (conflict == Earliest ==> forall c :: c in cs ==> r.displayUnixMs <= c.displayUnixMs || SameAsOlder(cs, c))
          && (conflict == Latest ==> forall c :: c in cs ==> r.displayUnixMs >= c.displayUnixMs || SameAsOlder(cs, c)))
  }

  /** An earlier candidate has the payload of `c`, so `c` was not compared. */
  predicate SameAsOlder(cs: seq<Record>, c: Record) {
    exists i, j :: 0 <= i < j < |cs| && cs[j] == c && cs[i].payload == c.payload
  }

  lemma SamePayloadMore(cs: seq<Record>, r: Record)
    ensures SamePayload(cs + [r]) <==> SamePayload(cs) && (cs == [] || cs[0].payload == r.payload)
  {
    var all := cs + [r];
    assert forall i :: 0 <= i < |cs| ==> all[i] == cs[i];
    assert all[|cs|] == r;
    if SamePayload(all) && cs != [] {
      assert all[0].payload == all[|cs|].payload;
    }
  }

  lemma OlderStays(cs: seq<Record>, r: Record, c: Record)
    ensures SameAsOlder(cs, c) ==> SameAsOlder(cs + [r], c)
  {
    if SameAsOlder(cs, c) {
      var i, j :| 0 <= i < j < |cs| && cs[j] == c && cs[i].payload == c.payload;
      assert (cs + [r])[j] == c && (cs + [r])[i] == cs[i];
    }
  }

  lemma NewestIsOlder(cs: seq<Record>, r: Record, c: Record)
    requires c in cs && c.payload == r.payload
    ensures SameAsOlder(cs + [r], r)
  {
    var i :| 0 <= i < |cs| && cs[i] == c;
    assert (cs + [r])[i] == c && (cs + [r])[|cs|] == r;
  }

  lemma {:induction false} GatherOneChooses(g: Gathered, r: Record, cs: seq<Record>, conflict: Conflict)
    requires ChosenOf(g, r.key, cs, conflict)
    ensures ChosenOf(GatherOne(g, r, conflict), r.key, cs + [r], conflict)
  {
    hide SamePayload, SameAsOlder;
    SamePayloadMore(cs, r);
    forall c | c in cs
      ensures SameAsOlder(cs, c) ==> SameAsOlder(cs + [r], c)
    {
      OlderStays(cs, r, c);
    }
    if r.key in g.records && g.records[r.key].payload == r.payload {
      NewestIsOlder(cs, r, g.records[r.key]);
    }
  }

  /** Only the record under `k` in a listing matters for `k`. */
  lemma {:induction false} GatherAllAt(g: Gathered, list: seq<Record>, conflict: Conflict, k: Key, cs: seq<Record>)
    requires DistinctKeys(list) && ChosenOf(g, k, cs, conflict)
    ensures var after := GatherAll(g, list, conflict);
            && ((exists r :: r in list && r.key == k) ==>
                 exists r :: r in list && r.key == k && ChosenOf(after, k, cs + [r], conflict))
            && ((forall r :: r in list ==> r.key != k) ==> ChosenOf(after, k, cs, conflict))
    decreases |list|
  {
    hide ChosenOf, GatherOne;
    if list != [] {
      var front, last := list[..|list| - 1], list[|list| - 1];
      assert list == front + [last];
      GatherAllAt(g, front, conflict, k, cs);
      var before := GatherAll(g, front, conflict);
      if last.key == k {
        NotAmong(front, last);
        GatherOneChooses(before, last, cs, conflict);
      } else {
        forall some | ChosenOf(before, k, some, conflict)
          ensures ChosenOf(GatherOne(before, last, conflict), k, some, conflict)
        {
          OtherKeyStays(before, last, k, some, conflict);
        }
      }
    }
  }

  lemma NotAmong(front: seq<Record>, last: Record)
    requires DistinctKeys(front + [last])
    ensures forall r :: r in front ==> r.key != last.key
  {
    forall r | r in front
      ensures r.key != last.key
    {
      var i :| 0 <= i < |front| && front[i] == r;
      assert (front + [last])[i] == r && (front + [last])[|front|] == last;
    }
  }

  lemma OtherKeyStays(g: Gathered, r: Record, k: Key, cs: seq<Record>, conflict: Conflict)
    requires ChosenOf(g, k, cs, conflict) && r.key != k
    ensures ChosenOf(GatherOne(g, r, conflict), k, cs, conflict)
  {
    hide SamePayload, SameAsOlder;
  }

  /** What any number of sources offer a destination under a key, by the destination's rule: see `ChosenOf`. */
  lemma {:induction false} SourcesChosen(setups: seq<Setup>, views: seq<Contents>, i: nat, n: nat, k: Key)
    requires |views| == |setups| && i < |setups| && n <= |setups|
    ensures ChosenOf(SourcesUpTo(setups, views, i, n), k, Candidates(setups, views, i, n, k),
                     setups[i].backfill.conflict)
    decreases n
  {
    if n == 0 {
      SourcesNone(setups, views, i);
    } else {
      hide ChosenOf, GatherAll, Listing, SourcesUpTo, Candidates;
      SourcesChosen(setups, views, i, n - 1, k);
      SourcesStep(setups, views, i, n - 1);
      CandidatesStep(setups, views, i, n, k);
      if UsesSource(setups[i], setups[n - 1]) {
        var list, conflict := ListingOf(views[n - 1], EVERYTHING), setups[i].backfill.conflict;
        ListingDistinct(list, views[n - 1]);
        UnderKey(list, views[n - 1], k);
        GatherAllAt(SourcesUpTo(setups, views, i, n - 1), list, conflict, k, Candidates(setups, views, i, n - 1, k));
      }
    }
  }

  lemma CandidatesStep(setups: seq<Setup>, views: seq<Contents>, i: nat, n: nat, k: Key)
    requires |views| == |setups| && i < |setups| && 0 < n <= |setups|
    ensures var cs := Candidates(setups, views, i, n - 1, k);
            Candidates(setups, views, i, n, k)
            == if UsesSource(setups[i], setups[n - 1]) && k in views[n - 1] then cs + [views[n - 1][k]] else cs
  {
  }

  lemma UnderKey(list: seq<Record>, m: Contents, k: Key)
    requires Listing(list, m, EVERYTHING)
    ensures forall r :: r in list && r.key == k ==> k in m && r == m[k]
    ensures k in m ==> m[k] in list && m[k].key == k
  {
    hide Sorted;
  }
}
