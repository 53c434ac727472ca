/** From a record's append on the device to its place in the server's store. */
module EndToEnd {
  import opened Bytes
  import opened SpoolCodec
  import opened Measurements
  import opened ServerStores
  import opened SpoolTheorems
  import S = SpoolSpec
  import SpoolRuns
  import G = SpoolGuarantees

  // What the server accepts, and what it holds in the end.

  ghost predicate NoRetention(ops: seq<Op>) {
    forall i :: 0 <= i < |ops| ==> !ops[i].Retain?
  }

  /** The write at position `i` is answered as stored. */
  ghost predicate Accepted(ops: seq<Op>, strategy: Strategy, i: nat)
    requires i < |ops|
  {
    ops[i].WriteRecord? && WriteTo(SqliteRun(ops[..i], strategy).0, ops[i].record, strategy).1.stored
  }

  /** The contents hold `r`'s measurement under its key. `origin` is the spooled record that a payload
      text carries; a retry may wrap the same one with another time. */
  predicate Holds(m: Contents, r: Record, origin: string -> StoredRecord) {
    r.key in m && origin(m[r.key].payload) == origin(r.payload)
  }

  /** Every accepted write of the device is among the records both stores list. */
  ghost predicate AllListed(ops: seq<Op>, strategy: Strategy, device: string, origin: string -> StoredRecord) {
    forall i :: 0 <= i < |ops| && Accepted(ops, strategy, i) && ops[i].record.key.deviceId == device ==>
                  && Listed(SqliteRun(ops, strategy).0, ops[i].record, origin)
                  && Listed(Folded(JsonlRun(ops, strategy).0, strategy), ops[i].record, origin)
  }

  ghost predicate Listed(m: Contents, r: Record, origin: string -> StoredRecord) {
    exists x :: x in ListingOf(m, EVERYTHING) && x.key == r.key && origin(x.payload) == origin(r.payload)
  }

  lemma ListedIsHeld(m: Contents, r: Record, origin: string -> StoredRecord)
    ensures Listed(m, r, origin) <==> Holds(m, r, origin)
  {
    hide Sorted;
    if Holds(m, r, origin) {
      assert m[r.key] in ListingOf(m, EVERYTHING);
    }
  }

  /** What the contents hold are accepted writes, one for the key of each accepted write. */
  ghost predicate HoldsAccepted(ops: seq<Op>, strategy: Strategy, m: Contents) {
    && (forall k :: k in m ==>
          exists i :: 0 <= i < |ops| && Accepted(ops, strategy, i) && ops[i] == WriteRecord(m[k]))
    && (forall i :: 0 <= i < |ops| && Accepted(ops, strategy, i) ==> ops[i].record.key in m)
  }

  lemma {:induction false} RunHoldsAccepted(ops: seq<Op>, strategy: Strategy)
    requires NoRetention(ops)
    ensures HoldsAccepted(ops, strategy, SqliteRun(ops, strategy).0)
    decreases |ops|
  {
    if ops != [] {
      hide WriteTo, HoldsAccepted;
      var front, op := ops[..|ops| - 1], ops[|ops| - 1];
      RunHoldsAccepted(front, strategy);
      var m := SqliteRun(front, strategy).0;
      assert ops == front + [op];
      if op.WriteRecord? {
        WriteHoldsAccepted(front, op.record, strategy, m);
      } else {
        CompactHoldsAccepted(front, strategy, m);
      }
    }
  }

  lemma AcceptedBefore(ops: seq<Op>, op: Op, strategy: Strategy)
    ensures forall i :: 0 <= i < |ops| ==> (Accepted(ops + [op], strategy, i) <==> Accepted(ops, strategy, i))
    ensures forall i :: 0 <= i < |ops| ==> (ops + [op])[i] == ops[i]
    ensures Accepted(ops + [op], strategy, |ops|) <==>
              op.WriteRecord? && WriteTo(SqliteRun(ops, strategy).0, op.record, strategy).1.stored
  {
    hide WriteTo, SqliteRun;
    assert forall i :: 0 <= i <= |ops| ==> (ops + [op])[..i] == ops[..i];
    assert ops[..|ops|] == ops;
  }

  lemma CompactHoldsAccepted(ops: seq<Op>, strategy: Strategy, m: Contents)
    requires HoldsAccepted(ops, strategy, m)
    ensures HoldsAccepted(ops + [Compact], strategy, m)
  {
    var all := ops + [Compact];
    AcceptedBefore(ops, Compact, strategy);
    AcceptedAreWrites(ops, strategy);
    hide Accepted;
    forall k | k in m
      ensures exists i :: 0 <= i < |all| && Accepted(all, strategy, i) && all[i] == WriteRecord(m[k])
    {
      var i :| 0 <= i < |ops| && Accepted(ops, strategy, i) && ops[i] == WriteRecord(m[k]);
      assert Accepted(all, strategy, i) && all[i] == ops[i];
    }
  }

  /** A write stores its record, or leaves the contents alone; a stored write has its key held. */
  lemma WriteShape(m: Contents, r: Record, strategy: Strategy)
    ensures var (m', result) := WriteTo(m, r, strategy);
            && (m' == m || (m' == m[r.key := r] && result.stored))
            && (result.stored ==> r.key in m')
  {
  }

  lemma WriteHoldsAccepted(ops: seq<Op>, r: Record, strategy: Strategy, m: Contents)
    requires HoldsAccepted(ops, strategy, m) && m == SqliteRun(ops, strategy).0
    ensures HoldsAccepted(ops + [WriteRecord(r)], strategy, WriteTo(m, r, strategy).0)
  {
    AcceptedBefore(ops, WriteRecord(r), strategy);
    AcceptedAreWrites(ops, strategy);
    WriteShape(m, r, strategy);
    hide Accepted, WriteTo, SqliteRun;
    var all := ops + [WriteRecord(r)];
    var m' := WriteTo(m, r, strategy).0;
    forall k | k in m'
      ensures exists i :: 0 <= i < |all| && Accepted(all, strategy, i) && all[i] == WriteRecord(m'[k])
    {
      if m' != m && k == r.key {
        assert Accepted(all, strategy, |ops|) && all[|ops|] == WriteRecord(r);
      } else {
        var i :| 0 <= i < |ops| && Accepted(ops, strategy, i) && ops[i] == WriteRecord(m[k]);
        assert Accepted(all, strategy, i) && all[i] == ops[i];
      }
    }
  }

  /** No two accepted writes of the device share a key and carry different records. */
  ghost predicate NoClash(ops: seq<Op>, strategy: Strategy, device: string, origin: string -> StoredRecord) {
    forall i, j :: 0 <= i < |ops| && 0 <= j < |ops| && Accepted(ops, strategy, i) && Accepted(ops, strategy, j)
                   && ops[i].record.key == ops[j].record.key && ops[i].record.key.deviceId == device ==>
                     origin(ops[i].record.payload) == origin(ops[j].record.payload)
  }

  /** Under every strategy, whoever else writes: all that was accepted of a device is listed in the end
      if and only if no two accepted writes of it share a key and carry different records. */
  lemma {:induction false} ListedExactly(ops: seq<Op>, strategy: Strategy, device: string,
                                         origin: string -> StoredRecord)
    requires NoRetention(ops)
    ensures AllListed(ops, strategy, device, origin) <==> NoClash(ops, strategy, device, origin)
  {
    StoresAgree(ops, strategy);
    RunHoldsAccepted(ops, strategy);
    AcceptedAreWrites(ops, strategy);
    hide SqliteRun, JsonlRun, Folded, Accepted, Listed;
    var m := SqliteRun(ops, strategy).0;
    forall i | 0 <= i < |ops| && Accepted(ops, strategy, i)
      ensures Listed(m, ops[i].record, origin) <==> Holds(m, ops[i].record, origin)
    {
      ListedIsHeld(m, ops[i].record, origin);
    }
    if NoClash(ops, strategy, device, origin) {
      forall i | 0 <= i < |ops| && Accepted(ops, strategy, i) && ops[i].record.key.deviceId == device
        ensures Holds(m, ops[i].record, origin)
      {
        var k := ops[i].record.key;
        var j :| 0 <= j < |ops| && Accepted(ops, strategy, j) && ops[j] == WriteRecord(m[k]);
      }
    }
  }

  // Which of several accepted payloads is kept.

  /** The accepted writes of a key, in order. */
  ghost function AcceptedPayloads(ops: seq<Op>, strategy: Strategy, key: Key): seq<string> {
    if ops == [] then []
    else
      var i := |ops| - 1;
      AcceptedPayloads(ops[..i], strategy, key)
      + if Accepted(ops, strategy, i) && ops[i].record.key == key then [ops[i].record.payload] else []
  }

  /** The key is held if anything was accepted under it: the first payload if the strategy keeps the
      first or rejects, the last if it keeps the last or overwrites. */
  predicate Kept(m: Contents, key: Key, payloads: seq<string>, strategy: Strategy) {
    && (key in m <==> payloads != [])
    && (key in m ==>
          m[key].payload
          == match strategy
             case KeepFirst | Reject => payloads[0]
             case KeepLast | Overwrite => payloads[|payloads| - 1])
  }

  lemma WriteKeeps(m: Contents, key: Key, payloads: seq<string>, strategy: Strategy, r: Record)
    requires Kept(m, key, payloads, strategy)
    ensures var (m', result) := WriteTo(m, r, strategy);
            Kept(m', key, if result.stored && r.key == key then payloads + [r.payload] else payloads, strategy)
  {
  }

  lemma AcceptedPayloadsStep(ops: seq<Op>, strategy: Strategy, key: Key)
    requires ops != []
    ensures var front, op := ops[..|ops| - 1], ops[|ops| - 1];
            var payloads := AcceptedPayloads(front, strategy, key);
            AcceptedPayloads(ops, strategy, key)
            == if op.WriteRecord? && op.record.key == key
                  && WriteTo(SqliteRun(front, strategy).0, op.record, strategy).1.stored
               then payloads + [op.record.payload] else payloads
  {
    hide WriteTo, SqliteRun;
  }

  /** Both stores hold, for every key of which a write was accepted, the payload of the first accepted
      write if the strategy keeps the first or rejects, and of the last if it keeps the last or
      overwrites; and nothing else. */
  lemma {:induction false} FirstOrLastIsKept(ops: seq<Op>, strategy: Strategy, key: Key)
    requires NoRetention(ops)
    ensures Kept(SqliteRun(ops, strategy).0, key, AcceptedPayloads(ops, strategy, key), strategy)
    ensures Kept(Folded(JsonlRun(ops, strategy).0, strategy), key, AcceptedPayloads(ops, strategy, key), strategy)
    decreases |ops|
  {
    StoresAgree(ops, strategy);
    if ops != [] {
      hide JsonlRun, Folded, Kept, AcceptedPayloads, WriteTo, Accepted;
      var front, op := ops[..|ops| - 1], ops[|ops| - 1];
      FirstOrLastIsKept(front, strategy, key);
      AcceptedPayloadsStep(ops, strategy, key);
      if op.WriteRecord? {
        WriteKeeps(SqliteRun(front, strategy).0, key, AcceptedPayloads(front, strategy, key), strategy, op.record);
      }
    }
  }

  // What the device issued.

  /** The records that the run's successful appends numbered, in order. */
  ghost function IssuedRecords(cfg: S.Config, size: nat, ops: seq<G.Op>): seq<StoredRecord> {
    if ops == [] then []
    else
      var front, op := ops[..|ops| - 1], ops[|ops| - 1];
      var st := G.Run(cfg, size, front).st;
      IssuedRecords(cfg, size, front)
      + if Issues(cfg, st, op)
        then [StoredRecord(S.Append(cfg, st, op.flags, op.payload).1.value.sequence, op.flags, op.payload)] else []
  }

  lemma {:induction false} IssuedAreNumbered(cfg: S.Config, size: nat, ops: seq<G.Op>)
    ensures var records, issued := IssuedRecords(cfg, size, ops), Issued(cfg, size, ops);
            |records| == |issued| && forall i :: 0 <= i < |issued| ==> records[i].sequence == issued[i]
    decreases |ops|
  {
    if ops != [] {
      hide S.Append, Issues;
      IssuedAreNumbered(cfg, size, ops[..|ops| - 1]);
    }
  }

  /** Every write under the device's name carries a record it issued, under the record's sequence. */
  ghost predicate UploadsOf(ops: seq<Op>, device: string, records: seq<StoredRecord>, origin: string -> StoredRecord) {
    && NoRetention(ops)
    && forall i :: 0 <= i < |ops| && ops[i].WriteRecord? && ops[i].record.key.deviceId == device ==>
                     && origin(ops[i].record.payload) in records
                     && ops[i].record.key.sequence == origin(ops[i].record.payload).sequence
  }

  ghost predicate OneRecordPerSequence(records: seq<StoredRecord>) {
    forall r, s :: r in records && s in records && r.sequence == s.sequence ==> r == s
  }

  /** End to end: what was appended under its own sequence, uploaded in any order, retried and mixed with
      other devices' uploads, is listed once it was accepted. With the protocol's guarantee that only
      accepted records leave the spool, nothing is lost between the two. */
  lemma {:induction false} AcceptedUploadsAreListed(cfg: S.Config, size: nat, spoolOps: seq<G.Op>, ops: seq<Op>,
                                                    strategy: Strategy, device: string, origin: string -> StoredRecord)
    requires SpoolRuns.Sound(cfg, size) && |spoolOps| < U64_LIMIT - 1
    requires !RestartedThenIssued(cfg, size, spoolOps)
    requires UploadsOf(ops, device, IssuedRecords(cfg, size, spoolOps), origin)
    ensures AllListed(ops, strategy, device, origin)
  {
    hide RestartedThenIssued, Issued, IssuedRecords, Accepted, AllListed;
    SequencesUnique(cfg, size, spoolOps);
    IssuedAreNumbered(cfg, size, spoolOps);
    AcceptedAreWrites(ops, strategy);
    ListedExactly(ops, strategy, device, origin);
    var records := IssuedRecords(cfg, size, spoolOps);
    OneEach(records, Issued(cfg, size, spoolOps));
  }

  lemma AcceptedAreWrites(ops: seq<Op>, strategy: Strategy)
    ensures forall i :: 0 <= i < |ops| && Accepted(ops, strategy, i) ==> ops[i].WriteRecord?
  {
  }

  lemma OneEach(records: seq<StoredRecord>, issued: seq<nat>)
    requires |records| == |issued| && forall i :: 0 <= i < |issued| ==> records[i].sequence == issued[i]
    requires Distinct(issued)
    ensures OneRecordPerSequence(records)
  {
    forall r, s | r in records && s in records && r.sequence == s.sequence
      ensures r == s
    {
      var i :| 0 <= i < |records| && records[i] == r;
      var j :| 0 <= j < |records| && records[j] == s;
      assert issued[i] == issued[j];
    }
  }

  /** The condition is needed: two different records under one sequence are both accepted unless the
      strategy rejects conflicts, and one of them is not listed. */
  lemma {:induction false} SecondRecordIsLost(first: Record, second: Record, strategy: Strategy,
                                              origin: string -> StoredRecord)
    requires first.key == second.key && origin(first.payload) != origin(second.payload)
    ensures var ops := [WriteRecord(first), WriteRecord(second)];
            && Accepted(ops, strategy, 0)
            && (Accepted(ops, strategy, 1) <==> strategy != Reject)
            && (AllListed(ops, strategy, first.key.deviceId, origin) <==> strategy == Reject)
  {
    var ops := [WriteRecord(first), WriteRecord(second)];
    TwoWrites(first, second, strategy);
    ListedExactly(ops, strategy, first.key.deviceId, origin);
    hide AllListed, Accepted;
  }

  lemma TwoWrites(first: Record, second: Record, strategy: Strategy)
    requires first.key == second.key && first.payload != second.payload
    ensures var ops := [WriteRecord(first), WriteRecord(second)];
            Accepted(ops, strategy, 0) && (Accepted(ops, strategy, 1) <==> strategy != Reject)
  {
    var ops := [WriteRecord(first), WriteRecord(second)];
    assert ops[..0] == [] && ops[..1] == [WriteRecord(first)] && ops[..1][..0] == [];
    assert SqliteRun(ops[..0], strategy).0 == map[];
    assert SqliteRun(ops[..1], strategy).0 == map[first.key := first];
  }

  /** A device run that issues two such records: see `SequenceIssuedTwice`. */
  lemma {:induction false} TwoRecordsOneSequence(first: seq<byte>, second: seq<byte>)
    requires |first| <= 2 && |second| <= 2
    ensures IssuedRecords(S.Config(1, 2, 32), 32, Restarting(first, second))
         == [StoredRecord(0, 1, first), StoredRecord(0, 1, second)]
  {
    hide S.Append, G.Run, Issues, IssuedRecords, Issued;
    var cfg := S.Config(1, 2, 32);
    var ops := Restarting(first, second);
    SequenceIssuedTwice(first, second);
    RestartingRun(first, second);
    NotIssued(cfg, G.Run(cfg, 32, ops[..1]).st, ops[1]);
    NotIssued(cfg, G.Run(cfg, 32, ops[..2]).st, ops[2]);
    NoRecords(cfg, 32);
    IssuedRecordsStep(cfg, 32, ops, 0);
    IssuedRecordsStep(cfg, 32, ops, 1);
    IssuedRecordsStep(cfg, 32, ops, 2);
    IssuedRecordsStep(cfg, 32, ops, 3);
    assert ops[..0] == [] && ops[..4] == ops;
    IssuedAreNumbered(cfg, 32, ops);
  }

  lemma NoRecords(cfg: S.Config, size: nat)
    ensures IssuedRecords(cfg, size, []) == []
  {
  }

  lemma IssuedRecordsStep(cfg: S.Config, size: nat, ops: seq<G.Op>, n: nat)
    requires n < |ops|
    ensures var st := G.Run(cfg, size, ops[..n]).st;
            && (Issues(cfg, st, ops[n]) ==>
                  ops[n].DoAppend? && S.Valid(cfg, st) && S.Append(cfg, st, ops[n].flags, ops[n].payload).1.Ok?)
            && IssuedRecords(cfg, size, ops[..n + 1])
               == if Issues(cfg, st, ops[n])
                  then IssuedRecords(cfg, size, ops[..n])
                       + [StoredRecord(S.Append(cfg, st, ops[n].flags, ops[n].payload).1.value.sequence,
                                       ops[n].flags, ops[n].payload)]
                  else IssuedRecords(cfg, size, ops[..n])
  {
    hide S.Append, G.Run, S.Valid;
    assert ops[..n + 1][..n] == ops[..n];
  }

  lemma NotIssued(cfg: S.Config, st: S.State, op: G.Op)
    requires !op.DoAppend?
    ensures !Issues(cfg, st, op)
  {
  }
}
