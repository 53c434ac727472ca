/** Whole runs of the spool: every reachable state is the replay of its own flash bytes. */
module SpoolRuns {
  import opened Bytes
  import opened SpoolCodec
  import opened FlashModel
  import opened DropOldestQueue
  import opened SpoolLog
  import opened SpoolSpec

  /** What the program's constants guarantee: room for a record, a sector size that divides the
      region, and payloads that fit the entry buffer. */
  predicate Sound(cfg: Config, size: nat) {
    && cfg.capacity > 0
    && cfg.sectorSize > 0 && size % cfg.sectorSize == 0
    && EntryLen(cfg.payloadSize) <= FLASH_ENTRY_BUFFER_LEN
  }

  // The shape of a log the spool writes.

  predicate AllBelow(es: seq<Entry>, bound: nat) {
    forall e <- es :: SequenceOf(e) < bound
  }

  function SequenceOf(e: Entry): nat {
    match e
    case Record(r) => r.sequence
    case Ack(sequence) => sequence
  }

  /** Record sequences increase, and each acknowledgement names the oldest pending record. */
  ghost predicate WellFormed(es: seq<Entry>, capacity: nat)
    requires LogFits(es, MAX_PAYLOAD_LEN)
  {
    es != [] ==>
      var before, last := es[..|es| - 1], es[|es| - 1];
      && WellFormed(before, capacity)
      && match last
         case Record(r) => AllBelow(before, r.sequence)
         case Ack(sequence) =>
           var pending := Replay(before, capacity).pending;
           pending != [] && pending[0].sequence == sequence
  }

  /** The sequence of the newest record in the log. */
  function LastRecord(es: seq<Entry>): Option<nat> {
    if es == [] then None
    else
      var last := es[|es| - 1];
      if last.Record? then Some(last.record.sequence) else LastRecord(es[..|es| - 1])
  }

  predicate Increasing(records: seq<StoredRecord>) {
    forall i, j :: 0 <= i < j < |records| ==> records[i].sequence < records[j].sequence
  }

  lemma {:induction false} RemoveFront(pending: seq<StoredRecord>)
    requires pending != []
    ensures RemoveBySequence(pending, pending[0].sequence) == pending[1..]
  {
  }

  /** What replaying a well-formed log amounts to. */
  ghost predicate Summary(es: seq<Entry>, capacity: nat)
    requires LogFits(es, MAX_PAYLOAD_LEN)
  {
    var s := Replay(es, capacity);
    var last := LastRecord(es);
    && Increasing(s.pending)
    && s.maxSeen == last
    && (es != [] ==> last.Some? && AllBelow(es, last.value + 1))
    && (s.pending != [] ==> last == Some(s.pending[|s.pending| - 1].sequence))
    && TotalLen(s.pending) <= |LogBytes(es)|
    && |LogBytes(es)| % FLASH_WRITE_ALIGNMENT == 0
  }

  lemma {:induction false} ReplayFacts(es: seq<Entry>, capacity: nat)
    requires capacity > 0 && LogFits(es, MAX_PAYLOAD_LEN) && WellFormed(es, capacity)
    ensures Summary(es, capacity)
  {
    hide EntryBytes;
    if es != [] {
      hide Summary, Replay, LogBytes;
      var before, last := es[..|es| - 1], es[|es| - 1];
      ReplayFacts(before, capacity);
      assert es == before + [last];
      assert last in es && EntryFits(last, MAX_PAYLOAD_LEN);
      match last {
        case Record(r) => SummaryAfterRecord(before, r, capacity);
        case Ack(sequence) => SummaryAfterAck(before, sequence, capacity);
      }
    }
  }

  lemma SummaryAfterRecord(before: seq<Entry>, r: StoredRecord, capacity: nat)
    requires capacity > 0 && LogFits(before, MAX_PAYLOAD_LEN) && RecordFits(r, MAX_PAYLOAD_LEN)
    requires AllBelow(before, r.sequence) && Summary(before, capacity)
    ensures LogFits(before + [Record(r)], MAX_PAYLOAD_LEN) && Summary(before + [Record(r)], capacity)
  {
    hide LogBytes, Replay, WellFormed, LastRecord, TotalLen, RecordBytes, AckBytes;
    var es := before + [Record(r)];
    LogExtends(before, Record(r), MAX_PAYLOAD_LEN, capacity);
    var s := Replay(before, capacity);
    assert Replay(es, capacity) == Apply(s, Record(r), EntryLen(|r.payload|), capacity);
    PushedLen(s.pending, r, capacity);
    LastRecordBelow(before, r.sequence);
    PendingBelow(s.pending, r, capacity);
  }

  lemma PushedLen(pending: seq<StoredRecord>, r: StoredRecord, capacity: nat)
    requires |pending| <= capacity
    ensures TotalLen(PushBounded(pending, r, capacity)) <= TotalLen(pending) + EntryLen(|r.payload|)
  {
    hide TotalLen;
    TotalLenSingle(r);
    TotalLenConcat(pending, [r]);
    if 0 < |pending| == capacity {
      TotalLenSuffix(pending, 1);
      TotalLenConcat(pending[1..], [r]);
    }
  }

  lemma PendingBelow(pending: seq<StoredRecord>, r: StoredRecord, capacity: nat)
    requires 0 < capacity && |pending| <= capacity && Increasing(pending)
    requires pending != [] ==> pending[|pending| - 1].sequence < r.sequence
    ensures var pushed := PushBounded(pending, r, capacity);
            Increasing(pushed) && pushed[|pushed| - 1] == r
  {
  }

  lemma SummaryAfterAck(before: seq<Entry>, sequence: nat, capacity: nat)
    requires LogFits(before, MAX_PAYLOAD_LEN) && sequence < U64_LIMIT && Summary(before, capacity)
    requires var pending := Replay(before, capacity).pending;
             pending != [] && pending[0].sequence == sequence
    ensures LogFits(before + [Ack(sequence)], MAX_PAYLOAD_LEN) && Summary(before + [Ack(sequence)], capacity)
  {
    hide LogBytes, Replay, WellFormed, LastRecord, TotalLen, RecordBytes, AckBytes;
    var es := before + [Ack(sequence)];
    LogExtends(before, Ack(sequence), MAX_PAYLOAD_LEN, capacity);
    var s := Replay(before, capacity);
    assert Replay(es, capacity) == Apply(s, Ack(sequence), ENCODED_ACK_RECORD_LEN, capacity);
    RemoveFront(s.pending);
    TotalLenSuffix(s.pending, 1);
  }

  lemma {:induction false} LastRecordBelow(es: seq<Entry>, bound: nat)
    requires AllBelow(es, bound)
    ensures LastRecord(es).Some? ==> LastRecord(es).value < bound
  {
    if es != [] {
      var before, last := es[..|es| - 1], es[|es| - 1];
      assert SequenceOf(last) < bound;
      LastRecordBelow(before, bound);
    }
  }

  // The invariant.

  /** The bytes behind the log: normally erased; after rebooting over a trailing acknowledgement
      they still hold it. */
  ghost function Behind(st: State, tail: bool): seq<byte>
    requires tail ==> st.queue != [] && st.queue[0].sequence < U64_LIMIT
  {
    if tail then AckBytes(st.queue[0].sequence) else []
  }

  /** `es` is the log on flash and `st` is its replay. */
  ghost predicate Inv(cfg: Config, st: State, es: seq<Entry>, tail: bool) {
    && LogFits(es, cfg.payloadSize)
    && WellFormed(es, cfg.capacity)
    && st.queue == Replay(es, cfg.capacity).pending
    && RecordsFit(st.queue, cfg.payloadSize)
    && st.nextSequence < U64_LIMIT
    && (es != [] ==> LastRecord(es) == Some(st.nextSequence - 1))
    && st.writeOffset == |LogBytes(es)| <= |st.flash|
    && (es != [] ==> Readable(es[..|es| - 1], |st.flash|))
    && (tail ==>
         && st.queue != [] && Readable(es, |st.flash|)
         && st.writeOffset + ENCODED_ACK_RECORD_LEN <= |st.flash| < st.writeOffset + ENCODED_RECORD_HEADER_LEN)
    && LogBytes(es) + Behind(st, tail) <= st.flash
    && AllErased(st.flash[|LogBytes(es) + Behind(st, tail)|..])
  }

  lemma LogOfInv(cfg: Config, st: State, es: seq<Entry>, tail: bool)
    requires Inv(cfg, st, es, tail)
    ensures LogFits(es, MAX_PAYLOAD_LEN)
  {
  }

  /** The last entry starts too close to the end of flash for recovery to read it. */
  ghost predicate Trailing(es: seq<Entry>, size: nat)
    requires LogFits(es, MAX_PAYLOAD_LEN)
  {
    !Readable(es, size)
  }

  function Fresh(size: nat): State {
    State([], 0, 0, Erased(size))
  }

  lemma FreshInv(cfg: Config, size: nat)
    ensures Inv(cfg, Fresh(size), [], false)
  {
    assert LogBytes([]) + [] == [];
  }

  lemma {:induction false} InvFacts(cfg: Config, st: State, es: seq<Entry>, tail: bool)
    requires cfg.capacity > 0 && Inv(cfg, st, es, tail)
    ensures Valid(cfg, st) && Increasing(st.queue)
    ensures TotalLen(st.queue) <= st.writeOffset && st.writeOffset % FLASH_WRITE_ALIGNMENT == 0
    ensures AllBelow(es, st.nextSequence) || es == []
    ensures st.queue != [] ==> st.queue[|st.queue| - 1].sequence == st.nextSequence - 1
    ensures st.queue != [] ==> es != []
  {
    ReplayFacts(es, cfg.capacity);
  }

  // One operation at a time.

  lemma LogExtends(es: seq<Entry>, e: Entry, payloadSize: nat, capacity: nat)
    requires LogFits(es, payloadSize) && EntryFits(e, payloadSize) && EntryFits(e, MAX_PAYLOAD_LEN)
    ensures (es + [e])[..|es|] == es && (es + [e])[|es|] == e && LogFits(es + [e], payloadSize)
    ensures LogBytes(es + [e]) == LogBytes(es) + EntryBytes(e)
    ensures Replay(es + [e], capacity) == Apply(Replay(es, capacity), e, |EntryBytes(e)|, capacity)
    ensures LastRecord(es + [e]) == if e.Record? then Some(e.record.sequence) else LastRecord(es)
    ensures WellFormed(es + [e], capacity)
        <==> WellFormed(es, capacity)
             && match e
                case Record(r) => AllBelow(es, r.sequence)
                case Ack(sequence) =>
                  var pending := Replay(es, capacity).pending;
                  pending != [] && pending[0].sequence == sequence
  {
    hide EntryBytes, Apply, AllBelow;
    assert (es + [e])[..|es|] == es;
  }

  /** An entry written in place where the log ends extends the log by it. */
  lemma WriteExtendsLog(cfg: Config, st: State, es: seq<Entry>, tail: bool, e: Entry)
    requires Inv(cfg, st, es, tail) && EntryFits(e, cfg.payloadSize) && EntryFits(e, MAX_PAYLOAD_LEN)
    requires st.writeOffset + |EntryBytes(e)| <= |st.flash|
    requires tail ==> EntryBytes(e) == Behind(st, true)
    ensures CanWrite(st.flash, st.writeOffset, EntryBytes(e))
    ensures var flash := Written(st.flash, st.writeOffset, EntryBytes(e));
            && LogBytes(es) + EntryBytes(e) <= flash
            && AllErased(flash[st.writeOffset + |EntryBytes(e)|..])
  {
    hide EntryBytes, LogBytes, Replay, WellFormed, AckBytes;
    var o := st.writeOffset;
    var bytes := EntryBytes(e);
    var b := LogBytes(es) + Behind(st, tail);
    assert st.flash == b + st.flash[|b|..];
    forall i | 0 <= i < |bytes|
      ensures st.flash[o + i] == 0xff || st.flash[o + i] == bytes[i]
    {
      if tail {
        assert b[o + i] == bytes[i];
      } else {
        assert st.flash[|b|..][i] == 0xff;
      }
    }
    WritableWhereErasedOrSame(st.flash, o, bytes);
    var flash := Written(st.flash, o, bytes);
    assert flash[..o] == st.flash[..o] == LogBytes(es);
    forall i | o + |bytes| <= i < |flash|
      ensures flash[i] == 0xff
    {
      assert flash[i] == st.flash[i] == st.flash[|b|..][i - |b|];
    }
  }

  /** After an entry of at least 16 bytes that fitted, the entry before it had its header window. */
  lemma EarlierEntriesReadable(cfg: Config, st: State, es: seq<Entry>, tail: bool)
    requires Inv(cfg, st, es, tail) && st.writeOffset + ENCODED_ACK_RECORD_LEN <= |st.flash|
    ensures Readable(es, |st.flash|)
  {
    hide EntryBytes;
    if es != [] {
      assert LogBytes(es) == LogBytes(es[..|es| - 1]) + EntryBytes(es[|es| - 1]);
    }
  }

  lemma {:induction false} AppendInPlaceInv(cfg: Config, st: State, es: seq<Entry>, tail: bool, r: StoredRecord)
    requires cfg.capacity > 0 && Inv(cfg, st, es, tail)
    requires RecordFits(r, cfg.payloadSize) && r.sequence == st.nextSequence < U64_LIMIT - 1
    requires st.writeOffset + EntryLen(|r.payload|) <= |st.flash|
    requires Valid(cfg, st)
    ensures var (st', result) := AppendInPlace(cfg, st, r);
            result.Ok? && Inv(cfg, st', es + [Record(r)], false)
  {
    hide LogBytes, Replay, WellFormed, LastRecord, RecordBytes, AckBytes, CanWrite, Written, PushBounded, Readable;
    var e := Record(r);
    InvFacts(cfg, st, es, tail);
    WriteExtendsLog(cfg, st, es, tail, e);
    LogExtends(es, e, cfg.payloadSize, cfg.capacity);
    PushKeepsFit(st.queue, r, cfg.capacity, cfg.payloadSize);
    ExtendedInv(cfg, st, es, tail, e, AppendInPlace(cfg, st, r).0);
  }

  /** The state after writing an entry in place where the log ends. */
  lemma ExtendedInv(cfg: Config, st: State, es: seq<Entry>, tail: bool, e: Entry, st': State)
    requires cfg.capacity > 0 && Inv(cfg, st, es, tail)
    requires EntryFits(e, cfg.payloadSize) && EntryFits(e, MAX_PAYLOAD_LEN)
    requires st.writeOffset + |EntryBytes(e)| <= |st.flash|
    requires tail ==> EntryBytes(e) == Behind(st, true)
    requires WellFormed(es + [e], cfg.capacity)
    requires st'.flash == Written(st.flash, st.writeOffset, EntryBytes(e))
    requires st'.writeOffset == st.writeOffset + |EntryBytes(e)|
    requires st'.queue == Apply(Replay(es, cfg.capacity), e, |EntryBytes(e)|, cfg.capacity).pending
    requires RecordsFit(st'.queue, cfg.payloadSize) && st'.nextSequence < U64_LIMIT
    requires LastRecord(es + [e]) == Some(st'.nextSequence - 1)
    ensures Inv(cfg, st', es + [e], false)
  {
    hide EntryBytes, LogBytes, Replay, WellFormed, LastRecord, Apply, Written, RecordsFit, AckBytes;
    var es' := es + [e];
    WriteExtendsLog(cfg, st, es, tail, e);
    LogExtends(es, e, cfg.payloadSize, cfg.capacity);
    EarlierEntriesReadable(cfg, st, es, tail);
    assert LogBytes(es') + [] == LogBytes(es');
    assert Behind(st', false) == [];
  }

  lemma AcknowledgeInPlaceInv(cfg: Config, st: State, es: seq<Entry>, tail: bool)
    requires cfg.capacity > 0 && Inv(cfg, st, es, tail) && st.queue != [] && Valid(cfg, st)
    requires st.writeOffset + ENCODED_ACK_RECORD_LEN <= |st.flash|
    ensures var (st', result) := Acknowledge(cfg, st);
            result == Ok(Some(st.queue[0])) && Inv(cfg, st', es + [Ack(st.queue[0].sequence)], false)
  {
    hide LogBytes, Replay, WellFormed, LastRecord, AckBytes, CanWrite, Written, RemoveBySequence, Readable;
    var e := Ack(st.queue[0].sequence);
    InvFacts(cfg, st, es, tail);
    WriteExtendsLog(cfg, st, es, tail, e);
    LogExtends(es, e, cfg.payloadSize, cfg.capacity);
    RemoveFront(st.queue);
    ExtendedInv(cfg, st, es, tail, e, Acknowledge(cfg, st).0);
  }

  // Compaction rewrites the log as one record per pending record.

  function RecordEntries(records: seq<StoredRecord>): (es: seq<Entry>)
    ensures |es| == |records| && forall i :: 0 <= i < |records| ==> es[i] == Record(records[i])
  {
    seq(|records|, i requires 0 <= i < |records| => Record(records[i]))
  }

  ghost predicate Rewritten(es: seq<Entry>, records: seq<StoredRecord>, payloadSize: nat, capacity: nat)
    requires RecordsFit(records, MAX_PAYLOAD_LEN)
  {
    && LogFits(es, payloadSize) && LogFits(es, MAX_PAYLOAD_LEN)
    && LogBytes(es) == RecordsBytes(records)
    && Replay(es, capacity).pending == records
    && WellFormed(es, capacity)
    && LastRecord(es) == (if records == [] then None else Some(records[|records| - 1].sequence))
  }

  lemma {:induction false} RecordEntriesFacts(records: seq<StoredRecord>, payloadSize: nat, capacity: nat)
    requires RecordsFit(records, payloadSize) && RecordsFit(records, MAX_PAYLOAD_LEN)
    requires Increasing(records) && |records| <= capacity
    ensures Rewritten(RecordEntries(records), records, payloadSize, capacity)
    decreases |records|
  {
    hide Rewritten;
    if records == [] {
      NothingRewritten(payloadSize, capacity);
      assert RecordEntries(records) == [];
    } else {
      var before, r := records[..|records| - 1], records[|records| - 1];
      RecordEntriesFacts(before, payloadSize, capacity);
      assert records == before + [r];
      assert RecordEntries(records) == RecordEntries(before) + [Record(r)];
      RewrittenExtends(RecordEntries(before), before, r, payloadSize, capacity);
    }
  }

  lemma NothingRewritten(payloadSize: nat, capacity: nat)
    ensures Rewritten([], [], payloadSize, capacity)
  {
  }

  lemma RewrittenExtends(es: seq<Entry>, records: seq<StoredRecord>, r: StoredRecord, payloadSize: nat, capacity: nat)
    requires RecordsFit(records, MAX_PAYLOAD_LEN) && |records| < capacity && |es| == |records|
    requires forall i :: 0 <= i < |records| ==> es[i] == Record(records[i])
    requires RecordFits(r, payloadSize) && RecordFits(r, MAX_PAYLOAD_LEN) && Increasing(records + [r])
    requires Rewritten(es, records, payloadSize, capacity)
    ensures RecordsFit(records + [r], MAX_PAYLOAD_LEN)
    ensures Rewritten(es + [Record(r)], records + [r], payloadSize, capacity)
  {
    hide RecordBytes, RecordsBytes, Replay, LogBytes, WellFormed, LastRecord;
    var all := records + [r];
    assert all[..|records|] == records;
    assert forall i :: 0 <= i < |records| ==> all[i].sequence < all[|records|].sequence;
    assert AllBelow(es, r.sequence) by {
      forall e <- es ensures SequenceOf(e) < r.sequence {
        var i :| 0 <= i < |es| && es[i] == e;
        assert all[i].sequence < all[|records|].sequence;
      }
    }
    LogExtends(es, Record(r), payloadSize, capacity);
    RecordsBytesConcat(records, [r]);
    RecordsBytesSingle(r);
  }

  lemma {:induction false} RewriteInv(cfg: Config, st: State, records: seq<StoredRecord>, nextSequence: nat)
    requires Sound(cfg, |st.flash|) && |st.flash| > 0
    requires RecordsFit(records, cfg.payloadSize) && Increasing(records) && |records| <= cfg.capacity
    requires TotalLen(records) <= |st.flash| && nextSequence < U64_LIMIT
    requires records != [] ==> records[|records| - 1].sequence == nextSequence - 1
    ensures RecordsFit(records, MAX_PAYLOAD_LEN)
    ensures var (st', failure) := Rewrite(cfg, st, records, nextSequence);
            && failure == None && st'.queue == records && st'.nextSequence == nextSequence
            && |st'.flash| == |st.flash|
            && Inv(cfg, st', RecordEntries(records), false)
  {
    hide LogBytes, Replay, WellFormed, LastRecord, RecordsBytes, TotalLen, Rewrite, RecordsFit, Increasing;
    hide RecordEntries;
    var es := RecordEntries(records);
    FitsAnySize(records, cfg.payloadSize);
    RewriteResult(cfg, st, records, nextSequence);
    RecordEntriesFacts(records, cfg.payloadSize, cfg.capacity);
    var st' := Rewrite(cfg, st, records, nextSequence).0;
    RewriteReadable(records, |st.flash|);
    CleanInv(cfg, st', es);
  }

  lemma FitsAnySize(records: seq<StoredRecord>, payloadSize: nat)
    requires RecordsFit(records, payloadSize)
    ensures RecordsFit(records, MAX_PAYLOAD_LEN)
  {
    hide EntryLen;
  }

  lemma RewriteResult(cfg: Config, st: State, records: seq<StoredRecord>, nextSequence: nat)
    requires Sound(cfg, |st.flash|) && |st.flash| > 0
    requires RecordsFit(records, cfg.payloadSize) && RecordsFit(records, MAX_PAYLOAD_LEN) && |records| <= cfg.capacity
    requires TotalLen(records) <= |st.flash|
    ensures Rewrite(cfg, st, records, nextSequence)
         == (State(records, nextSequence, TotalLen(records),
                   RecordsBytes(records) + Erased(|st.flash| - TotalLen(records))), None)
  {
    hide RecordsBytes, TotalLen, RecordsFit, PushAll;
    PushAllKeepsNewest([], records, cfg.capacity);
    assert [] + records == records;
  }

  lemma RewriteReadable(records: seq<StoredRecord>, size: nat)
    requires RecordsFit(records, MAX_PAYLOAD_LEN)
    requires var es := RecordEntries(records);
             LogFits(es, MAX_PAYLOAD_LEN) && |LogBytes(es)| <= size
    ensures var es := RecordEntries(records);
            |es| > 1 ==> Readable(es[..|es| - 1], size)
  {
    hide LogBytes, RecordsFit;
    var es := RecordEntries(records);
    if |es| > 1 { LastTwoReadable(es, size); }
  }

  /** A log that fills a prefix of otherwise erased flash. */
  lemma CleanInv(cfg: Config, st: State, es: seq<Entry>)
    requires LogFits(es, cfg.payloadSize) && LogFits(es, MAX_PAYLOAD_LEN) && WellFormed(es, cfg.capacity)
    requires st.queue == Replay(es, cfg.capacity).pending && RecordsFit(st.queue, cfg.payloadSize)
    requires st.nextSequence < U64_LIMIT && (es != [] ==> LastRecord(es) == Some(st.nextSequence - 1))
    requires |es| > 1 ==> Readable(es[..|es| - 1], |st.flash|)
    requires st.writeOffset == |LogBytes(es)| <= |st.flash|
    requires st.flash == LogBytes(es) + Erased(|st.flash| - |LogBytes(es)|)
    ensures Inv(cfg, st, es, false)
  {
    hide LogBytes, Replay, WellFormed, LastRecord, RecordsFit;
    assert LogBytes(es) + [] == LogBytes(es);
  }

  lemma LastTwoReadable(es: seq<Entry>, size: nat)
    requires LogFits(es, MAX_PAYLOAD_LEN) && |es| > 1 && |LogBytes(es)| <= size
    requires es[|es| - 1].Record?
    ensures Readable(es[..|es| - 1], size)
  {
    hide RecordBytes, AckBytes;
    var before, last := es[..|es| - 1], es[|es| - 1];
    assert LogBytes(es) == LogBytes(before) + EntryBytes(last);
    assert LogBytes(before) == LogBytes(before[..|before| - 1]) + EntryBytes(before[|before| - 1]);
    assert last in es && EntryFits(last, MAX_PAYLOAD_LEN);
    assert EntryBytes(last) == RecordBytes(last.record);
  }

  lemma {:induction false} DropToFitKeepsNewest(records: seq<StoredRecord>, limit: nat)
    requires records != [] && EntryLen(|records[|records| - 1].payload|) <= limit
    ensures var kept := DropToFit(records, limit);
            kept != [] && kept[|kept| - 1] == records[|records| - 1]
  {
    if |records| == 1 {
      assert records == [records[0]];
      TotalLenSingle(records[0]);
    } else if TotalLen(records) > limit {
      DropToFitKeepsNewest(records[1..], limit);
    }
  }

  lemma IncreasingSuffix(records: seq<StoredRecord>, from: nat)
    requires Increasing(records) && from <= |records|
    ensures Increasing(records[from..])
  {
  }

  /** What compaction keeps: the newest records of the pushed queue, the incoming one among them. */
  lemma CompactionKeeps(cfg: Config, st: State, r: StoredRecord)
    returns (kept: seq<StoredRecord>)
    requires cfg.capacity > 0 && Valid(cfg, st) && RecordFits(r, cfg.payloadSize)
    requires Increasing(st.queue) && (st.queue != [] ==> st.queue[|st.queue| - 1].sequence < r.sequence)
    requires EntryLen(|r.payload|) <= |st.flash|
    ensures kept == DropToFit(PushBounded(st.queue, r, cfg.capacity), |st.flash|)
    ensures RecordsFit(kept, cfg.payloadSize) && Increasing(kept) && 0 < |kept| <= cfg.capacity
    ensures kept[|kept| - 1] == r && TotalLen(kept) <= |st.flash|
    ensures var rewritten := Rewrite(cfg, st, kept, Successor(r.sequence));
            var (st', result) := AppendWithCompaction(cfg, st, r);
            rewritten.1.None? ==> st' == rewritten.0 && result.Ok?
  {
    hide TotalLen, DropToFit, Rewrite, RecordFits, RecordsFit;
    var pushed := PushBounded(st.queue, r, cfg.capacity);
    kept := DropToFit(pushed, |st.flash|);
    PendingBelow(st.queue, r, cfg.capacity);
    PushKeepsFit(st.queue, r, cfg.capacity, cfg.payloadSize);
    DropToFitKeepsFit(pushed, |st.flash|, cfg.payloadSize);
    DropToFitKeepsNewest(pushed, |st.flash|);
    DropToFitIsSuffix(pushed, |st.flash|);
    IncreasingSuffix(pushed, |pushed| - |kept|);
  }

  lemma {:induction false} CompactionInv(cfg: Config, st: State, es: seq<Entry>, tail: bool, r: StoredRecord)
    requires Sound(cfg, |st.flash|) && Inv(cfg, st, es, tail) && Valid(cfg, st)
    requires RecordFits(r, cfg.payloadSize) && r.sequence == st.nextSequence < U64_LIMIT - 1
    requires EntryLen(|r.payload|) <= |st.flash|
    ensures var (st', result) := AppendWithCompaction(cfg, st, r);
            && result.Ok? && |st'.flash| == |st.flash| && st'.nextSequence == st.nextSequence + 1
            && st'.queue != []
            && Inv(cfg, st', RecordEntries(st'.queue), false)
  {
    hide Inv, TotalLen, DropToFit, Rewrite, RecordFits, RecordsFit, Increasing, AppendWithCompaction;
    InvFacts(cfg, st, es, tail);
    var kept := CompactionKeeps(cfg, st, r);
    RewriteInv(cfg, st, kept, st.nextSequence + 1);
  }

  lemma NewestEntryReadable(cfg: Config, st: State, es: seq<Entry>)
    requires Inv(cfg, st, es, false) && es != [] && es[|es| - 1].Record?
    ensures Readable(es, |st.flash|)
  {
    hide RecordBytes, AckBytes;
    assert LogBytes(es) == LogBytes(es[..|es| - 1]) + EntryBytes(es[|es| - 1]);
  }

  /** An append fails only on a payload that cannot fit, and then changes nothing; otherwise it
      leaves a state that is the replay of its own log. */
  lemma {:induction false} AppendKeepsInv(cfg: Config, st: State, es: seq<Entry>, tail: bool, flags: byte,
                                          payload: seq<byte>)
    returns (es': seq<Entry>, tail': bool)
    requires Sound(cfg, |st.flash|) && Inv(cfg, st, es, tail) && Valid(cfg, st)
    requires st.nextSequence < U64_LIMIT - 1
    ensures var (st', result) := Append(cfg, st, flags, payload);
            && |st'.flash| == |st.flash|
            && Inv(cfg, st', es', tail')
            && (result.Ok? <==> |payload| <= cfg.payloadSize && EntryLen(|payload|) <= |st.flash|)
            && (result.Err? ==>
                 st' == st && es' == es && tail' == tail
                 && result.error == if |payload| > cfg.payloadSize then BufferTooSmall else FlashFull)
            && (result.Ok? ==>
                 st'.nextSequence == st.nextSequence + 1 && !tail' && es' != [] && Readable(es', |st.flash|))
  {
    hide Inv, AppendInPlace, AppendWithCompaction, EntryLen, RecordFits;
    var r := StoredRecord(st.nextSequence, flags, payload);
    es', tail' := es, tail;
    if |payload| <= cfg.payloadSize {
      AcceptedRecordFits(cfg, r);
      if st.writeOffset + EntryLen(|payload|) <= |st.flash| {
        AppendInPlaceInv(cfg, st, es, tail, r);
        AppendInPlaceShape(cfg, st, r);
        es', tail' := es + [Record(r)], false;
        NewestEntryReadable(cfg, AppendInPlace(cfg, st, r).0, es');
      } else if EntryLen(|payload|) <= |st.flash| {
        CompactionInv(cfg, st, es, tail, r);
        var st' := AppendWithCompaction(cfg, st, r).0;
        es', tail' := RecordEntries(st'.queue), false;
        NewestEntryReadable(cfg, st', es');
      } else {
        CompactionTooLarge(cfg, st, r);
      }
    }
  }

  lemma AppendInPlaceShape(cfg: Config, st: State, r: StoredRecord)
    requires Valid(cfg, st) && RecordFits(r, cfg.payloadSize) && r.sequence < U64_LIMIT - 1
    requires st.writeOffset + EntryLen(|r.payload|) <= |st.flash|
    ensures var (st', result) := AppendInPlace(cfg, st, r);
            |st'.flash| == |st.flash| && (result.Ok? ==> st'.nextSequence == r.sequence + 1)
  {
    hide RecordBytes, CanWrite;
  }

  lemma CompactionTooLarge(cfg: Config, st: State, r: StoredRecord)
    requires Valid(cfg, st) && RecordFits(r, cfg.payloadSize) && EntryLen(|r.payload|) > |st.flash|
    ensures AppendWithCompaction(cfg, st, r) == (st, Err(FlashFull))
  {
  }

  /** What an acknowledgement must achieve, whichever branch it takes. */
  ghost predicate Acknowledged(cfg: Config, st: State, es': seq<Entry>)
    requires Valid(cfg, st) && st.queue != []
  {
    var (st', result) := Acknowledge(cfg, st);
    && |st'.flash| == |st.flash| && st'.nextSequence == st.nextSequence
    && Inv(cfg, st', es', false)
    && result == Ok(Some(st.queue[0])) && st'.queue == st.queue[1..]
  }

  lemma AcknowledgeInPlaceDone(cfg: Config, st: State, es: seq<Entry>, tail: bool)
    requires cfg.capacity > 0 && Inv(cfg, st, es, tail) && st.queue != [] && Valid(cfg, st)
    requires st.writeOffset + ENCODED_ACK_RECORD_LEN <= |st.flash|
    ensures Acknowledged(cfg, st, es + [Ack(st.queue[0].sequence)])
    ensures Acknowledge(cfg, st).0.writeOffset == st.writeOffset + ENCODED_ACK_RECORD_LEN
  {
    hide Inv, AckBytes, CanWrite;
    AcknowledgeInPlaceInv(cfg, st, es, tail);
  }

  lemma PoppedFits(cfg: Config, st: State, es: seq<Entry>, tail: bool)
    requires Sound(cfg, |st.flash|) && Inv(cfg, st, es, tail) && st.queue != []
    ensures var rest := st.queue[1..];
            && 0 < TotalLen(st.queue) <= |st.flash| && TotalLen(rest) <= |st.flash|
            && RecordsFit(rest, cfg.payloadSize) && Increasing(rest) && |rest| <= cfg.capacity
            && (rest != [] ==> rest[|rest| - 1].sequence == st.nextSequence - 1)
            && st.nextSequence < U64_LIMIT
  {
    InvFacts(cfg, st, es, tail);
    OffsetWithinFlash(cfg, st, es, tail);
    hide Inv, TotalLen;
    TotalLenSuffix(st.queue, 1);
    IncreasingSuffix(st.queue, 1);
    NonemptyLog(st.queue);
  }

  lemma AcknowledgeCompactionDone(cfg: Config, st: State, es: seq<Entry>, tail: bool)
    requires Sound(cfg, |st.flash|) && Inv(cfg, st, es, tail) && st.queue != [] && Valid(cfg, st)
    requires st.writeOffset + ENCODED_ACK_RECORD_LEN > |st.flash|
    ensures Acknowledged(cfg, st, RecordEntries(st.queue[1..]))
  {
    hide Inv, Rewrite, TotalLen, RecordsFit, Increasing, RecordEntries, AckBytes, CanWrite;
    PoppedFits(cfg, st, es, tail);
    var popped := st.(queue := st.queue[1..]);
    RewriteInv(cfg, popped, popped.queue, st.nextSequence);
  }

  /** No acknowledgement fails. */
  lemma {:induction false} AcknowledgeKeepsInv(cfg: Config, st: State, es: seq<Entry>, tail: bool)
    returns (es': seq<Entry>, tail': bool)
    requires Sound(cfg, |st.flash|) && Inv(cfg, st, es, tail) && Valid(cfg, st)
    ensures var (st', result) := Acknowledge(cfg, st);
            && |st'.flash| == |st.flash| && st'.nextSequence == st.nextSequence
            && Inv(cfg, st', es', tail')
            && result == Ok(if st.queue == [] then None else Some(st.queue[0]))
            && st'.queue == (if st.queue == [] then [] else st.queue[1..])
            && (st.queue == [] ==> st' == st && es' == es && tail' == tail)
            && (st.queue != [] ==> !tail')
            && (st.queue != [] && st.writeOffset + ENCODED_ACK_RECORD_LEN <= |st.flash| ==>
                 es' == es + [Ack(st.queue[0].sequence)] && st'.writeOffset == st.writeOffset + ENCODED_ACK_RECORD_LEN)
            && (st.queue != [] && st.writeOffset + ENCODED_ACK_RECORD_LEN > |st.flash| ==>
                 es' == RecordEntries(st.queue[1..]))
  {
    hide Inv, RecordEntries;
    es', tail' := es, tail;
    if st.queue != [] {
      hide Acknowledge;
      if st.writeOffset + ENCODED_ACK_RECORD_LEN <= |st.flash| {
        es', tail' := es + [Ack(st.queue[0].sequence)], false;
        AcknowledgeInPlaceDone(cfg, st, es, tail);
      } else {
        es', tail' := RecordEntries(st.queue[1..]), false;
        AcknowledgeCompactionDone(cfg, st, es, tail);
      }
    }
  }

  lemma OffsetWithinFlash(cfg: Config, st: State, es: seq<Entry>, tail: bool)
    requires Inv(cfg, st, es, tail)
    ensures st.writeOffset <= |st.flash|
  {
  }

  lemma NonemptyLog(records: seq<StoredRecord>)
    requires records != []
    ensures TotalLen(records) > 0
  {
  }

  // Rebooting.

  lemma ScanStopsAtErased(flash: seq<byte>, payloadSize: nat, capacity: nat, s: Scan)
    requires s.cursor <= |flash| && |s.pending| <= capacity && AllErased(flash[s.cursor..])
    ensures ScanFrom(flash, payloadSize, capacity, s) == Ok(s)
  {
    if s.cursor + FLASH_WRITE_ALIGNMENT <= |flash| {
      hide EncodedLogEntryLen, StepEntry;
      var window := flash[s.cursor..s.cursor + FLASH_WRITE_ALIGNMENT];
      assert window == flash[s.cursor..][..FLASH_WRITE_ALIGNMENT];
    }
  }

  /** Something written without a full header window counts as one corrupt entry. */
  lemma ScanStopsWithoutWindow(flash: seq<byte>, payloadSize: nat, capacity: nat, s: Scan)
    requires s.cursor + FLASH_WRITE_ALIGNMENT <= |flash| < s.cursor + ENCODED_RECORD_HEADER_LEN
    requires |s.pending| <= capacity && flash[s.cursor] != 0xff
    ensures ScanFrom(flash, payloadSize, capacity, s) == Ok(Corrupted(s))
  {
    hide EncodedLogEntryLen, StepEntry;
    assert flash[s.cursor..s.cursor + FLASH_WRITE_ALIGNMENT][0] != 0xff;
  }

  lemma AckStartsWritten(sequence: nat)
    requires sequence < U64_LIMIT
    ensures AckBytes(sequence)[0] == 0x4b
  {
    hide LeBytes, Pow256;
    LowByte(ACK_MAGIC, 4);
    assert AckBytes(sequence)[0] == LeBytes(ACK_MAGIC, 4)[0];
  }

  /** The state a reboot leaves, in terms of the state before it: `front` is the acknowledged
      record that comes back when its acknowledgement cannot be read. */
  ghost function Rebooted(st: State, front: Option<StoredRecord>): State
    requires front.Some? ==> st.writeOffset >= ENCODED_ACK_RECORD_LEN
  {
    State(if front.Some? then [front.value] + st.queue else st.queue,
          if st.writeOffset == 0 then 0 else st.nextSequence,
          if front.Some? then st.writeOffset - ENCODED_ACK_RECORD_LEN else st.writeOffset,
          st.flash)
  }

  /** The entries the recovery scan gets to read. */
  ghost function ReadableLog(es: seq<Entry>, size: nat): seq<Entry>
    requires LogFits(es, MAX_PAYLOAD_LEN)
  {
    if Trailing(es, size) then es[..|es| - 1] else es
  }

  lemma ScanStopsBehindLog(cfg: Config, st: State, es: seq<Entry>, tail: bool)
    requires Inv(cfg, st, es, tail) && !Trailing(es, |st.flash|)
    ensures var s := Replay(es, cfg.capacity);
            ScanFrom(st.flash, cfg.payloadSize, cfg.capacity, s) == Ok(if tail then Corrupted(s) else s)
  {
    hide ScanFrom, LogBytes, Replay, AckBytes;
    var s := Replay(es, cfg.capacity);
    if tail {
      var ack := AckBytes(st.queue[0].sequence);
      AckStartsWritten(st.queue[0].sequence);
      assert (LogBytes(es) + ack)[s.cursor] == ack[0];
      ScanStopsWithoutWindow(st.flash, cfg.payloadSize, cfg.capacity, s);
    } else {
      assert LogBytes(es) + [] == LogBytes(es);
      ScanStopsAtErased(st.flash, cfg.payloadSize, cfg.capacity, s);
    }
  }

  /** An unread trailing entry is the acknowledgement of the oldest record before it. */
  lemma TrailingEntry(cfg: Config, st: State, es: seq<Entry>, tail: bool)
    returns (before: seq<Entry>, front: StoredRecord)
    requires cfg.capacity > 0 && Inv(cfg, st, es, tail) && Trailing(es, |st.flash|)
    ensures !tail && es == before + [Ack(front.sequence)] && before != []
    ensures LogFits(before, cfg.payloadSize) && WellFormed(before, cfg.capacity) && Readable(before, |st.flash|)
    ensures Replay(before, cfg.capacity).pending == [front] + st.queue
    ensures RecordFits(front, cfg.payloadSize) && LastRecord(before) == Some(st.nextSequence - 1)
    ensures LogBytes(es) == LogBytes(before) + AckBytes(front.sequence)
  {
    hide LogBytes, Replay, WellFormed, LastRecord, RecordBytes, AckBytes, RemoveBySequence;
    before := es[..|es| - 1];
    var last := es[|es| - 1];
    assert es == before + [last] && last in es;
    LogExtends(before, last, cfg.payloadSize, cfg.capacity);
    var pending := Replay(before, cfg.capacity).pending;
    assert last.Ack? by { TrailingIsAck(es, |st.flash|); }
    front := pending[0];
    RemoveFront(pending);
    assert pending == [front] + st.queue;
    ReplayOfNothing(cfg.capacity);
    ReplayFits(before, cfg.capacity, cfg.payloadSize);
  }

  lemma ReplayOfNothing(capacity: nat)
    ensures Replay([], capacity).pending == []
  {
  }

  lemma TrailingIsAck(es: seq<Entry>, size: nat)
    requires LogFits(es, MAX_PAYLOAD_LEN) && |LogBytes(es)| <= size && Trailing(es, size)
    ensures es[|es| - 1].Ack?
  {
    hide RecordBytes, AckBytes;
    assert LogBytes(es) == LogBytes(es[..|es| - 1]) + EntryBytes(es[|es| - 1]);
  }

  lemma {:induction false} ReplayFits(es: seq<Entry>, capacity: nat, payloadSize: nat)
    requires LogFits(es, payloadSize)
    ensures RecordsFit(Replay(es, capacity).pending, payloadSize)
  {
    if es != [] {
      var before, last := es[..|es| - 1], es[|es| - 1];
      var s := Replay(before, capacity);
      ReplayFits(before, capacity, payloadSize);
      assert last in es && EntryFits(last, payloadSize);
      match last {
        case Record(r) => PushKeepsFit(s.pending, r, capacity, payloadSize);
        case Ack(sequence) => RemoveKeepsFit(s.pending, sequence, payloadSize);
      }
    }
  }

  lemma EmptyLogOffset(cfg: Config, st: State, es: seq<Entry>, tail: bool)
    requires Inv(cfg, st, es, tail)
    ensures st.writeOffset == 0 <==> es == []
  {
    hide EntryBytes;
    if es != [] {
      assert LogBytes(es) == LogBytes(es[..|es| - 1]) + EntryBytes(es[|es| - 1]);
    }
  }

  /** Replaying the flash bytes gives exactly the RAM state, with no corrupt entry on a log whose
      last entry can be read; after a trailing acknowledgement exactly the record it acknowledged
      is back in front. The sequence counter survives unless the log is empty. */
  lemma {:induction false} RecoveryReplaysState(cfg: Config, st: State, es: seq<Entry>, tail: bool)
    returns (front: Option<StoredRecord>)
    requires Sound(cfg, |st.flash|) && Inv(cfg, st, es, tail)
    ensures front.Some? <==> Trailing(es, |st.flash|)
    ensures front.Some? ==> es[|es| - 1] == Ack(front.value.sequence) && !tail
    ensures front.Some? ==> st.writeOffset >= ENCODED_ACK_RECORD_LEN
    ensures Recover(cfg, st.flash) == Ok((Rebooted(st, front), if tail || front.Some? then 1 else 0))
    ensures Inv(cfg, Rebooted(st, front), ReadableLog(es, |st.flash|), tail || front.Some?)
  {
    EmptyLogOffset(cfg, st, es, tail);
    if Trailing(es, |st.flash|) {
      var before, record := TrailingEntry(cfg, st, es, tail);
      front := Some(record);
      RecoveryOverTrailing(cfg, st, es, before, record);
    } else {
      front := None;
      RecoveryOfReadable(cfg, st, es, tail);
    }
  }

  lemma {:induction false} RecoveryOfReadable(cfg: Config, st: State, es: seq<Entry>, tail: bool)
    requires Sound(cfg, |st.flash|) && Inv(cfg, st, es, tail) && !Trailing(es, |st.flash|)
    requires st.writeOffset == 0 <==> es == []
    ensures Recover(cfg, st.flash) == Ok((Rebooted(st, None), if tail then 1 else 0))
    ensures Inv(cfg, Rebooted(st, None), es, tail)
  {
    hide Inv, ScanFrom, LogBytes, Replay, LogFits, Trailing, Readable, Recover;
    ReplayIsState(cfg, st, es, tail);
    RestartedInv(cfg, st, es, tail);
    ReadableIfNotTrailing(es, |st.flash|);
    ScanReadsLog(st.flash, cfg.payloadSize, cfg.capacity, es);
    ScanStopsBehindLog(cfg, st, es, tail);
    RecoverOfScan(cfg, st.flash, if tail then Corrupted(Replay(es, cfg.capacity)) else Replay(es, cfg.capacity));
  }

  lemma ReadableIfNotTrailing(es: seq<Entry>, size: nat)
    requires LogFits(es, MAX_PAYLOAD_LEN)
    ensures Readable(es, size) <==> !Trailing(es, size)
  {
  }

  /** What recovery makes of what the scan found. */
  lemma RecoverOfScan(cfg: Config, flash: seq<byte>, s: Scan)
    requires EntryLen(cfg.payloadSize) <= FLASH_ENTRY_BUFFER_LEN
    requires ScanFrom(flash, cfg.payloadSize, cfg.capacity, START) == Ok(s)
    ensures Recover(cfg, flash)
         == Ok((State(s.pending, if s.maxSeen.Some? then Successor(s.maxSeen.value) else 0, s.cursor, flash),
                s.corrupt))
  {
    hide ScanFrom;
  }

  lemma RestartedInv(cfg: Config, st: State, es: seq<Entry>, tail: bool)
    requires Inv(cfg, st, es, tail) && (st.writeOffset == 0 <==> es == [])
    ensures Inv(cfg, Rebooted(st, None), es, tail)
  {
    hide LogBytes, Replay, LogFits, WellFormed, RecordsFit, LastRecord, AckBytes, Readable;
  }

  lemma ReplayIsState(cfg: Config, st: State, es: seq<Entry>, tail: bool)
    requires cfg.capacity > 0 && Inv(cfg, st, es, tail)
    ensures LogFits(es, cfg.payloadSize) && LogFits(es, MAX_PAYLOAD_LEN) && LogBytes(es) <= st.flash
    ensures var s := Replay(es, cfg.capacity);
            && s.pending == st.queue && s.cursor == st.writeOffset && s.corrupt == 0
            && s.maxSeen == (if es == [] then None else Some(st.nextSequence - 1))
            && (es != [] ==> 0 < st.nextSequence < U64_LIMIT)
  {
    hide LogBytes, Replay, WellFormed, TotalLen, AckBytes;
    ReplayFacts(es, cfg.capacity);
    LastRecordOfNothing();
  }

  lemma LastRecordOfNothing()
    ensures LastRecord([]) == None
  {
  }

  lemma {:induction false} RecoveryOverTrailing(cfg: Config, st: State, es: seq<Entry>, before: seq<Entry>,
                                                front: StoredRecord)
    requires Sound(cfg, |st.flash|) && Inv(cfg, st, es, false) && Trailing(es, |st.flash|)
    requires es == before + [Ack(front.sequence)] && before != []
    requires LogFits(before, cfg.payloadSize) && WellFormed(before, cfg.capacity) && Readable(before, |st.flash|)
    requires Replay(before, cfg.capacity).pending == [front] + st.queue
    requires RecordFits(front, cfg.payloadSize) && LastRecord(before) == Some(st.nextSequence - 1)
    requires LogBytes(es) == LogBytes(before) + AckBytes(front.sequence)
    ensures st.writeOffset >= ENCODED_ACK_RECORD_LEN
    ensures Recover(cfg, st.flash) == Ok((Rebooted(st, Some(front)), 1))
    ensures Inv(cfg, Rebooted(st, Some(front)), before, true)
  {
    hide ScanFrom, LogBytes, Replay, WellFormed, LastRecord, AckBytes, TotalLen;
    var st' := Rebooted(st, Some(front));
    OverTrailingInv(cfg, st, es, before, front);
    ReplayFacts(before, cfg.capacity);
    assert LogBytes(before) <= st.flash;
    ScanReadsLog(st.flash, cfg.payloadSize, cfg.capacity, before);
    ScanStopsBehindLog(cfg, st', before, true);
  }

  lemma OverTrailingInv(cfg: Config, st: State, es: seq<Entry>, before: seq<Entry>, front: StoredRecord)
    requires Inv(cfg, st, es, false) && Trailing(es, |st.flash|)
    requires es == before + [Ack(front.sequence)] && before != []
    requires LogFits(before, cfg.payloadSize) && WellFormed(before, cfg.capacity) && Readable(before, |st.flash|)
    requires Replay(before, cfg.capacity).pending == [front] + st.queue
    requires RecordFits(front, cfg.payloadSize) && LastRecord(before) == Some(st.nextSequence - 1)
    requires LogBytes(es) == LogBytes(before) + AckBytes(front.sequence)
    ensures st.writeOffset >= ENCODED_ACK_RECORD_LEN
    ensures Inv(cfg, Rebooted(st, Some(front)), before, true) && LogBytes(before) <= st.flash
  {
    hide LogBytes, Replay, WellFormed, LastRecord, AckBytes;
    var st' := Rebooted(st, Some(front));
    assert es[..|es| - 1] == before;
    assert LogBytes(es) + [] == LogBytes(es);
    assert st'.queue[0] == front;
    PrefixReadable(before, |st.flash|);
    assert LogBytes(before) <= LogBytes(es);
  }

  lemma PrefixReadable(es: seq<Entry>, size: nat)
    requires LogFits(es, MAX_PAYLOAD_LEN) && es != [] && Readable(es, size)
    ensures Readable(es[..|es| - 1], size)
  {
    hide EntryBytes;
    var before := es[..|es| - 1];
    if before != [] {
      assert LogBytes(before) == LogBytes(before[..|before| - 1]) + EntryBytes(before[|before| - 1]);
    }
  }
}
