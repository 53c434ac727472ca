/** What each spool operation does to the RAM queue, the sequence counter, the write offset and
    the flash bytes. The imperative spool is proved against these functions. */
module SpoolSpec {
  import opened Bytes
  import opened SpoolCodec
  import opened FlashModel
  import opened DropOldestQueue
  import opened SpoolLog

  datatype Config = Config(capacity: nat, payloadSize: nat, sectorSize: nat)

  datatype State = State(queue: seq<StoredRecord>, nextSequence: nat, writeOffset: nat, flash: seq<byte>)

  datatype AppendResult = AppendResult(sequence: nat, dropped: Option<StoredRecord>, droppedCount: nat)

  /** Sequence numbers are 64-bit and wrap. */
  function Successor(sequence: nat): nat {
    (sequence + 1) % U64_LIMIT
  }

  predicate RecordsFit(records: seq<StoredRecord>, payloadSize: nat) {
    forall i :: 0 <= i < |records| ==> RecordFits(records[i], payloadSize)
  }

  predicate Valid(cfg: Config, st: State) {
    && |st.queue| <= cfg.capacity
    && st.nextSequence < U64_LIMIT
    && RecordsFit(st.queue, cfg.payloadSize)
  }

  function TotalLen(records: seq<StoredRecord>): nat {
    if records == [] then 0 else EntryLen(|records[0].payload|) + TotalLen(records[1..])
  }

  ghost function RecordsBytes(records: seq<StoredRecord>): (s: seq<byte>)
    requires RecordsFit(records, MAX_PAYLOAD_LEN)
    ensures |s| == TotalLen(records)
  {
    if records == [] then [] else RecordBytes(records[0]) + RecordsBytes(records[1..])
  }

  /** Drops oldest records until the rest encodes into `limit` bytes. */
  function DropToFit(records: seq<StoredRecord>, limit: nat): (kept: seq<StoredRecord>)
    ensures |kept| <= |records|
  {
    if TotalLen(records) <= limit then records else DropToFit(records[1..], limit)
  }

  lemma {:induction false} DropToFitIsSuffix(records: seq<StoredRecord>, limit: nat)
    ensures var kept := DropToFit(records, limit);
            kept == records[|records| - |kept|..] && TotalLen(kept) <= limit
  {
    if TotalLen(records) > limit {
      DropToFitIsSuffix(records[1..], limit);
    }
  }

  function Or<T>(a: Option<T>, b: Option<T>): Option<T> {
    if a.Some? then a else b
  }

  function FirstDropped(before: seq<StoredRecord>, after: seq<StoredRecord>): Option<StoredRecord>
    requires |after| <= |before|
  {
    if |after| < |before| then Some(before[0]) else None
  }

  /** Erasing everything and writing `records` back. */
  ghost function Rewrite(cfg: Config, st: State, records: seq<StoredRecord>, nextSequence: nat)
    : (r: (State, Option<SpoolError>))
    requires RecordsFit(records, cfg.payloadSize)
  {
    var size := |st.flash|;
    if TotalLen(records) > size then (st, Some(FlashFull))
    else
      var eraseError := EraseError(size, cfg.sectorSize, 0, size);
      if eraseError.Some? then (st, Some(Flash(eraseError.value)))
      else
        (State(PushAll([], records, cfg.capacity), nextSequence, TotalLen(records),
               RecordsBytes(records) + Erased(size - TotalLen(records))), None)
  }

  ghost function AppendInPlace(cfg: Config, st: State, r: StoredRecord)
    : (State, Result<AppendResult, SpoolError>)
    requires Valid(cfg, st) && RecordFits(r, cfg.payloadSize)
    requires st.writeOffset + EntryLen(|r.payload|) <= |st.flash|
  {
    if !CanWrite(st.flash, st.writeOffset, RecordBytes(r)) then (st, Err(Flash(WriteRequiresErase)))
    else
      var dropped := PushDropped(st.queue, r, cfg.capacity);
      (State(PushBounded(st.queue, r, cfg.capacity), Successor(r.sequence),
             st.writeOffset + EntryLen(|r.payload|), Written(st.flash, st.writeOffset, RecordBytes(r))),
       Ok(AppendResult(r.sequence, dropped, if dropped.Some? then 1 else 0)))
  }

  ghost function AppendWithCompaction(cfg: Config, st: State, r: StoredRecord)
    : (State, Result<AppendResult, SpoolError>)
    requires Valid(cfg, st) && RecordFits(r, cfg.payloadSize)
  {
    if EntryLen(|r.payload|) > |st.flash| then (st, Err(FlashFull))
    else
      var pushed := PushBounded(st.queue, r, cfg.capacity);
      DropToFitKeepsFit(pushed, |st.flash|, cfg.payloadSize);
      var kept := DropToFit(pushed, |st.flash|);
      var rewritten := Rewrite(cfg, st, kept, Successor(r.sequence));
      if rewritten.1.Some? then (rewritten.0, Err(rewritten.1.value))
      else
        var pushDropped := PushDropped(st.queue, r, cfg.capacity);
        (rewritten.0,
         Ok(AppendResult(r.sequence, Or(pushDropped, FirstDropped(pushed, kept)),
                         (if pushDropped.Some? then 1 else 0) + |pushed| - |kept|)))
  }

  ghost function Append(cfg: Config, st: State, flags: byte, payload: seq<byte>)
    : (State, Result<AppendResult, SpoolError>)
    requires Valid(cfg, st)
  {
    if |payload| > cfg.payloadSize then (st, Err(BufferTooSmall))
    else if |payload| > MAX_PAYLOAD_LEN then (st, Err(PayloadTooLarge))
    else if EntryLen(|payload|) > FLASH_ENTRY_BUFFER_LEN then (st, Err(BufferTooSmall))
    else
      var r := StoredRecord(st.nextSequence, flags, payload);
      if st.writeOffset + EntryLen(|payload|) <= |st.flash| then AppendInPlace(cfg, st, r)
      else AppendWithCompaction(cfg, st, r)
  }

  ghost function Acknowledge(cfg: Config, st: State)
    : (State, Result<Option<StoredRecord>, SpoolError>)
    requires Valid(cfg, st)
  {
    if st.queue == [] then (st, Ok(None))
    else
      var front := st.queue[0];
      if st.writeOffset + ENCODED_ACK_RECORD_LEN <= |st.flash| then
        if !CanWrite(st.flash, st.writeOffset, AckBytes(front.sequence)) then (st, Err(Flash(WriteRequiresErase)))
        else
          (State(st.queue[1..], st.nextSequence, st.writeOffset + ENCODED_ACK_RECORD_LEN,
                 Written(st.flash, st.writeOffset, AckBytes(front.sequence))), Ok(Some(front)))
      else AcknowledgeWithCompaction(cfg, st)
  }

  ghost function AcknowledgeWithCompaction(cfg: Config, st: State)
    : (State, Result<Option<StoredRecord>, SpoolError>)
    requires Valid(cfg, st) && st.queue != []
  {
    var popped := st.(queue := st.queue[1..]);
    var rewritten := Rewrite(cfg, popped, popped.queue, popped.nextSequence);
    if rewritten.1.Some? then (rewritten.0, Err(rewritten.1.value)) else (rewritten.0, Ok(Some(st.queue[0])))
  }

  /** What boot-time recovery makes of the flash bytes. */
  function Recover(cfg: Config, flash: seq<byte>): Result<(State, nat), SpoolError> {
    if cfg.payloadSize > MAX_PAYLOAD_LEN then Err(PayloadTooLarge)
    else if EntryLen(cfg.payloadSize) > FLASH_ENTRY_BUFFER_LEN then Err(BufferTooSmall)
    else
      match ScanFrom(flash, cfg.payloadSize, cfg.capacity, START)
      case Err(error) => Err(error)
      case Ok(scan) =>
        var next := if scan.maxSeen.Some? then Successor(scan.maxSeen.value) else 0;
        Ok((State(scan.pending, next, scan.cursor, flash), scan.corrupt))
  }

  // Facts about lengths.

  lemma {:induction false} TotalLenConcat(a: seq<StoredRecord>, b: seq<StoredRecord>)
    ensures TotalLen(a + b) == TotalLen(a) + TotalLen(b)
  {
    if a == [] {
      assert a + b == b;
    } else {
      assert (a + b)[1..] == a[1..] + b;
      TotalLenConcat(a[1..], b);
    }
  }

  lemma NoRecords()
    ensures TotalLen([]) == 0 && RecordsBytes([]) == []
  {
  }

  lemma TotalLenSingle(r: StoredRecord)
    ensures TotalLen([r]) == EntryLen(|r.payload|)
  {
  }

  lemma RecordsBytesSingle(r: StoredRecord)
    requires RecordFits(r, MAX_PAYLOAD_LEN)
    ensures RecordsBytes([r]) == RecordBytes(r)
  {
    hide RecordBytes;
    assert RecordBytes(r) + [] == RecordBytes(r);
  }

  lemma {:induction false} RecordsBytesConcat(a: seq<StoredRecord>, b: seq<StoredRecord>)
    requires RecordsFit(a, MAX_PAYLOAD_LEN) && RecordsFit(b, MAX_PAYLOAD_LEN)
    ensures RecordsBytes(a + b) == RecordsBytes(a) + RecordsBytes(b)
  {
    hide RecordBytes;
    if a == [] {
      assert a + b == b;
    } else {
      assert (a + b)[1..] == a[1..] + b;
      RecordsBytesConcat(a[1..], b);
    }
  }

  lemma TotalLenSuffix(records: seq<StoredRecord>, from: nat)
    requires from <= |records|
    ensures TotalLen(records[from..]) <= TotalLen(records)
  {
    assert records == records[..from] + records[from..];
    TotalLenConcat(records[..from], records[from..]);
  }

  lemma PushKeepsFit(items: seq<StoredRecord>, r: StoredRecord, capacity: nat, payloadSize: nat)
    requires |items| <= capacity && RecordsFit(items, payloadSize) && RecordFits(r, payloadSize)
    ensures RecordsFit(PushBounded(items, r, capacity), payloadSize)
  {
  }

  lemma {:induction false} RemoveKeepsFit(pending: seq<StoredRecord>, sequence: nat, payloadSize: nat)
    requires RecordsFit(pending, payloadSize)
    ensures RecordsFit(RemoveBySequence(pending, sequence), payloadSize)
  {
    if pending != [] && pending[0].sequence != sequence {
      RemoveKeepsFit(pending[1..], sequence, payloadSize);
    }
  }

  lemma DropToFitKeepsFit(records: seq<StoredRecord>, limit: nat, payloadSize: nat)
    requires RecordsFit(records, payloadSize)
    ensures RecordsFit(DropToFit(records, limit), payloadSize)
  {
    DropToFitIsSuffix(records, limit);
  }

  /** Any payload the spool accepts makes a record it can log. */
  lemma AcceptedRecordFits(cfg: Config, r: StoredRecord)
    requires EntryLen(cfg.payloadSize) <= FLASH_ENTRY_BUFFER_LEN
    requires |r.payload| <= cfg.payloadSize && r.sequence < U64_LIMIT
    ensures RecordFits(r, cfg.payloadSize) && RecordFits(r, MAX_PAYLOAD_LEN)
    ensures |r.payload| <= MAX_PAYLOAD_LEN && EntryLen(|r.payload|) <= FLASH_ENTRY_BUFFER_LEN
  {
    EntryLenMonotone(|r.payload|, cfg.payloadSize);
  }

  // Which records an append keeps.

  /** `records[from..]` meets both the record capacity and the flash size. */
  predicate SuffixFits(records: seq<StoredRecord>, from: nat, capacity: nat, limit: nat)
    requires from <= |records|
  {
    |records| - from <= capacity && TotalLen(records[from..]) <= limit
  }

  /** `records[from..]` is the longest suffix that fits. */
  predicate IsLongestFittingSuffix(records: seq<StoredRecord>, from: nat, capacity: nat, limit: nat) {
    && from <= |records|
    && SuffixFits(records, from, capacity, limit)
    && forall longer :: 0 <= longer < from ==> !SuffixFits(records, longer, capacity, limit)
  }

  lemma {:induction false} DropToFitIsLongest(records: seq<StoredRecord>, limit: nat, longer: nat)
    requires longer < |records| - |DropToFit(records, limit)|
    ensures TotalLen(records[longer..]) > limit
  {
    if longer > 0 {
      DropToFitIsLongest(records[1..], limit, longer - 1);
      assert records[1..][longer - 1..] == records[longer..];
    } else {
      assert records[0..] == records;
    }
  }
}
