/** The spool itself: the RAM queue with its sequence counter, and the flash-backed spool that
    logs every change, compacts a full log, and recovers from its bytes at boot. */
module FlashSpool {
  import opened Bytes
  import opened SpoolCodec
  import opened FlashModel
  import opened DropOldestQueue
  import opened SpoolLog
  import Crc32
  import S = SpoolSpec

  class PersistentSpool {
    const queue: Queue<StoredRecord>
    var nextSequence: nat

    ghost predicate Valid()
      reads this, queue, queue.buf
    {
      queue.Valid() && nextSequence < U64_LIMIT
    }

    constructor (capacity: nat)
      ensures Valid() && queue.Contents() == [] && nextSequence == 0
      ensures fresh(queue) && fresh(queue.buf) && queue.buf.Length == capacity
    {
      queue := new Queue(capacity);
      nextSequence := 0;
    }

    method Append(flags: byte, payload: seq<byte>) returns (result: S.AppendResult)
      requires Valid()
      modifies this, queue, queue.buf
      ensures Valid()
      ensures var r := StoredRecord(old(nextSequence), flags, payload);
              var dropped := PushDropped(old(queue.Contents()), r, queue.buf.Length);
              && queue.Contents() == PushBounded(old(queue.Contents()), r, queue.buf.Length)
              && nextSequence == S.Successor(old(nextSequence))
              && result == S.AppendResult(r.sequence, dropped, if dropped.Some? then 1 else 0)
    {
      var sequence := nextSequence;
      var dropped := queue.Push(StoredRecord(sequence, flags, payload));
      nextSequence := (nextSequence + 1) % U64_LIMIT;
      return S.AppendResult(sequence, dropped, if dropped.Some? then 1 else 0);
    }

    /** Rebuilds a queue from recovered records, oldest first. */
    constructor FromRecords(records: seq<StoredRecord>, capacity: nat, nextSequence: nat)
      requires nextSequence < U64_LIMIT
      ensures Valid() && this.nextSequence == nextSequence
      ensures queue.Contents() == PushAll([], records, capacity)
      ensures fresh(queue) && fresh(queue.buf) && queue.buf.Length == capacity
    {
      queue := new Queue(capacity);
      this.nextSequence := nextSequence;
      new;
      assert records[0..] == records;
      for i := 0 to |records|
        invariant Valid() && this.nextSequence == nextSequence && queue.buf.Length == capacity
        invariant PushAll(queue.Contents(), records[i..], capacity) == PushAll([], records, capacity)
      {
        assert records[i..][1..] == records[i + 1..];
        var _ := queue.Push(records[i]);
      }
    }
  }

  datatype Report = Report(recoveredRecordCount: nat, corruptRecordCount: nat)

  /** A slot array that holds `pending` in front and nothing behind it. */
  ghost predicate Packed(slots: seq<Option<StoredRecord>>, pending: seq<StoredRecord>) {
    && |pending| <= |slots|
    && (forall i :: 0 <= i < |pending| ==> slots[i] == Some(pending[i]))
    && (forall i :: |pending| <= i < |slots| ==> slots[i].None?)
  }

  /** Recovery's slot array: the first free slot takes the record, a full array is rotated. */
  method PushStoredRecord(slots: array<Option<StoredRecord>>, record: StoredRecord, ghost pending: seq<StoredRecord>)
    requires Packed(slots[..], pending)
    modifies slots
    ensures Packed(slots[..], PushBounded(pending, record, slots.Length))
  {
    if slots.Length == 0 {
      return;
    }
    var index := 0;
    while index < slots.Length && slots[index].Some?
      invariant 0 <= index <= |pending|
    {
      assert slots[..][index] == slots[index];
      index := index + 1;
    }
    if index < slots.Length {
      assert slots[..][index] == slots[index];
      slots[index] := Some(record);
      return;
    }
    RotateLeft(slots, 0);
    slots[slots.Length - 1] := Some(record);
  }

  /** `slice[from..].rotate_left(1)`. */
  method RotateLeft(slots: array<Option<StoredRecord>>, from: nat)
    requires from < slots.Length
    modifies slots
    ensures slots[..] == old(slots[..from]) + old(slots[from + 1..]) + [old(slots[from])]
  {
    var first := slots[from];
    for i := from to slots.Length - 1
      invariant forall j :: 0 <= j < from ==> slots[j] == old(slots[j])
      invariant forall j :: from <= j < i ==> slots[j] == old(slots[j + 1])
      invariant forall j :: i <= j < slots.Length ==> slots[j] == old(slots[j])
    {
      slots[i] := slots[i + 1];
    }
    slots[slots.Length - 1] := first;
    ghost var rotated := old(slots[..from]) + old(slots[from + 1..]) + [old(slots[from])];
    forall j | 0 <= j < slots.Length ensures slots[j] == rotated[j] { }
  }

  /** The position of the first record with the given sequence; the length if there is none. */
  ghost function FirstIndex(pending: seq<StoredRecord>, sequence: nat): (i: nat)
    ensures i <= |pending|
    ensures forall j :: 0 <= j < i ==> pending[j].sequence != sequence
    ensures i < |pending| ==> pending[i].sequence == sequence
  {
    if pending == [] || pending[0].sequence == sequence then 0 else 1 + FirstIndex(pending[1..], sequence)
  }

  lemma SplitAround(pending: seq<StoredRecord>, i: nat)
    requires i + 1 < |pending|
    ensures [pending[0]] + (pending[1..][..i] + pending[1..][i + 1..]) == pending[..i + 1] + pending[i + 2..]
  {
  }

  lemma {:induction false} RemoveAtFirstIndex(pending: seq<StoredRecord>, sequence: nat)
    ensures var i := FirstIndex(pending, sequence);
            RemoveBySequence(pending, sequence)
            == if i < |pending| then pending[..i] + pending[i + 1..] else pending
  {
    if pending != [] && pending[0].sequence != sequence {
      var rest := pending[1..];
      RemoveAtFirstIndex(rest, sequence);
      var i := FirstIndex(rest, sequence);
      if i < |rest| {
        SplitAround(pending, i);
      } else {
        assert pending == [pending[0]] + rest;
      }
    }
  }

  method RemoveStoredRecordBySequence(slots: array<Option<StoredRecord>>, sequence: nat,
                                      ghost pending: seq<StoredRecord>)
    requires Packed(slots[..], pending)
    modifies slots
    ensures Packed(slots[..], RemoveBySequence(pending, sequence))
  {
    hide RemoveBySequence, FirstIndex;
    ghost var target := FirstIndex(pending, sequence);
    RemoveAtFirstIndex(pending, sequence);
    var index := 0;
    while index < slots.Length && !(slots[index].Some? && slots[index].value.sequence == sequence)
      invariant 0 <= index <= slots.Length
      invariant index <= target || target == |pending|
    {
      assert slots[..][index] == slots[index];
      index := index + 1;
    }
    if index < slots.Length {
      assert slots[..][index] == slots[index];
      assert index == target < |pending|;
      hide Packed;
      ghost var before := slots[..];
      RotateLeft(slots, index);
      slots[slots.Length - 1] := None;
      assert slots[..] == before[..index] + before[index + 1..] + [None];
      PackedWithout(before, pending, index);
    }
  }

  lemma PackedWithout(slots: seq<Option<StoredRecord>>, pending: seq<StoredRecord>, i: nat)
    requires Packed(slots, pending) && i < |pending|
    ensures i < |slots| && Packed(slots[..i] + slots[i + 1..] + [None], pending[..i] + pending[i + 1..])
  {
  }

  predicate NewestFits(records: seq<StoredRecord>, limit: nat) {
    records != [] ==> EntryLen(|records[|records| - 1].payload|) <= limit
  }

  lemma PushedNewestFits(records: seq<StoredRecord>, incoming: StoredRecord, capacity: nat, limit: nat)
    requires |records| <= capacity && EntryLen(|incoming.payload|) <= limit
    ensures NewestFits(PushBounded(records, incoming, capacity), limit)
  {
    hide EntryLen;
  }

  /** A queue that is too long keeps a newest record that fits. */
  lemma TooLongHasMore(records: seq<StoredRecord>, limit: nat)
    requires NewestFits(records, limit) && S.TotalLen(records) > limit
    ensures |records| >= 2 && NewestFits(records[1..], limit)
  {
    hide EntryLen, S.TotalLen, NewestFits;
    if |records| <= 1 {
      FewFit(records, limit);
    } else {
      NewestStays(records, limit);
    }
  }

  lemma NewestStays(records: seq<StoredRecord>, limit: nat)
    requires |records| >= 2 && NewestFits(records, limit)
    ensures NewestFits(records[1..], limit)
  {
    hide EntryLen;
    assert records[1..][|records| - 2] == records[|records| - 1];
  }

  lemma FewFit(records: seq<StoredRecord>, limit: nat)
    requires |records| <= 1 && NewestFits(records, limit)
    ensures S.TotalLen(records) <= limit
  {
    hide EntryLen;
    if |records| == 1 {
      assert records == [records[0]];
      S.TotalLenSingle(records[0]);
    }
  }

  class FlashBackedSpool {
    const payloadSize: nat
    var spool: PersistentSpool
    var writeOffset: nat

    ghost predicate Valid()
      reads this, spool, spool.queue, spool.queue.buf
    {
      spool.Valid() && S.RecordsFit(spool.queue.Contents(), payloadSize)
    }

    ghost function Repr(): set<object>
      reads this, spool
    {
      {this, spool, spool.queue, spool.queue.buf}
    }

    ghost function Config(flash: InMemoryFlash): S.Config
      reads this, spool
    {
      S.Config(spool.queue.buf.Length, payloadSize, flash.sectorSize)
    }

    /** The RAM state and the flash bytes as one value. */
    ghost function State(flash: InMemoryFlash): (st: S.State)
      requires Valid()
      reads this, spool, spool.queue, spool.queue.buf, flash.data
      ensures S.Valid(Config(flash), st)
    {
      S.State(spool.queue.Contents(), spool.nextSequence, writeOffset, flash.data[..])
    }

    constructor (capacity: nat, payloadSize: nat)
      ensures Valid() && fresh(Repr()) && this.payloadSize == payloadSize
      ensures spool.queue.buf.Length == capacity && spool.queue.Contents() == []
      ensures spool.nextSequence == 0 && writeOffset == 0
    {
      this.payloadSize := payloadSize;
      spool := new PersistentSpool(capacity);
      writeOffset := 0;
    }

    constructor Recovered(records: seq<StoredRecord>, capacity: nat, payloadSize: nat, nextSequence: nat,
                          writeOffset: nat)
      requires nextSequence < U64_LIMIT && S.RecordsFit(records, payloadSize) && |records| <= capacity
      ensures Valid() && fresh(Repr()) && this.payloadSize == payloadSize
      ensures spool.queue.buf.Length == capacity && spool.queue.Contents() == records
      ensures spool.nextSequence == nextSequence && this.writeOffset == writeOffset
    {
      PushAllKeepsNewest([], records, capacity);
      assert [] + records == records;
      this.payloadSize := payloadSize;
      spool := new PersistentSpool.FromRecords(records, capacity, nextSequence);
      this.writeOffset := writeOffset;
    }

    method Append(flash: InMemoryFlash, flags: byte, payload: seq<byte>)
      returns (r: Result<S.AppendResult, SpoolError>)
      requires Valid() && (flash.data as object) !in Repr()
      modifies Repr(), flash.data
      ensures Valid() && fresh(Repr() - old(Repr())) && Config(flash) == old(Config(flash))
      ensures (State(flash), r) == old(S.Append(Config(flash), State(flash), flags, payload))
    {
      hide RecordBytes, CanWrite, Written, S.AppendWithCompaction, S.RecordsFit, RecordFits, PushBounded, PushDropped;
      var sequence := spool.nextSequence;
      if |payload| > payloadSize {
        return Err(BufferTooSmall);
      }
      var stored := StoredRecord(sequence, flags, payload);
      var encoded := new byte[FLASH_ENTRY_BUFFER_LEN];
      var encodedLen := EncodeRecord(stored, encoded);
      if encodedLen.Err? {
        return Err(encodedLen.error);
      }
      var len := encodedLen.value;
      assert encoded[..len] == RecordBytes(stored);
      NewRecordFits(stored, payloadSize);
      if writeOffset + len <= flash.data.Length {
        var failure := WriteEntry(flash, encoded[..len]);
        if failure.Some? {
          return Err(failure.value);
        }
        S.PushKeepsFit(spool.queue.Contents(), stored, spool.queue.buf.Length, payloadSize);
        var result := spool.Append(flags, payload);
        return Ok(result);
      }
      r := AppendWithCompaction(flash, stored);
    }

    /** Writes one entry at the write offset and moves the offset behind it. */
    method WriteEntry(flash: InMemoryFlash, bytes: seq<byte>) returns (failure: Option<SpoolError>)
      requires writeOffset + |bytes| <= flash.data.Length
      modifies this`writeOffset, flash.data
      ensures var before := old(flash.data[..]);
              if CanWrite(before, old(writeOffset), bytes)
              then failure == None && writeOffset == old(writeOffset) + |bytes|
                   && flash.data[..] == Written(before, old(writeOffset), bytes)
              else failure == Some(Flash(WriteRequiresErase)) && writeOffset == old(writeOffset)
                   && flash.data[..] == before
    {
      hide CanWrite, Written;
      var written := flash.Write(writeOffset, bytes);
      if written.Err? {
        return Some(Flash(written.error));
      }
      writeOffset := writeOffset + |bytes|;
      return None;
    }

    method AppendWithCompaction(flash: InMemoryFlash, incoming: StoredRecord)
      returns (r: Result<S.AppendResult, SpoolError>)
      requires Valid() && (flash.data as object) !in Repr()
      requires RecordFits(incoming, payloadSize)
      modifies Repr(), flash.data
      ensures Valid() && fresh(Repr() - old(Repr())) && Config(flash) == old(Config(flash))
      ensures (State(flash), r) == old(S.AppendWithCompaction(Config(flash), State(flash), incoming))
    {
      hide RecordBytes, S.Rewrite, S.DropToFit, S.TotalLen, S.RecordsFit, RecordFits, PushBounded, PushDropped;
      if EntryLen(|incoming.payload|) > flash.data.Length {
        return Err(FlashFull);
      }
      S.PushKeepsFit(spool.queue.Contents(), incoming, spool.queue.buf.Length, payloadSize);
      S.DropToFitKeepsFit(PushBounded(spool.queue.Contents(), incoming, spool.queue.buf.Length),
                          flash.data.Length, payloadSize);
      var records, dropped, droppedCount := Compacted(incoming, flash.data.Length);
      var failure := RewriteRecords(flash, records, (incoming.sequence + 1) % U64_LIMIT);
      r := if failure.Some? then Err(failure.value)
           else Ok(S.AppendResult(incoming.sequence, dropped, droppedCount));
    }

    /** The records a compaction keeps, and what it drops for them. */
    method Compacted(incoming: StoredRecord, limit: nat)
      returns (records: seq<StoredRecord>, dropped: Option<StoredRecord>, droppedCount: nat)
      requires spool.Valid() && EntryLen(|incoming.payload|) <= limit
      ensures var before := spool.queue.Contents();
              var pushed := PushBounded(before, incoming, spool.queue.buf.Length);
              var pushDropped := PushDropped(before, incoming, spool.queue.buf.Length);
              && records == S.DropToFit(pushed, limit)
              && dropped == S.Or(pushDropped, S.FirstDropped(pushed, records))
              && droppedCount == (if pushDropped.Some? then 1 else 0) + |pushed| - |records|
    {
      hide NewestFits, PushBounded, PushDropped, EntryLen, S.DropToFit;
      var compacted := CopyQueue(spool.queue);
      PushedNewestFits(spool.queue.Contents(), incoming, spool.queue.buf.Length, limit);
      dropped := compacted.Push(incoming);
      droppedCount := if dropped.Some? then 1 else 0;
      var more, moreCount := DropUntilFits(compacted, limit);
      dropped := S.Or(dropped, more);
      droppedCount := droppedCount + moreCount;
      records := CopyQueueRecords(compacted);
    }

    static method CopyQueue(source: Queue<StoredRecord>) returns (copy: Queue<StoredRecord>)
      requires source.Valid()
      ensures copy.Valid() && fresh(copy) && fresh(copy.buf) && copy.buf.Length == source.buf.Length
      ensures copy.Contents() == source.Contents()
    {
      ghost var items := source.Contents();
      copy := new Queue<StoredRecord>(source.buf.Length);
      for index := 0 to source.len
        invariant copy.Valid() && fresh(copy) && fresh(copy.buf) && copy.buf.Length == source.buf.Length
        invariant copy.Contents() == items[..index]
      {
        var record := source.Get(index);
        var _ := copy.Push(record.value);
      }
    }

    /** Pops oldest records until the rest encodes into `limit` bytes; the newest always does. */
    method DropUntilFits(compacted: Queue<StoredRecord>, limit: nat)
      returns (dropped: Option<StoredRecord>, droppedCount: nat)
      requires compacted.Valid() && NewestFits(compacted.Contents(), limit)
      modifies compacted, compacted.buf
      ensures compacted.Valid()
      ensures var before := old(compacted.Contents());
              && compacted.Contents() == S.DropToFit(before, limit)
              && dropped == S.FirstDropped(before, compacted.Contents())
              && droppedCount == |before| - |compacted.Contents()|
    {
      hide NewestFits, S.TotalLen;
      ghost var before := compacted.Contents();
      dropped, droppedCount := None, 0;
      var encodedLen := QueueEncodedLen(compacted);
      while encodedLen > limit
        invariant compacted.Valid() && NewestFits(compacted.Contents(), limit)
        invariant encodedLen == S.TotalLen(compacted.Contents())
        invariant S.DropToFit(compacted.Contents(), limit) == S.DropToFit(before, limit)
        invariant |compacted.Contents()| <= |before|
        invariant dropped == S.FirstDropped(before, compacted.Contents())
        invariant droppedCount == |before| - |compacted.Contents()|
        invariant |compacted.Contents()| == |before| ==> compacted.Contents() == before
        decreases |compacted.Contents()|
      {
        TooLongHasMore(compacted.Contents(), limit);
        var removed := compacted.Pop();
        dropped := S.Or(dropped, removed);
        droppedCount := droppedCount + 1;
        if compacted.len == 0 {
          // Where the program would give up with `FlashFull`.
          assert false;
        }
        encodedLen := QueueEncodedLen(compacted);
      }
    }

    method Acknowledge(flash: InMemoryFlash) returns (r: Result<Option<StoredRecord>, SpoolError>)
      requires Valid() && (flash.data as object) !in Repr()
      modifies Repr(), flash.data
      ensures Valid() && fresh(Repr() - old(Repr())) && Config(flash) == old(Config(flash))
      ensures (State(flash), r) == old(S.Acknowledge(Config(flash), State(flash)))
    {
      hide AckBytes, CanWrite, Written, S.AcknowledgeWithCompaction, S.RecordsFit;
      var front := spool.queue.Front();
      if front.None? {
        return Ok(None);
      }
      PopKeepsFit(spool.queue.Contents(), payloadSize);
      var encoded := new byte[ENCODED_ACK_RECORD_LEN];
      var encodedLen := EncodeAck(front.value.sequence, encoded);
      var len := encodedLen.value;
      assert encoded[..len] == AckBytes(front.value.sequence);
      if writeOffset + len <= flash.data.Length {
        var failure := WriteEntry(flash, encoded[..len]);
        if failure.Some? {
          return Err(failure.value);
        }
        var removed := spool.queue.Pop();
        return Ok(removed);
      }
      r := AcknowledgeWithCompaction(flash);
    }

    method AcknowledgeWithCompaction(flash: InMemoryFlash) returns (r: Result<Option<StoredRecord>, SpoolError>)
      requires Valid() && (flash.data as object) !in Repr() && spool.queue.Contents() != []
      modifies Repr(), flash.data
      ensures Valid() && fresh(Repr() - old(Repr())) && Config(flash) == old(Config(flash))
      ensures (State(flash), r) == old(S.AcknowledgeWithCompaction(Config(flash), State(flash)))
    {
      hide S.Rewrite, S.RecordsFit;
      PopKeepsFit(spool.queue.Contents(), payloadSize);
      var acknowledged := spool.queue.Pop();
      var records := CopyQueueRecords(spool.queue);
      var failure := RewriteRecords(flash, records, spool.nextSequence);
      r := if failure.Some? then Err(failure.value) else Ok(acknowledged);
    }

    method RewriteRecords(flash: InMemoryFlash, records: seq<StoredRecord>, nextSequence: nat)
      returns (failure: Option<SpoolError>)
      requires Valid() && (flash.data as object) !in Repr()
      requires S.RecordsFit(records, payloadSize) && nextSequence < U64_LIMIT
      modifies Repr(), flash.data
      ensures Valid() && fresh(Repr() - old(Repr())) && Config(flash) == old(Config(flash))
      ensures (State(flash), failure) == old(S.Rewrite(Config(flash), State(flash), records, nextSequence))
    {
      hide RecordBytes, CanWrite, Written, S.TotalLen, S.RecordsBytes, PushAll;
      var total := RecordsEncodedLen(records);
      if total > flash.data.Length {
        return Some(FlashFull);
      }
      var erased := flash.Erase(0, flash.data.Length);
      if erased.Err? {
        return Some(Flash(erased.error));
      }
      writeOffset := 0;
      ghost var size := flash.data.Length;
      assert flash.data[..] == Erased(size);
      WriteRecords(flash, records);
      PushAllKeepsNewest([], records, spool.queue.buf.Length);
      assert [] + records == records;
      spool := new PersistentSpool.FromRecords(records, spool.queue.buf.Length, nextSequence);
      return None;
    }

    /** Writes `records` one behind the other onto erased flash. */
    method WriteRecords(flash: InMemoryFlash, records: seq<StoredRecord>)
      requires S.RecordsFit(records, MAX_PAYLOAD_LEN) && S.TotalLen(records) <= flash.data.Length
      requires flash.data[..] == Erased(flash.data.Length) && writeOffset == 0
      modifies this`writeOffset, flash.data
      ensures writeOffset == S.TotalLen(records)
      ensures flash.data[..] == S.RecordsBytes(records) + Erased(flash.data.Length - S.TotalLen(records))
    {
      hide RecordBytes, CanWrite, Written, S.TotalLen, S.RecordsBytes;
      ghost var size := flash.data.Length;
      S.NoRecords();
      assert records[..0] == [];
      for i := 0 to |records|
        invariant writeOffset == S.TotalLen(records[..i]) <= S.TotalLen(records)
        invariant flash.data[..] == S.RecordsBytes(records[..i]) + Erased(size - writeOffset)
      {
        WriteNextRecord(records, i, size);
        ghost var image := flash.data[..];
        var len := WriteRecord(flash, writeOffset, records[i]);
        writeOffset := writeOffset + len;
        assert flash.data[..] == Written(image, S.TotalLen(records[..i]), RecordBytes(records[i]));
      }
      assert records[..|records|] == records;
    }

    static method WriteRecord(flash: InMemoryFlash, offset: nat, record: StoredRecord) returns (len: nat)
      requires RecordFits(record, MAX_PAYLOAD_LEN) && offset + EntryLen(|record.payload|) <= flash.data.Length
      requires CanWrite(flash.data[..], offset, RecordBytes(record))
      modifies flash.data
      ensures len == EntryLen(|record.payload|)
      ensures flash.data[..] == Written(old(flash.data[..]), offset, RecordBytes(record))
    {
      hide RecordBytes, CanWrite;
      var encoded := new byte[FLASH_ENTRY_BUFFER_LEN];
      var encodedLen := EncodeRecord(record, encoded);
      len := encodedLen.value;
      assert encoded[..len] == RecordBytes(record);
      var _ := flash.Write(offset, encoded[..len]);
    }

    method CopyQueueRecords(queue: Queue<StoredRecord>) returns (records: seq<StoredRecord>)
      requires queue.Valid()
      ensures records == queue.Contents()
    {
      records := [];
      for index := 0 to queue.len
        invariant records == queue.Contents()[..index]
      {
        var record := queue.Get(index);
        records := records + [record.value];
      }
    }

    method QueueEncodedLen(queue: Queue<StoredRecord>) returns (len: nat)
      requires queue.Valid()
      ensures len == S.TotalLen(queue.Contents())
    {
      ghost var records := queue.Contents();
      len := 0;
      assert records[..0] == [];
      for index := 0 to queue.len
        invariant len == S.TotalLen(records[..index])
      {
        var record := queue.Get(index);
        assert records[..index + 1] == records[..index] + [records[index]];
        S.TotalLenConcat(records[..index], [records[index]]);
        len := len + EntryLen(|record.value.payload|);
      }
      assert records[..|records|] == records;
    }

    method RecordsEncodedLen(records: seq<StoredRecord>) returns (len: nat)
      ensures len == S.TotalLen(records)
    {
      len := 0;
      assert records[..0] == [];
      for i := 0 to |records|
        invariant len == S.TotalLen(records[..i])
      {
        assert records[..i + 1] == records[..i] + [records[i]];
        S.TotalLenConcat(records[..i], [records[i]]);
        len := len + EntryLen(|records[i].payload|);
      }
      assert records[..|records|] == records;
    }
  }

  lemma NewRecordFits(r: StoredRecord, payloadSize: nat)
    requires r.sequence < U64_LIMIT && |r.payload| <= payloadSize
    requires EntryLen(|r.payload|) <= FLASH_ENTRY_BUFFER_LEN
    ensures RecordFits(r, payloadSize)
  {
  }

  lemma PopKeepsFit(records: seq<StoredRecord>, payloadSize: nat)
    requires records != [] && S.RecordsFit(records, payloadSize)
    ensures S.RecordsFit(records[1..], payloadSize) && records[0].sequence < U64_LIMIT
  {
  }

  /** The `i`th record of a rewrite goes onto erased flash right behind the ones before it. */
  lemma WriteNextRecord(records: seq<StoredRecord>, i: nat, size: nat)
    requires i < |records| && S.RecordsFit(records, MAX_PAYLOAD_LEN) && S.TotalLen(records) <= size
    ensures var done, next := S.TotalLen(records[..i]), S.TotalLen(records[..i + 1]);
            && next == done + EntryLen(|records[i].payload|) <= S.TotalLen(records)
            && var image := S.RecordsBytes(records[..i]) + Erased(size - done);
               && CanWrite(image, done, RecordBytes(records[i]))
               && Written(image, done, RecordBytes(records[i]))
                  == S.RecordsBytes(records[..i + 1]) + Erased(size - next)
  {
    hide RecordBytes, S.TotalLen, S.RecordsBytes, Writable;
    assert records[..i + 1] == records[..i] + [records[i]];
    S.TotalLenConcat(records[..i], [records[i]]);
    S.TotalLenSingle(records[i]);
    assert records == records[..i + 1] + records[i + 1..];
    S.TotalLenConcat(records[..i + 1], records[i + 1..]);
    S.RecordsBytesConcat(records[..i], [records[i]]);
    S.RecordsBytesSingle(records[i]);
    var done := S.TotalLen(records[..i]);
    var image := S.RecordsBytes(records[..i]) + Erased(size - done);
    WritableWhereErasedOrSame(image, done, RecordBytes(records[i]));
  }

  /** The used part of a packed slot array. */
  method Flatten(slots: array<Option<StoredRecord>>, ghost pending: seq<StoredRecord>)
    returns (records: seq<StoredRecord>)
    requires Packed(slots[..], pending)
    ensures records == pending
  {
    records := [];
    for i := 0 to slots.Length
      invariant records == pending[..Min(i, |pending|)]
    {
      assert slots[..][i] == slots[i];
      if slots[i].Some? {
        records := records + [slots[i].value];
      }
    }
  }

  datatype EntryOutcome = Applied | Damaged | TooLarge

  /** Decodes one entry and applies it to the slot array. */
  method ReplayEntry(entry: seq<byte>, slots: array<Option<StoredRecord>>, payloadSize: nat,
                     maxSeen: Option<nat>, ghost scan: Scan)
    returns (outcome: EntryOutcome, seen: Option<nat>)
    requires |entry| >= 4 && EntryLen(payloadSize) <= FLASH_ENTRY_BUFFER_LEN
    requires Packed(slots[..], scan.pending) && scan.maxSeen == maxSeen
    requires S.RecordsFit(scan.pending, payloadSize)
    modifies slots
    ensures var step := StepEntry(entry, payloadSize, slots.Length, scan);
            match outcome
            case Applied =>
              && step.Continue? && step.scan.maxSeen == seen && step.scan.corrupt == scan.corrupt
              && Packed(slots[..], step.scan.pending) && S.RecordsFit(step.scan.pending, payloadSize)
            case Damaged => step == Stop(Corrupted(scan)) && slots[..] == old(slots[..])
            case TooLarge => step == Fail(BufferTooSmall)
  {
    hide LeValue, DecodeRecord, DecodeAck, PushBounded, RemoveBySequence;
    seen := maxSeen;
    var magic := LeValue(entry[0..4]);
    if magic == RECORD_MAGIC {
      var record := DecodeRecord(entry);
      if record.Err? {
        return Damaged, seen;
      }
      if |record.value.payload| > payloadSize {
        return TooLarge, seen;
      }
      DecodedRecordFits(entry, payloadSize);
      S.PushKeepsFit(scan.pending, record.value, slots.Length, payloadSize);
      PushStoredRecord(slots, record.value, scan.pending);
      return Applied, Some(MaxSequence(maxSeen, record.value.sequence));
    } else if magic == ACK_MAGIC {
      var sequence := DecodeAck(entry);
      if sequence.Err? {
        return Damaged, seen;
      }
      S.RemoveKeepsFit(scan.pending, sequence.value, payloadSize);
      RemoveStoredRecordBySequence(slots, sequence.value, scan.pending);
      return Applied, Some(MaxSequence(maxSeen, sequence.value));
    } else {
      return Damaged, seen;
    }
  }

  datatype Replayed = Replayed(cursor: nat, maxSeen: Option<nat>, corrupt: nat)

  /** The recovery loop: reads entry after entry into the slot array. */
  method ReplayFlash(flash: InMemoryFlash, slots: array<Option<StoredRecord>>, payloadSize: nat)
    returns (r: Result<Replayed, SpoolError>, ghost pending: seq<StoredRecord>)
    requires EntryLen(payloadSize) <= FLASH_ENTRY_BUFFER_LEN && Packed(slots[..], [])
    requires (slots as object) != flash.data
    modifies slots
    ensures match ScanFrom(flash.data[..], payloadSize, slots.Length, START)
            case Err(error) => r == Err(error)
            case Ok(scan) =>
              && r == Ok(Replayed(scan.cursor, scan.maxSeen, scan.corrupt)) && pending == scan.pending
              && Packed(slots[..], pending) && S.RecordsFit(pending, payloadSize)
  {
    hide LeValue, Step, StepEntry, EncodedLogEntryLen;
    var capacity := slots.Length;
    ghost var bytes := flash.data[..];
    ghost var scan := START;
    var maxSeen: Option<nat> := None;
    var cursor: nat, corrupt: nat, stop := 0, 0, false;
    pending := [];

    while !stop && cursor + FLASH_WRITE_ALIGNMENT <= flash.data.Length
      invariant scan == Scan(cursor, pending, maxSeen, corrupt)
      invariant cursor <= flash.data.Length && Packed(slots[..], pending)
      invariant S.RecordsFit(pending, payloadSize)
      invariant ScanFrom(bytes, payloadSize, capacity, START)
             == if stop then Ok(scan) else ScanFrom(bytes, payloadSize, capacity, scan)
      decreases !stop, flash.data.Length - cursor
    {
      var window := flash.Read(cursor, FLASH_WRITE_ALIGNMENT);
      var header := flash.Read(cursor, ENCODED_RECORD_HEADER_LEN);
      var entryLen := if header.Ok? then EncodedLogEntryLen(header.value) else Err(BadMagic);
      StepCases(bytes, payloadSize, capacity, scan);
      if AllErased(window.value) {
        stop := true;
      } else if cursor + ENCODED_RECORD_HEADER_LEN > flash.data.Length {
        corrupt := corrupt + 1;
        stop := true;
      } else if entryLen == Err(BadMagic) {
        corrupt := corrupt + 1;
        cursor := cursor + FLASH_WRITE_ALIGNMENT;
      } else if entryLen.Err? || cursor + entryLen.value > flash.data.Length
                || entryLen.value > FLASH_ENTRY_BUFFER_LEN {
        corrupt := corrupt + 1;
        stop := true;
      } else {
        var entry := flash.Read(cursor, entryLen.value);
        ghost var step := StepEntry(entry.value, payloadSize, capacity, scan);
        var outcome, seen := ReplayEntry(entry.value, slots, payloadSize, maxSeen, scan);
        if outcome == TooLarge {
          return Err(BufferTooSmall), pending;
        }
        if outcome == Damaged {
          corrupt := corrupt + 1;
          stop := true;
        } else {
          pending := step.scan.pending;
          maxSeen := seen;
          cursor := cursor + entryLen.value;
        }
      }
      scan := Scan(cursor, pending, maxSeen, corrupt);
    }
    return Ok(Replayed(cursor, maxSeen, corrupt)), pending;
  }

  /** The recovery loop's branches, read off its specification. */
  lemma StepCases(bytes: seq<byte>, payloadSize: nat, capacity: nat, s: Scan)
    requires s.cursor + FLASH_WRITE_ALIGNMENT <= |bytes| && |s.pending| <= capacity
    ensures var step := Step(bytes, payloadSize, capacity, s);
            if AllErased(bytes[s.cursor..s.cursor + FLASH_WRITE_ALIGNMENT]) then step == Stop(s)
            else if s.cursor + ENCODED_RECORD_HEADER_LEN > |bytes| then step == Stop(Corrupted(s))
            else
              var len := EncodedLogEntryLen(bytes[s.cursor..s.cursor + ENCODED_RECORD_HEADER_LEN]);
              if len == Err(BadMagic) then
                step == Continue(Corrupted(s).(cursor := s.cursor + FLASH_WRITE_ALIGNMENT))
              else if len.Err? || s.cursor + len.value > |bytes| || len.value > FLASH_ENTRY_BUFFER_LEN then
                step == Stop(Corrupted(s))
              else
                len.value >= 4 && step == StepEntry(bytes[s.cursor..s.cursor + len.value], payloadSize, capacity, s)
  {
    hide LeValue, StepEntry;
  }

  /** Boot-time recovery: replays the flash bytes into a fresh spool and reports what it found. */
  method RecoverWithReport(flash: InMemoryFlash, capacity: nat, payloadSize: nat)
    returns (r: Result<(FlashBackedSpool, Report), SpoolError>)
    ensures var expected := S.Recover(S.Config(capacity, payloadSize, flash.sectorSize), flash.data[..]);
            match expected
            case Err(error) => r == Err(error)
            case Ok((st, corrupt)) =>
              && r.Ok? && r.value.1 == Report(|st.queue|, corrupt)
              && var recovered := r.value.0;
                 && recovered.Valid() && fresh(recovered.Repr()) && recovered.State(flash) == st
                 && recovered.Config(flash) == S.Config(capacity, payloadSize, flash.sectorSize)
  {
    hide ScanFrom;
    if payloadSize > MAX_PAYLOAD_LEN {
      return Err(PayloadTooLarge);
    }
    if EntryLen(payloadSize) > FLASH_ENTRY_BUFFER_LEN {
      return Err(BufferTooSmall);
    }
    var slots := new Option<StoredRecord>[capacity](_ => None);
    var replayed, pending := ReplayFlash(flash, slots, payloadSize);
    if replayed.Err? {
      return Err(replayed.error);
    }
    var records := Flatten(slots, pending);
    var maxSeen := replayed.value.maxSeen;
    var nextSequence := if maxSeen.Some? then (maxSeen.value + 1) % U64_LIMIT else 0;
    var recovered := new FlashBackedSpool.Recovered(records, capacity, payloadSize, nextSequence,
      replayed.value.cursor);
    return Ok((recovered, Report(|records|, replayed.value.corrupt)));
  }

  lemma DecodedRecordFits(entry: seq<byte>, payloadSize: nat)
    requires DecodeRecord(entry).Ok? && |DecodeRecord(entry).value.payload| <= payloadSize
    requires EntryLen(payloadSize) <= FLASH_ENTRY_BUFFER_LEN
    ensures RecordFits(DecodeRecord(entry).value, payloadSize)
  {
    hide Crc32.Checksum, LeValue, FromLe32;
    LeValueBound(entry[8..16]);
  }
}
