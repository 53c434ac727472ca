/** What the spool promises over every run of appends, acknowledgements and reboots. */
module SpoolGuarantees {
  import opened Bytes
  import opened SpoolCodec
  import opened FlashModel
  import opened DropOldestQueue
  import opened SpoolLog
  import opened SpoolSpec
  import opened SpoolRuns

  // Appending keeps the longest suffix that fits.

  /** Pushing and then dropping to fit is dropping once, by capacity and by size. */
  lemma PushedDropIsLongest(queue: seq<StoredRecord>, r: StoredRecord, capacity: nat, limit: nat)
    returns (from: nat)
    requires 0 < capacity && |queue| <= capacity
    ensures var all := queue + [r];
            var pushed := PushBounded(queue, r, capacity);
            var kept := DropToFit(pushed, limit);
            && IsLongestFittingSuffix(all, from, capacity, limit)
            && kept == all[from..]
            && from == (if PushDropped(queue, r, capacity).Some? then 1 else 0) + |pushed| - |kept|
            && Or(PushDropped(queue, r, capacity), FirstDropped(pushed, kept))
               == if from == 0 then None else Some(all[0])
  {
    hide TotalLen, DropToFit, PushBounded, PushDropped;
    var all := queue + [r];
    var pushed := PushBounded(queue, r, capacity);
    var kept := DropToFit(pushed, limit);
    var over := if |queue| == capacity then 1 else 0;
    PushedIsSuffix(queue, r, capacity);
    DropToFitIsSuffix(pushed, limit);
    from := |all| - |kept|;
    SuffixOfSuffix(all, over, |pushed| - |kept|);
    forall longer | 0 <= longer < from
      ensures !SuffixFits(all, longer, capacity, limit)
    {
      if longer >= over {
        DropToFitIsLongest(pushed, limit, longer - over);
        SuffixOfSuffix(all, over, longer - over);
      }
    }
  }

  lemma PushedIsSuffix(queue: seq<StoredRecord>, r: StoredRecord, capacity: nat)
    requires 0 < capacity && |queue| <= capacity
    ensures var over := if |queue| == capacity then 1 else 0;
            && PushBounded(queue, r, capacity) == (queue + [r])[over..]
            && PushDropped(queue, r, capacity) == if over == 1 then Some((queue + [r])[0]) else None
  {
  }

  lemma SuffixOfSuffix(records: seq<StoredRecord>, a: nat, b: nat)
    requires a + b <= |records|
    ensures records[a..][b..] == records[a + b..]
  {
  }

  /** Compaction keeps exactly the longest suffix of the old queue plus the new record that meets
      both the record capacity and the flash size, and reports what it dropped. */
  lemma {:induction false} CompactionKeepsLongestSuffix(cfg: Config, st: State, r: StoredRecord)
    returns (from: nat)
    requires 0 < cfg.capacity && Valid(cfg, st) && RecordFits(r, cfg.payloadSize)
    ensures var all := st.queue + [r];
            var (st', result) := AppendWithCompaction(cfg, st, r);
            result.Ok? ==>
              && IsLongestFittingSuffix(all, from, cfg.capacity, |st.flash|)
              && st'.queue == all[from..]
              && result.value == AppendResult(r.sequence, if from == 0 then None else Some(all[0]), from)
  {
    hide TotalLen, DropToFit, RecordFits, RecordsFit, IsLongestFittingSuffix, PushBounded, PushDropped, Or;
    hide FirstDropped;
    from := PushedDropIsLongest(st.queue, r, cfg.capacity, |st.flash|);
    var pushed := PushBounded(st.queue, r, cfg.capacity);
    PushKeepsFit(st.queue, r, cfg.capacity, cfg.payloadSize);
    DropToFitKeepsFit(pushed, |st.flash|, cfg.payloadSize);
    var kept := DropToFit(pushed, |st.flash|);
    PushAllKeepsNewest([], kept, cfg.capacity);
    assert [] + kept == kept;
  }

  /** The same holds of every append in every reachable state, compacting or not. */
  lemma {:induction false} AppendKeepsLongestSuffix(cfg: Config, st: State, es: seq<Entry>, tail: bool, flags: byte,
                                                    payload: seq<byte>)
    returns (from: nat)
    requires Sound(cfg, |st.flash|) && Inv(cfg, st, es, tail) && Valid(cfg, st)
    ensures var r := StoredRecord(st.nextSequence, flags, payload);
            var all := st.queue + [r];
            var (st', result) := Append(cfg, st, flags, payload);
            result.Ok? ==>
              && IsLongestFittingSuffix(all, from, cfg.capacity, |st.flash|)
              && st'.queue == all[from..]
              && result.value == AppendResult(r.sequence, if from == 0 then None else Some(all[0]), from)
  {
    hide Inv, RecordFits, EntryLen, TotalLen, IsLongestFittingSuffix, AppendInPlace, AppendWithCompaction;
    var r := StoredRecord(st.nextSequence, flags, payload);
    from := 0;
    if |payload| <= cfg.payloadSize {
      AcceptedRecordFits(cfg, r);
      if st.writeOffset + EntryLen(|payload|) <= |st.flash| {
        InvFacts(cfg, st, es, tail);
        from := InPlaceKeepsLongestSuffix(cfg, st, r);
      } else {
        from := CompactionKeepsLongestSuffix(cfg, st, r);
      }
    }
  }

  lemma InPlaceKeepsLongestSuffix(cfg: Config, st: State, r: StoredRecord)
    returns (from: nat)
    requires 0 < cfg.capacity && Valid(cfg, st) && RecordFits(r, cfg.payloadSize)
    requires TotalLen(st.queue) <= st.writeOffset
    requires st.writeOffset + EntryLen(|r.payload|) <= |st.flash|
    ensures var all := st.queue + [r];
            var (st', result) := AppendInPlace(cfg, st, r);
            result.Ok? ==>
              && IsLongestFittingSuffix(all, from, cfg.capacity, |st.flash|)
              && st'.queue == all[from..]
              && result.value == AppendResult(r.sequence, if from == 0 then None else Some(all[0]), from)
  {
    hide TotalLen, RecordFits, RecordsFit, RecordBytes;
    var all := st.queue + [r];
    TotalLenConcat(st.queue, [r]);
    TotalLenSingle(r);
    from := if |st.queue| == cfg.capacity then 1 else 0;
    TotalLenSuffix(all, from);
    assert all[0..] == all;
  }

  // Runs.

  datatype Op = DoAppend(flags: byte, payload: seq<byte>) | DoAcknowledge | Reboot

  /** What a caller can count from the results it gets. */
  datatype Ledger = Ledger(appended: nat, acknowledged: nat, dropped: nat, reappeared: nat)

  /** `newest` is the record whose acknowledgement, written in place, is the newest entry on flash.
      `leftover`: an acknowledgement that a reboot forgot still lies behind the log. */
  datatype World = World(st: State, ledger: Ledger, newest: Option<StoredRecord>, leftover: bool)

  ghost function Next(cfg: Config, w: World, op: Op): World
    requires Valid(cfg, w.st)
  {
    match op
    case DoAppend(flags, payload) =>
      var (st', result) := Append(cfg, w.st, flags, payload);
      World(st', if result.Err? then w.ledger
                 else w.ledger.(appended := w.ledger.appended + 1,
                                dropped := w.ledger.dropped + result.value.droppedCount),
            if result.Err? then w.newest else None,
            w.leftover && result.Err?)
    case DoAcknowledge =>
      var (st', result) := Acknowledge(cfg, w.st);
      World(st', if result.Ok? && result.value.Some?
                 then w.ledger.(acknowledged := w.ledger.acknowledged + 1) else w.ledger,
            if result.Err? || result.value.None? then w.newest
            else if w.st.writeOffset + ENCODED_ACK_RECORD_LEN <= |w.st.flash| then result.value
            else None,
            w.leftover && (result.Err? || result.value.None?))
    case Reboot =>
      match Recover(cfg, w.st.flash)
      case Err(_) => w
      case Ok((st', _)) =>
        World(st', if st'.queue == w.st.queue then w.ledger
                   else w.ledger.(reappeared := w.ledger.reappeared + 1),
              None,
              w.leftover || st'.queue != w.st.queue)
  }

  function Start(size: nat): World {
    World(Fresh(size), Ledger(0, 0, 0, 0), None, false)
  }

  /** A run from a fresh spool on erased flash. (Every state on it is valid: `RunKeepsInv`.) */
  ghost function Run(cfg: Config, size: nat, ops: seq<Op>): World {
    if ops == [] then Start(size)
    else
      var before := Run(cfg, size, ops[..|ops| - 1]);
      if Valid(cfg, before.st) then Next(cfg, before, ops[|ops| - 1]) else before
  }

  ghost function Balance(l: Ledger): int {
    l.appended + l.reappeared - l.acknowledged - l.dropped
  }

  /** The newest entry of the log removed `front` from the queue. */
  ghost predicate RemovedFront(cfg: Config, front: StoredRecord, queue: seq<StoredRecord>, es: seq<Entry>)
    requires es != [] && LogFits(es, MAX_PAYLOAD_LEN)
  {
    Replay(es[..|es| - 1], cfg.capacity).pending == [front] + queue
  }

  /** If recovery cannot read the newest entry, it acknowledges `newest`, which was the oldest record. */
  ghost predicate NewestAcknowledged(cfg: Config, w: World, es: seq<Entry>, tail: bool) {
    && LogFits(es, MAX_PAYLOAD_LEN)
    && tail == w.leftover
    && (w.newest.Some? ==>
          && !tail && es != [] && w.newest.value.sequence < U64_LIMIT && es[|es| - 1] == Ack(w.newest.value.sequence)
          && RemovedFront(cfg, w.newest.value, w.st.queue, es))
    && (Trailing(es, |w.st.flash|) ==> w.newest.Some?)
  }

  /** What one operation keeps. */
  ghost predicate StepKept(cfg: Config, w: World, w': World, es': seq<Entry>, tail': bool) {
    && Inv(cfg, w'.st, es', tail') && Valid(cfg, w'.st) && NewestAcknowledged(cfg, w', es', tail')
    && |w'.st.flash| == |w.st.flash|
    && w'.st.nextSequence <= w.st.nextSequence + 1
    && |w'.st.queue| - Balance(w'.ledger) == |w.st.queue| - Balance(w.ledger)
  }

  lemma AppendStep(cfg: Config, w: World, es: seq<Entry>, tail: bool, flags: byte, payload: seq<byte>)
    returns (es': seq<Entry>, tail': bool)
    requires Sound(cfg, |w.st.flash|) && Inv(cfg, w.st, es, tail) && Valid(cfg, w.st)
             && NewestAcknowledged(cfg, w, es, tail)
    requires w.st.nextSequence < U64_LIMIT - 1
    ensures StepKept(cfg, w, Next(cfg, w, DoAppend(flags, payload)), es', tail')
  {
    hide Inv, Append, LogBytes, Replay, LogFits;
    es', tail' := AppendKeepsInv(cfg, w.st, es, tail, flags, payload);
    var from := AppendKeepsLongestSuffix(cfg, w.st, es, tail, flags, payload);
    InvFacts(cfg, Append(cfg, w.st, flags, payload).0, es', tail');
    LogOfInv(cfg, Append(cfg, w.st, flags, payload).0, es', tail');
  }

  /** The log the spool replays ends with what the acknowledgement in place removed. */
  lemma NewestIsFront(cfg: Config, st: State, es: seq<Entry>, tail: bool, st': State, es': seq<Entry>)
    requires st.queue != [] && Inv(cfg, st, es, tail) && st'.queue == st.queue[1..]
    requires es' == es + [Ack(st.queue[0].sequence)]
    ensures Replay(es'[..|es'| - 1], cfg.capacity).pending == [st.queue[0]] + st'.queue
  {
    hide Replay, LogBytes, LogFits, WellFormed, LastRecord, Readable, Behind, RecordsFit;
    assert es'[..|es'| - 1] == es;
  }

  lemma AcknowledgeStep(cfg: Config, w: World, es: seq<Entry>, tail: bool)
    returns (es': seq<Entry>, tail': bool)
    requires Sound(cfg, |w.st.flash|) && Inv(cfg, w.st, es, tail) && Valid(cfg, w.st)
             && NewestAcknowledged(cfg, w, es, tail)
    requires w.st.nextSequence < U64_LIMIT - 1
    ensures StepKept(cfg, w, Next(cfg, w, DoAcknowledge), es', tail')
  {
    hide Inv, Acknowledge, Valid, NewestAcknowledged;
    var st' := Acknowledge(cfg, w.st).0;
    es', tail' := AcknowledgeKeepsInv(cfg, w.st, es, tail);
    InvFacts(cfg, st', es', tail');
    if w.st.queue != [] {
      AcknowledgeNewest(cfg, w.st, es, tail, Next(cfg, w, DoAcknowledge), es');
    } else {
      assert Next(cfg, w, DoAcknowledge) == w;
    }
  }

  lemma AcknowledgeNewest(cfg: Config, st: State, es: seq<Entry>, tail: bool, w': World, es': seq<Entry>)
    requires st.queue != [] && Inv(cfg, st, es, tail) && Valid(cfg, st) && Inv(cfg, w'.st, es', false)
    requires w'.st.queue == st.queue[1..] && !w'.leftover
    requires if st.writeOffset + ENCODED_ACK_RECORD_LEN <= |st.flash|
             then es' == es + [Ack(st.queue[0].sequence)] && w'.newest == Some(st.queue[0])
             else es' == RecordEntries(st.queue[1..]) && w'.newest == None
    ensures NewestAcknowledged(cfg, w', es', false)
  {
    hide Inv, Valid, LogBytes, Replay, LogFits, Trailing;
    LogOfInv(cfg, w'.st, es', false);
    FrontSequenceBound(cfg, st);
    if st.writeOffset + ENCODED_ACK_RECORD_LEN <= |st.flash| {
      NewestIsFront(cfg, st, es, tail, w'.st, es');
    } else {
      RecordsDoNotTrail(cfg, w'.st, es');
    }
  }

  lemma RebootStep(cfg: Config, w: World, es: seq<Entry>, tail: bool)
    returns (es': seq<Entry>, tail': bool)
    requires Sound(cfg, |w.st.flash|) && Inv(cfg, w.st, es, tail) && Valid(cfg, w.st) && tail == w.leftover
    requires w.st.nextSequence < U64_LIMIT - 1
    ensures StepKept(cfg, w, Next(cfg, w, Reboot), es', tail')
  {
    hide Inv, Recover, ReadableLog, Trailing, LogFits, LogBytes, Replay;
    LogOfInv(cfg, w.st, es, tail);
    var front := RecoveryReplaysState(cfg, w.st, es, tail);
    es', tail' := ReadableLog(es, |w.st.flash|), tail || front.Some?;
    var st' := Rebooted(w.st, front);
    InvFacts(cfg, st', es', tail');
    LogOfInv(cfg, st', es', tail');
    ReadableLogIsReadable(cfg, st', es', tail', w.st, es, tail);
    assert |st'.queue| == |w.st.queue| + if front.Some? then 1 else 0;
  }

  lemma ReadableLogIsReadable(cfg: Config, st': State, es': seq<Entry>, tail': bool, st: State, es: seq<Entry>,
                              tail: bool)
    requires Inv(cfg, st, es, tail) && LogFits(es, MAX_PAYLOAD_LEN) && es' == ReadableLog(es, |st.flash|)
    requires |st'.flash| == |st.flash| && LogFits(es', MAX_PAYLOAD_LEN)
    requires Inv(cfg, st', es', tail') && (Trailing(es, |st.flash|) ==> tail')
    ensures !Trailing(es', |st'.flash|)
  {
    hide LogBytes, Replay, LogFits, AckBytes, WellFormed, LastRecord;
  }

  lemma StepKeepsInv(cfg: Config, w: World, es: seq<Entry>, tail: bool, op: Op)
    returns (es': seq<Entry>, tail': bool)
    requires Sound(cfg, |w.st.flash|) && Inv(cfg, w.st, es, tail) && Valid(cfg, w.st)
             && NewestAcknowledged(cfg, w, es, tail)
    requires w.st.nextSequence < U64_LIMIT - 1
    ensures StepKept(cfg, w, Next(cfg, w, op), es', tail')
  {
    hide Next, StepKept;
    match op {
      case DoAppend(flags, payload) => es', tail' := AppendStep(cfg, w, es, tail, flags, payload);
      case DoAcknowledge => es', tail' := AcknowledgeStep(cfg, w, es, tail);
      case Reboot => es', tail' := RebootStep(cfg, w, es, tail);
    }
  }

  /** Every reachable state is the replay of a log that lies on flash, byte for byte, and every
      record ever appended or brought back is pending, acknowledged or dropped. */
  lemma {:induction false} RunKeepsInv(cfg: Config, size: nat, ops: seq<Op>)
    returns (es: seq<Entry>, tail: bool)
    requires Sound(cfg, size) && |ops| < U64_LIMIT - 1
    ensures var w := Run(cfg, size, ops);
            && Inv(cfg, w.st, es, tail) && Valid(cfg, w.st) && NewestAcknowledged(cfg, w, es, tail)
            && |w.st.flash| == size && w.st.nextSequence <= |ops|
            && |w.st.queue| == Balance(w.ledger)
    decreases |ops|
  {
    hide Inv, Next, NewestAcknowledged;
    if ops == [] {
      FreshInv(cfg, size);
      FreshNewest(cfg, size);
      return [], false;
    }
    var e, t := RunKeepsInv(cfg, size, ops[..|ops| - 1]);
    es, tail := StepKeepsInv(cfg, Run(cfg, size, ops[..|ops| - 1]), e, t, ops[|ops| - 1]);
  }

  lemma FreshNewest(cfg: Config, size: nat)
    ensures NewestAcknowledged(cfg, Start(size), [], false)
  {
  }

  predicate NoReboot(ops: seq<Op>) {
    forall i :: 0 <= i < |ops| ==> !ops[i].Reboot?
  }

  lemma {:induction false} NothingReappears(cfg: Config, size: nat, ops: seq<Op>)
    requires NoReboot(ops)
    ensures Run(cfg, size, ops).ledger.reappeared == 0 && !Run(cfg, size, ops).leftover
    decreases |ops|
  {
    if ops != [] {
      hide Append, Acknowledge, Recover;
      NothingReappears(cfg, size, ops[..|ops| - 1]);
    }
  }

  /** Conservation within one boot: appended = pending + acknowledged + dropped. */
  lemma {:induction false} Conservation(cfg: Config, size: nat, ops: seq<Op>)
    requires Sound(cfg, size) && |ops| < U64_LIMIT - 1 && NoReboot(ops)
    ensures var w := Run(cfg, size, ops);
            w.ledger.appended == |w.st.queue| + w.ledger.acknowledged + w.ledger.dropped
  {
    var _, _ := RunKeepsInv(cfg, size, ops);
    NothingReappears(cfg, size, ops);
  }

  /** Rebooting at any point of any run recovers the RAM state. The one thing that can come back
      is the record that the last entry acknowledges, when that entry has no full header window. */
  lemma {:induction false} RebootAnywhere(cfg: Config, size: nat, ops: seq<Op>)
    returns (es: seq<Entry>, tail: bool, front: Option<StoredRecord>)
    requires Sound(cfg, size) && |ops| < U64_LIMIT - 1
    ensures var st := Run(cfg, size, ops).st;
            && Inv(cfg, st, es, tail) && tail == Run(cfg, size, ops).leftover
            && (front.Some? ==> st.writeOffset >= ENCODED_ACK_RECORD_LEN)
            && (front.Some? <==> Trailing(es, size))
            && (front.Some? ==> es[|es| - 1] == Ack(front.value.sequence) && !tail)
            && Recover(cfg, st.flash) == Ok((Rebooted(st, front), if tail || front.Some? then 1 else 0))
  {
    es, tail := RunKeepsInv(cfg, size, ops);
    front := RecoveryReplaysState(cfg, Run(cfg, size, ops).st, es, tail);
  }

  /** A reboot right after an append finds exactly the state the append left, and nothing corrupt. */
  lemma {:induction false} AppendThenReboot(cfg: Config, st: State, es: seq<Entry>, tail: bool, flags: byte,
                                            payload: seq<byte>)
    requires Sound(cfg, |st.flash|) && Inv(cfg, st, es, tail) && Valid(cfg, st)
    requires st.nextSequence < U64_LIMIT - 1
    ensures var (st', result) := Append(cfg, st, flags, payload);
            result.Ok? ==> Recover(cfg, st'.flash) == Ok((st', 0))
  {
    hide Inv, Append, Recover;
    var es', tail' := AppendKeepsInv(cfg, st, es, tail, flags, payload);
    var st' := Append(cfg, st, flags, payload).0;
    EmptyLogOffset(cfg, st', es', tail');
    var front := RecoveryReplaysState(cfg, st', es', tail');
  }

  /** Whether recovery can read an acknowledgement depends only on where it was written. */
  lemma AckTrails(cfg: Config, st': State, es: seq<Entry>, sequence: nat)
    requires sequence < U64_LIMIT && Inv(cfg, st', es + [Ack(sequence)], false)
    ensures LogFits(es + [Ack(sequence)], MAX_PAYLOAD_LEN)
    ensures Trailing(es + [Ack(sequence)], |st'.flash|)
        <==> |st'.flash| < st'.writeOffset - ENCODED_ACK_RECORD_LEN + ENCODED_RECORD_HEADER_LEN
  {
    var es' := es + [Ack(sequence)];
    assert es'[..|es'| - 1] == es;
    hide AckBytes, Replay, WellFormed, LastRecord;
  }

  /** A reboot right after an acknowledgement forgets it if and only if its 16 bytes were written
      into the last 23 bytes of flash. */
  lemma {:induction false} AcknowledgeThenReboot(cfg: Config, st: State, es: seq<Entry>, tail: bool)
    requires Sound(cfg, |st.flash|) && Inv(cfg, st, es, tail) && Valid(cfg, st) && st.queue != []
    ensures var st' := Acknowledge(cfg, st).0;
            var recovered := Recover(cfg, st'.flash);
            && recovered.Ok?
            && var forgotten := st.writeOffset + ENCODED_ACK_RECORD_LEN <= |st.flash|
                                                < st.writeOffset + ENCODED_RECORD_HEADER_LEN;
               recovered.value.0.queue == if forgotten then st.queue else st.queue[1..]
  {
    hide Acknowledge, Recover, Inv, Trailing, LogFits, Valid;
    var st' := Acknowledge(cfg, st).0;
    var es', tail' := AcknowledgeKeepsInv(cfg, st, es, tail);
    var back := RecoveryReplaysState(cfg, st', es', tail');
    if st.writeOffset + ENCODED_ACK_RECORD_LEN <= |st.flash| {
      FrontSequenceBound(cfg, st);
      AckTrails(cfg, st', es, st.queue[0].sequence);
      if back.Some? {
        BackIsFront(cfg, st, es, tail, st', es', back.value);
      }
    } else {
      RecordsDoNotTrail(cfg, st', es');
    }
  }

  lemma FrontSequenceBound(cfg: Config, st: State)
    requires Valid(cfg, st) && st.queue != []
    ensures st.queue[0].sequence < U64_LIMIT
  {
  }

  lemma RecordsDoNotTrail(cfg: Config, st: State, es: seq<Entry>)
    requires Inv(cfg, st, es, false) && (es != [] ==> es[|es| - 1].Record?)
    ensures LogFits(es, MAX_PAYLOAD_LEN) && !Trailing(es, |st.flash|)
  {
    if es != [] {
      NewestEntryReadable(cfg, st, es);
    }
  }

  lemma BackIsFront(cfg: Config, st: State, es: seq<Entry>, tail: bool, st': State, es': seq<Entry>, back: StoredRecord)
    requires cfg.capacity > 0 && st.queue != [] && st'.queue == st.queue[1..]
    requires Inv(cfg, st, es, tail) && Inv(cfg, st', es', false) && Trailing(es', |st'.flash|)
    requires st'.writeOffset >= ENCODED_ACK_RECORD_LEN
    requires es' == es + [Ack(st.queue[0].sequence)]
    requires Inv(cfg, Rebooted(st', Some(back)), ReadableLog(es', |st'.flash|), true)
    ensures [back] + st'.queue == st.queue
  {
    assert es'[..|es'| - 1] == es;
  }

  // The corners are reachable.

  /** One record of at most two payload bytes, appended to fresh flash. */
  lemma AppendedOnce(cfg: Config, size: nat, payload: seq<byte>) returns (es: seq<Entry>)
    requires Sound(cfg, size) && size >= ENCODED_RECORD_HEADER_LEN && |payload| <= Min(2, cfg.payloadSize)
    ensures var st := Append(cfg, Fresh(size), 1, payload).0;
            && Append(cfg, Fresh(size), 1, payload).1.Ok?
            && st.queue == [StoredRecord(0, 1, payload)] && st.nextSequence == 1
            && st.writeOffset == ENCODED_RECORD_HEADER_LEN && |st.flash| == size
            && Inv(cfg, st, es, false) && Valid(cfg, st)
  {
    hide Inv, RecordBytes, CanWrite, Written;
    FreshInv(cfg, size);
    assert EntryLen(|payload|) == ENCODED_RECORD_HEADER_LEN;
    var tail: bool;
    es, tail := AppendKeepsInv(cfg, Fresh(size), [], false, 1, payload);
    InvFacts(cfg, Append(cfg, Fresh(size), 1, payload).0, es, tail);
    assert [] + [StoredRecord(0, 1, payload)] == [StoredRecord(0, 1, payload)];
  }

  /** On 40 bytes of flash the acknowledgement fits behind the record, and a reboot forgets it. */
  lemma {:induction false} ForgottenAcknowledgement()
    ensures var cfg := Config(1, 0, 40);
            var st := Acknowledge(cfg, Append(cfg, Fresh(40), 1, []).0).0;
            && st.queue == []
            && Recover(cfg, st.flash).Ok?
            && Recover(cfg, st.flash).value.0.queue == [StoredRecord(0, 1, [])]
  {
    hide Inv, Append, Acknowledge, Recover;
    var cfg := Config(1, 0, 40);
    var es := AppendedOnce(cfg, 40, []);
    var st := Append(cfg, Fresh(40), 1, []).0;
    var es', tail' := AcknowledgeKeepsInv(cfg, st, es, false);
    AcknowledgeThenReboot(cfg, st, es, false);
  }

  /** On 32 bytes it does not fit: the compaction leaves erased flash, and the sequence restarts at 0. */
  lemma RestartedSequence()
    ensures var cfg := Config(1, 0, 32);
            var st := Acknowledge(cfg, Append(cfg, Fresh(32), 1, []).0).0;
            && st.queue == [] && st.nextSequence == 1
            && Recover(cfg, st.flash).Ok? && Recover(cfg, st.flash).value.0.nextSequence == 0
  {
    hide Inv, Append, Acknowledge, Recover, Trailing;
    var cfg := Config(1, 0, 32);
    var es := AppendedOnce(cfg, 32, []);
    var st := Append(cfg, Fresh(32), 1, []).0;
    var es', tail' := AcknowledgeKeepsInv(cfg, st, es, false);
    var st' := Acknowledge(cfg, st).0;
    assert es' == [];
    EmptyLogOffset(cfg, st', es', tail');
    RecordsDoNotTrail(cfg, st', es');
    var front := RecoveryReplaysState(cfg, st', es', tail');
  }

  // What a failing operation leaves, in any state whatever.

  /** A failing append changes nothing. In place it fails exactly when some bit of the entry would have
      to be set again. */
  lemma FailedAppendChangesNothing(cfg: Config, st: State, flags: byte, payload: seq<byte>)
    requires Valid(cfg, st)
    ensures var (st', result) := Append(cfg, st, flags, payload);
            var r := StoredRecord(st.nextSequence, flags, payload);
            && (result.Err? ==> st' == st)
            && (|payload| > cfg.payloadSize ==> result == Err(BufferTooSmall))
            && (0xffff < |payload| <= cfg.payloadSize ==> result == Err(PayloadTooLarge))
            && (|payload| <= cfg.payloadSize && |payload| <= 0xffff && EntryLen(|payload|) > 512 ==>
                  result == Err(BufferTooSmall))
            && (|payload| <= cfg.payloadSize && |payload| <= 0xffff && EntryLen(|payload|) <= 512
                && st.writeOffset + EntryLen(|payload|) <= |st.flash| ==>
                  result.Err? ==> result.error == Flash(WriteRequiresErase))
            && (|payload| <= cfg.payloadSize && |payload| <= 0xffff && EntryLen(|payload|) <= 512
                && st.writeOffset + EntryLen(|payload|) <= |st.flash| ==>
                  (result.Err? <==>
                     exists i :: 0 <= i < EntryLen(|payload|)
                                 && st.flash[st.writeOffset + i] & RecordBytes(r)[i] != RecordBytes(r)[i]))
  {
    hide RecordBytes, TotalLen, DropToFit, RecordsBytes, EntryLen;
    var r := StoredRecord(st.nextSequence, flags, payload);
    if |payload| <= MAX_PAYLOAD_LEN && st.writeOffset + EntryLen(|payload|) <= |st.flash| {
      WritableByBits(st.flash, st.writeOffset, RecordBytes(r));
    }
  }

  lemma WritableByBits(flash: seq<byte>, offset: nat, bytes: seq<byte>)
    requires offset + |bytes| <= |flash|
    ensures CanWrite(flash, offset, bytes)
       <==> !exists i :: 0 <= i < |bytes| && flash[offset + i] & bytes[i] != bytes[i]
  {
    assert forall i :: 0 <= i < |bytes| ==>
                         (Writable(flash[offset + i], bytes[i]) <==> flash[offset + i] & bytes[i] == bytes[i]);
  }

  /** A failing acknowledgement leaves flash, offset and counter alone. In place it fails exactly when a
      bit would have to be set again, and leaves the queue alone too; a failing compaction has already
      taken the oldest record out of the queue. */
  lemma FailedAcknowledgeKeepsFlash(cfg: Config, st: State)
    requires Valid(cfg, st) && st.queue != []
    ensures st.queue[0].sequence < U64_LIMIT
    ensures var (st', result) := Acknowledge(cfg, st);
            var ack := AckBytes(st.queue[0].sequence);
            var inPlace := st.writeOffset + 16 <= |st.flash|;
            && (result.Err? ==> st' == if inPlace then st else st.(queue := st.queue[1..]))
            && (result.Err? && inPlace ==> result.error == Flash(WriteRequiresErase))
            && (inPlace ==>
                  (result.Err? <==>
                     exists i :: 0 <= i < 16 && st.flash[st.writeOffset + i] & ack[i] != ack[i]))
  {
    hide AckBytes, TotalLen, RecordsBytes, CanWrite, Written, Rewrite;
    FrontSequenceBound(cfg, st);
    RewriteFails(cfg, st.(queue := st.queue[1..]));
    if st.writeOffset + 16 <= |st.flash| {
      WritableByBits(st.flash, st.writeOffset, AckBytes(st.queue[0].sequence));
    }
  }

  lemma RewriteFails(cfg: Config, st: State)
    requires RecordsFit(st.queue, cfg.payloadSize)
    ensures Rewrite(cfg, st, st.queue, st.nextSequence).1.Some? ==> Rewrite(cfg, st, st.queue, st.nextSequence).0 == st
  {
    hide TotalLen, RecordsBytes;
  }
}
