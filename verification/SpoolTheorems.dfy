/** The spool's guarantees in terms of what a caller can see, over every run from a fresh spool. */
module SpoolTheorems {
  import opened Bytes
  import opened SpoolCodec
  import opened SpoolLog
  import opened SpoolSpec
  import opened SpoolRuns
  import opened SpoolGuarantees
  import opened SpoolCrash
  import opened DropOldestQueue

  /** The run's newest write is an acknowledgement in place that starts fewer than 24 bytes before the
      end of flash. */
  predicate Forgets(w: World) {
    w.newest.Some? && |w.st.flash| < w.st.writeOffset - ENCODED_ACK_RECORD_LEN + ENCODED_RECORD_HEADER_LEN
  }

  /** What a reboot brings back: the very queue and offset, or if and only if the newest acknowledgement
      is forgotten, the record it removed in front of them. One corrupt entry is counted if and only if a
      forgotten acknowledgement lies behind the log, from now or from an earlier boot. */
  ghost predicate Recovers(w: World, back: State, corrupt: nat) {
    && back.flash == w.st.flash
    && back.nextSequence == (if w.st.writeOffset == 0 then 0 else w.st.nextSequence)
    && back.queue == (if Forgets(w) then [w.newest.value] + w.st.queue else w.st.queue)
    && back.writeOffset == (if Forgets(w) then w.st.writeOffset - ENCODED_ACK_RECORD_LEN else w.st.writeOffset)
    && corrupt == (if Forgets(w) || w.leftover then 1 else 0)
  }

  lemma ForgetsIsTrailing(cfg: Config, w: World, es: seq<Entry>, tail: bool)
    requires Inv(cfg, w.st, es, tail) && NewestAcknowledged(cfg, w, es, tail)
    ensures Trailing(es, |w.st.flash|) <==> Forgets(w)
  {
    hide Inv, Trailing, LogFits;
    NewestIsLast(cfg, w, es, tail);
    hide NewestAcknowledged;
    if w.newest.Some? {
      AckTrails(cfg, w.st, es[..|es| - 1], w.newest.value.sequence);
    }
  }

  lemma NewestIsLast(cfg: Config, w: World, es: seq<Entry>, tail: bool)
    requires NewestAcknowledged(cfg, w, es, tail)
    ensures LogFits(es, MAX_PAYLOAD_LEN) && (Trailing(es, |w.st.flash|) ==> w.newest.Some?)
    ensures w.newest.Some? ==>
              && !tail && w.newest.value.sequence < U64_LIMIT
              && es != [] && es == es[..|es| - 1] + [Ack(w.newest.value.sequence)]
  {
    hide Trailing, LogFits, RemovedFront;
    if w.newest.Some? {
      assert es == es[..|es| - 1] + [es[|es| - 1]];
    }
  }

  lemma FrontIsNewest(cfg: Config, w: World, es: seq<Entry>, tail: bool, front: StoredRecord)
    requires NewestAcknowledged(cfg, w, es, tail) && Trailing(es, |w.st.flash|)
             && w.st.writeOffset >= ENCODED_ACK_RECORD_LEN
    requires Inv(cfg, Rebooted(w.st, Some(front)), ReadableLog(es, |w.st.flash|), true)
    ensures front == w.newest.value
  {
    hide Replay, LogFits, LogBytes;
    assert ([front] + w.st.queue)[0] == ([w.newest.value] + w.st.queue)[0];
  }

  /** A reboot after any run of appends, acknowledgements and reboots. */
  lemma {:induction false} RebootRecovers(cfg: Config, size: nat, ops: seq<Op>)
    requires Sound(cfg, size) && |ops| < U64_LIMIT - 1
    ensures var w := Run(cfg, size, ops);
            var recovered := Recover(cfg, w.st.flash);
            && recovered.Ok? && Recovers(w, recovered.value.0, recovered.value.1)
            && (NoReboot(ops) ==> recovered.value.1 == if Forgets(w) then 1 else 0)
  {
    var es, tail := RunKeepsInv(cfg, size, ops);
    hide Inv, Run, Recover, NewestAcknowledged, Recovers, Forgets;
    var w := Run(cfg, size, ops);
    RecoversFromInv(cfg, w, es, tail);
    if NoReboot(ops) {
      NothingReappears(cfg, size, ops);
    }
    CorruptOfRecovers(w, Recover(cfg, w.st.flash).value.0, Recover(cfg, w.st.flash).value.1);
  }

  lemma CorruptOfRecovers(w: World, back: State, corrupt: nat)
    requires Recovers(w, back, corrupt)
    ensures corrupt == if Forgets(w) || w.leftover then 1 else 0
  {
  }

  lemma RecoversFromInv(cfg: Config, w: World, es: seq<Entry>, tail: bool)
    requires Sound(cfg, |w.st.flash|) && Inv(cfg, w.st, es, tail) && NewestAcknowledged(cfg, w, es, tail)
    ensures var recovered := Recover(cfg, w.st.flash);
            recovered.Ok? && Recovers(w, recovered.value.0, recovered.value.1)
  {
    hide Inv, Recover, Trailing, LogFits, NewestAcknowledged, ReadableLog;
    LogOfInv(cfg, w.st, es, tail);
    LeftoverIsTail(cfg, w, es, tail);
    ForgetsIsTrailing(cfg, w, es, tail);
    var front := RecoveryReplaysState(cfg, w.st, es, tail);
    if front.Some? {
      FrontIsNewest(cfg, w, es, tail, front.value);
    }
  }

  lemma LeftoverIsTail(cfg: Config, w: World, es: seq<Entry>, tail: bool)
    requires NewestAcknowledged(cfg, w, es, tail)
    ensures tail == w.leftover
  {
    hide Trailing, LogFits, RemovedFront;
  }

  // The server keys a record by its device and its sequence.

  ghost predicate Issues(cfg: Config, st: State, op: Op) {
    Valid(cfg, st) && op.DoAppend? && Append(cfg, st, op.flags, op.payload).1.Ok?
  }

  /** The sequences that the run's successful appends returned, in order. */
  ghost function Issued(cfg: Config, size: nat, ops: seq<Op>): seq<nat> {
    if ops == [] then []
    else
      var front, op := ops[..|ops| - 1], ops[|ops| - 1];
      var st := Run(cfg, size, front).st;
      Issued(cfg, size, front)
      + if Issues(cfg, st, op) then [Append(cfg, st, op.flags, op.payload).1.value.sequence] else []
  }

  /** A reboot met a flash without a single entry although the counter had moved. */
  ghost predicate Restarted(cfg: Config, size: nat, ops: seq<Op>) {
    exists i :: 0 <= i < |ops| && ops[i].Reboot? && Run(cfg, size, ops[..i]).st.writeOffset == 0
                && Run(cfg, size, ops[..i]).st.nextSequence > 0
  }

  ghost predicate RestartedThenIssued(cfg: Config, size: nat, ops: seq<Op>) {
    exists j :: 0 <= j < |ops| && Issues(cfg, Run(cfg, size, ops[..j]).st, ops[j]) && Restarted(cfg, size, ops[..j])
  }

  predicate Distinct(s: seq<nat>) {
    forall i, j :: 0 <= i < j < |s| ==> s[i] != s[j]
  }

  lemma RestartedStep(cfg: Config, size: nat, ops: seq<Op>, op: Op)
    ensures Restarted(cfg, size, ops + [op]) <==>
              || Restarted(cfg, size, ops)
              || (op.Reboot? && Run(cfg, size, ops).st.writeOffset == 0 && Run(cfg, size, ops).st.nextSequence > 0)
  {
    hide Run;
    var all := ops + [op];
    assert all[..|ops|] == ops && all[|ops|] == op;
    assert forall i :: 0 <= i < |ops| ==> all[i] == ops[i] && all[..i] == ops[..i];
  }

  lemma RestartedThenIssuedStep(cfg: Config, size: nat, ops: seq<Op>, op: Op)
    ensures RestartedThenIssued(cfg, size, ops + [op]) <==>
              || RestartedThenIssued(cfg, size, ops)
              || (Issues(cfg, Run(cfg, size, ops).st, op) && Restarted(cfg, size, ops))
  {
    hide Run, Issues, Restarted;
    var all := ops + [op];
    assert all[..|ops|] == ops && all[|ops|] == op;
    assert forall i :: 0 <= i < |ops| ==> all[i] == ops[i] && all[..i] == ops[..i];
  }

  /** What one operation does to the counter. */
  lemma CounterStep(cfg: Config, w: World, es: seq<Entry>, tail: bool, op: Op)
    requires Sound(cfg, |w.st.flash|) && Inv(cfg, w.st, es, tail) && Valid(cfg, w.st)
    requires w.st.nextSequence < U64_LIMIT - 1
    ensures Next(cfg, w, op).st.nextSequence
         == if Issues(cfg, w.st, op) then w.st.nextSequence + 1
            else if op.Reboot? && w.st.writeOffset == 0 then 0 else w.st.nextSequence
    ensures Issues(cfg, w.st, op) ==>
              Append(cfg, w.st, op.flags, op.payload).1.value.sequence == w.st.nextSequence
  {
    hide Inv, Append, Acknowledge, Recover;
    match op {
      case DoAppend(flags, payload) =>
        var _, _ := AppendKeepsInv(cfg, w.st, es, tail, flags, payload);
        var _ := AppendKeepsLongestSuffix(cfg, w.st, es, tail, flags, payload);
      case DoAcknowledge => var _, _ := AcknowledgeKeepsInv(cfg, w.st, es, tail);
      case Reboot => var _ := RecoveryReplaysState(cfg, w.st, es, tail);
    }
  }

  /** The issued sequences count up from 0; a restart sets the counter to 0, and then issuing repeats. */
  predicate InOrder(issued: seq<nat>, next: nat, restarted: bool, repeated: bool) {
    && (repeated ==> restarted && !Distinct(issued))
    && (restarted && !repeated ==> next == 0 && issued != [] && issued[0] == 0 && Distinct(issued))
    && (!restarted ==> |issued| == next && forall i :: 0 <= i < next ==> issued[i] == i)
  }

  lemma InOrderStep(issued: seq<nat>, next: nat, restarted: bool, repeated: bool, issues: bool, empties: bool)
    requires InOrder(issued, next, restarted, repeated) && !(issues && empties)
    ensures InOrder(if issues then issued + [next] else issued,
                    if issues then next + 1 else if empties then 0 else next,
                    restarted || (empties && next > 0),
                    repeated || (issues && restarted))
  {
    var all := issued + [next];
    if repeated {
      var i, j :| 0 <= i < j < |issued| && issued[i] == issued[j];
      assert all[i] == all[j];
    } else if restarted {
      assert all[0] == all[|issued|];
    }
  }

  lemma IssuedStep(cfg: Config, size: nat, ops: seq<Op>, op: Op)
    ensures var w := Run(cfg, size, ops);
            && (Valid(cfg, w.st) ==> Run(cfg, size, ops + [op]) == Next(cfg, w, op))
            && (Issues(cfg, w.st, op) ==> op.DoAppend? && Valid(cfg, w.st))
            && Issued(cfg, size, ops + [op])
               == if Issues(cfg, w.st, op)
                  then Issued(cfg, size, ops) + [Append(cfg, w.st, op.flags, op.payload).1.value.sequence]
                  else Issued(cfg, size, ops)
  {
    hide Next, Valid, Append;
    assert (ops + [op])[..|ops|] == ops && (ops + [op])[|ops|] == op;
  }

  lemma {:induction false} IssuedInOrder(cfg: Config, size: nat, ops: seq<Op>)
    requires Sound(cfg, size) && |ops| < U64_LIMIT - 1
    ensures InOrder(Issued(cfg, size, ops), Run(cfg, size, ops).st.nextSequence,
                    Restarted(cfg, size, ops), RestartedThenIssued(cfg, size, ops))
    decreases |ops|
  {
    hide InOrder;
    if ops == [] {
      NothingIssued(cfg, size);
    } else {
      var front, op := ops[..|ops| - 1], ops[|ops| - 1];
      assert ops == front + [op];
      IssuedInOrder(cfg, size, front);
      hide Inv, NewestAcknowledged, Next, Restarted, RestartedThenIssued, Valid, Append, Run, Issued, Issues, Balance;
      var w := Run(cfg, size, front);
      RestartedStep(cfg, size, front, op);
      RestartedThenIssuedStep(cfg, size, front, op);
      IssuedStep(cfg, size, front, op);
      var es, tail := RunKeepsInv(cfg, size, front);
      CounterStep(cfg, w, es, tail, op);
      InOrderStep(Issued(cfg, size, front), w.st.nextSequence, Restarted(cfg, size, front),
                  RestartedThenIssued(cfg, size, front), Issues(cfg, w.st, op), op.Reboot? && w.st.writeOffset == 0);
    }
  }

  lemma NothingIssued(cfg: Config, size: nat)
    ensures InOrder(Issued(cfg, size, []), Run(cfg, size, []).st.nextSequence,
                    Restarted(cfg, size, []), RestartedThenIssued(cfg, size, []))
  {
  }

  /** Over any run with reboots, no sequence is issued twice if and only if no append succeeds after a
      reboot that met a flash without entries although something had been appended. Without such a
      reboot the sequences are 0, 1, 2 and so on. */
  lemma {:induction false} SequencesUnique(cfg: Config, size: nat, ops: seq<Op>)
    requires Sound(cfg, size) && |ops| < U64_LIMIT - 1
    ensures Distinct(Issued(cfg, size, ops)) <==> !RestartedThenIssued(cfg, size, ops)
    ensures !Restarted(cfg, size, ops) ==>
              var issued := Issued(cfg, size, ops);
              |issued| == Run(cfg, size, ops).st.nextSequence && forall i :: 0 <= i < |issued| ==> issued[i] == i
  {
    hide Run, Issues, Issued, Restarted, RestartedThenIssued;
    IssuedInOrder(cfg, size, ops);
  }

  /** Append, acknowledge, reboot, append: on 32 bytes the acknowledgement leaves erased flash. */
  function Restarting(first: seq<byte>, second: seq<byte>): seq<Op> {
    [DoAppend(1, first), DoAcknowledge, Reboot, DoAppend(1, second)]
  }

  lemma RestartingRun(first: seq<byte>, second: seq<byte>)
    requires |first| <= 2 && |second| <= 2
    ensures var cfg := Config(1, 2, 32);
            var ops := Restarting(first, second);
            var st := Run(cfg, 32, ops[..1]).st;
            && st == Append(cfg, Fresh(32), 1, first).0 && st.queue == [StoredRecord(0, 1, first)]
            && Issues(cfg, Run(cfg, 32, []).st, ops[0])
            && Run(cfg, 32, ops[..2]).st == Acknowledge(cfg, st).0
            && Run(cfg, 32, ops[..2]).st.writeOffset == 0 && Run(cfg, 32, ops[..2]).st.nextSequence == 1
  {
    hide Inv, Append, Acknowledge, Recover;
    var cfg := Config(1, 2, 32);
    var ops := Restarting(first, second);
    var es := AppendedOnce(cfg, 32, first);
    var st := Append(cfg, Fresh(32), 1, first).0;
    var es', tail' := AcknowledgeKeepsInv(cfg, st, es, false);
    assert es' == [];
    EmptyLogOffset(cfg, Acknowledge(cfg, st).0, es', tail');
    assert ops[..1][..0] == [] && ops[..2][..1] == ops[..1];
    assert Run(cfg, 32, []).st == Fresh(32);
  }

  lemma NothingRun(cfg: Config, size: nat)
    ensures Issued(cfg, size, []) == [] && Run(cfg, size, []).st.nextSequence == 0
  {
  }

  /** It happens: after the reboot the second record gets the sequence of the first. */
  lemma {:induction false} SequenceIssuedTwice(first: seq<byte>, second: seq<byte>)
    requires |first| <= 2 && |second| <= 2
    ensures var cfg := Config(1, 2, 32);
            var ops := Restarting(first, second);
            && RestartedThenIssued(cfg, 32, ops) && Issued(cfg, 32, ops) == [0, 0]
            && Issues(cfg, Run(cfg, 32, ops[..3]).st, ops[3]) && Run(cfg, 32, ops[..3]).st.nextSequence == 0
  {
    hide Inv, NewestAcknowledged, Run, Append, Acknowledge, Recover, Issued, Restarted, RestartedThenIssued;
    hide Distinct, InOrder;
    var cfg := Config(1, 2, 32);
    var ops := Restarting(first, second);
    RestartingRun(first, second);
    RestartedStep(cfg, 32, ops[..2], Reboot);
    assert ops[..3] == ops[..2] + [Reboot];
    OperationsSucceed(cfg, 32, ops[..3], 1, second);
    assert EntryLen(|second|) == 24;
    var es, tail := RunKeepsInv(cfg, 32, ops[..2]);
    CounterStep(cfg, Run(cfg, 32, ops[..2]), es, tail, Reboot);
    IssuedStep(cfg, 32, ops[..2], Reboot);
    RestartedThenIssuedStep(cfg, 32, ops[..3], ops[3]);
    assert ops == ops[..3] + [ops[3]];
    es, tail := RunKeepsInv(cfg, 32, ops[..3]);
    CounterStep(cfg, Run(cfg, 32, ops[..3]), es, tail, ops[3]);
    IssuedStep(cfg, 32, ops[..3], ops[3]);
    IssuedStep(cfg, 32, ops[..1], DoAcknowledge);
    assert ops[..2] == ops[..1] + [DoAcknowledge];
    IssuedStep(cfg, 32, [], ops[0]);
    assert ops[..1] == [] + [ops[0]];
    es, tail := RunKeepsInv(cfg, 32, []);
    CounterStep(cfg, Run(cfg, 32, []), es, tail, ops[0]);
    NothingRun(cfg, 32);
  }

  /** After any run, no acknowledgement fails and no append fails whose payload and entry fit; every
      offset is a multiple of four, and the pending entries fit in front of the write offset. */
  lemma {:induction false} OperationsSucceed(cfg: Config, size: nat, ops: seq<Op>, flags: byte, payload: seq<byte>)
    requires Sound(cfg, size) && |ops| < U64_LIMIT - 1
    ensures var st := Run(cfg, size, ops).st;
            && Valid(cfg, st)
            && Acknowledge(cfg, st).1 == Ok(if st.queue == [] then None else Some(st.queue[0]))
            && (Append(cfg, st, flags, payload).1.Ok? <==> |payload| <= cfg.payloadSize && EntryLen(|payload|) <= size)
            && st.writeOffset % FLASH_WRITE_ALIGNMENT == 0
            && TotalLen(st.queue) <= st.writeOffset <= size
  {
    var es, tail := RunKeepsInv(cfg, size, ops);
    var st := Run(cfg, size, ops).st;
    OffsetWithinFlash(cfg, st, es, tail);
    InvFacts(cfg, st, es, tail);
    hide Inv, NewestAcknowledged, Run, Acknowledge, Append, TotalLen;
    var _, _ := AcknowledgeKeepsInv(cfg, st, es, tail);
    var _, _ := AppendKeepsInv(cfg, st, es, tail, flags, payload);
  }

  /** Power loss after any byte prefix of an in-place acknowledgement, in any reachable state: a reboot
      finds the queue from before or after it. It finds the sequence counter if and only if at most four
      or all 14 bytes got there or they lie too close to the end; otherwise the counter is 0 or huge. */
  lemma {:induction false} PowerLossWhileAcknowledging(cfg: Config, size: nat, ops: seq<Op>, k: nat)
    requires Sound(cfg, size) && |ops| <= U64_LIMIT / 2 && k <= ENCODED_ACK_RECORD_LEN
    requires var st := Run(cfg, size, ops).st;
             st.queue != [] && st.writeOffset + ENCODED_ACK_RECORD_LEN <= size
    ensures var st := Run(cfg, size, ops).st;
            && st.queue[0].sequence < U64_LIMIT && |st.flash| == size
            && var recovered := Recover(cfg, Torn(st.flash, st.writeOffset, AckBytes(st.queue[0].sequence), k));
               && recovered.Ok?
               && AfterTornAck(st, k, st.writeOffset + ENCODED_RECORD_HEADER_LEN <= size, recovered.value.0)
               && recovered.value.1
                  == (if Run(cfg, size, ops).leftover then 1
                      else if k == 0 || (k >= 5 && st.writeOffset + ENCODED_RECORD_HEADER_LEN <= size) then 0
                      else 1)
  {
    var es, tail := RunKeepsInv(cfg, size, ops);
    hide Inv, NewestAcknowledged, Run, Recover, Torn, AckBytes, AfterTornAck;
    LeftoverIsTail(cfg, Run(cfg, size, ops), es, tail);
    TornAcknowledge(cfg, Run(cfg, size, ops).st, es, tail, k);
  }

  /** Reached in two steps: a record is pending, five bytes of its acknowledgement reach the flash, and
      the next boot would give its sequence to another record. */
  lemma {:induction false} CounterLost()
    ensures var cfg := Config(1, 0, 64);
            var st := Append(cfg, Fresh(64), 1, []).0;
            && st.queue == [StoredRecord(0, 1, [])] && st.nextSequence == 1 && st.writeOffset == 24
            && |st.flash| == 64
            && var recovered := Recover(cfg, Torn(st.flash, 24, AckBytes(0), 5));
               && recovered.Ok?
               && recovered.value.0.queue == st.queue && recovered.value.0.nextSequence == 0
  {
    hide Inv, Append, Recover, Torn, AckBytes;
    var cfg := Config(1, 0, 64);
    var es := AppendedOnce(cfg, 64, []);
    var st := Append(cfg, Fresh(64), 1, []).0;
    TornAcknowledge(cfg, st, es, false, 5);
  }

  /** Power loss after any byte prefix of an in-place append, in any reachable state: a reboot finds queue
      and counter from before, or the record now on flash appended and its sequence counted, exactly when
      its payload matches its CRC field. */
  lemma {:induction false} PowerLossWhileAppending(cfg: Config, size: nat, ops: seq<Op>, flags: byte,
                                                   payload: seq<byte>, k: nat)
    requires Sound(cfg, size) && |ops| < U64_LIMIT - 1
    requires |payload| <= cfg.payloadSize && k <= EntryLen(|payload|)
    requires Run(cfg, size, ops).st.writeOffset + EntryLen(|payload|) <= size
    ensures var st := Run(cfg, size, ops).st;
            var r := StoredRecord(st.nextSequence, flags, payload);
            && RecordFits(r, cfg.payloadSize) && Encodable(r) && |st.flash| == size && |st.queue| <= cfg.capacity
            && var recovered := Recover(cfg, Torn(st.flash, st.writeOffset, RecordBytes(r), k));
               && recovered.Ok?
               && recovered.value.0.queue
                  == (if TornRecordReadable(r, k) then PushBounded(st.queue, TornRecord(r, k), cfg.capacity)
                    else st.queue)
               && recovered.value.0.nextSequence
                  == (if TornRecordReadable(r, k) then st.nextSequence + 1
                      else if st.writeOffset == 0 then 0 else st.nextSequence)
               && recovered.value.0.writeOffset
                  == st.writeOffset
                     + (if TornRecordReadable(r, k) then EntryLen(|payload|) else if 1 <= k < 4 then 4 else 0)
               && recovered.value.1 == (if k == 0 || TornRecordReadable(r, k) then 0 else 1)
  {
    hide Inv, NewestAcknowledged, Run, Recover, Torn, RecordBytes, TornRecordReadable, TornRecord, PushBounded;
    hide RecordsFit, RecordFits, EntryLen;
    var es, tail := RunKeepsInv(cfg, size, ops);
    var st := Run(cfg, size, ops).st;
    var r := StoredRecord(st.nextSequence, flags, payload);
    AcceptedRecordFits(cfg, r);
    FitIsEncodable(r, cfg.payloadSize);
    TornAppend(cfg, st, es, tail, r, k);
  }

  /** For four-byte payloads an interrupted append always can replace the record by another: with the
      length field and nothing behind it on flash, four ones are recovered in place of the payload. */
  lemma {:induction false} PayloadReplaced(cfg: Config, size: nat, ops: seq<Op>, flags: byte, payload: seq<byte>)
    requires Sound(cfg, size) && |ops| < U64_LIMIT - 1
    requires |payload| == 4 <= cfg.payloadSize
    requires Run(cfg, size, ops).st.writeOffset + EntryLen(4) <= size
    ensures var st := Run(cfg, size, ops).st;
            var r := StoredRecord(st.nextSequence, flags, payload);
            && Encodable(r) && |st.flash| == size && |st.queue| <= cfg.capacity
            && var recovered := Recover(cfg, Torn(st.flash, st.writeOffset, RecordBytes(r), 18));
               && recovered.Ok?
               && recovered.value.0.queue == PushBounded(st.queue, r.(payload := FOUR_ONES), cfg.capacity)
               && recovered.value.0.nextSequence == st.nextSequence + 1
  {
    hide Run, Recover, Torn, RecordBytes, TornRecordReadable, TornRecord, PushBounded;
    PowerLossWhileAppending(cfg, size, ops, flags, payload, 18);
    FourBytesReadAsOnes(StoredRecord(Run(cfg, size, ops).st.nextSequence, flags, payload));
  }

  /** Reached in one step from a fresh spool: four zeros were appended, four ones come back. */
  lemma PayloadReplacedOnce()
    ensures var cfg := Config(1, 4, 64);
            var r := StoredRecord(0, 1, [0, 0, 0, 0]);
            var recovered := Recover(cfg, Torn(Erased(64), 0, RecordBytes(r), 18));
            recovered.Ok? && recovered.value.0.queue == [StoredRecord(0, 1, FOUR_ONES)]
  {
    hide Recover, Torn, RecordBytes, Append, Acknowledge;
    PayloadReplaced(Config(1, 4, 64), 64, [], 1, [0, 0, 0, 0]);
  }

  lemma FitIsEncodable(r: StoredRecord, payloadSize: nat)
    requires RecordFits(r, payloadSize)
    ensures Encodable(r)
  {
    hide EntryLen;
  }
}
