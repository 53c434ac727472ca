/** The storage steps of the delivery protocol are what the flash-backed backlog really does. */
module DeliveryRefinement {
  import opened Bytes
  import opened SpoolCodec
  import opened SpoolLog
  import opened Backlog
  import SpoolRuns
  import SpoolGuarantees
  import SpoolCrash
  import RecordTransfer
  import S = SpoolSpec
  import D = Delivery

  /** The pending records as a peek shows them. */
  function Seen(queue: seq<StoredRecord>, firstSequence: nat): (r: seq<StoredPayload>)
    ensures |r| == |queue| && forall i :: 0 <= i < |queue| ==> r[i] == FromRecord(queue[i], firstSequence)
  {
    seq(|queue|, i requires 0 <= i < |queue| => FromRecord(queue[i], firstSequence))
  }

  ghost predicate Represents(d: D.State, st: S.State, firstSequence: nat) {
    d.available && d.queue == Seen(st.queue, firstSequence) && d.nextSequence == st.nextSequence
  }

  lemma SeenSuffix(queue: seq<StoredRecord>, from: nat, firstSequence: nat)
    requires from <= |queue|
    ensures Seen(queue[from..], firstSequence) == Seen(queue, firstSequence)[from..]
  {
  }

  lemma SeenAppend(queue: seq<StoredRecord>, r: StoredRecord, firstSequence: nat)
    ensures Seen(queue + [r], firstSequence) == Seen(queue, firstSequence) + [FromRecord(r, firstSequence)]
  {
  }

  // What the spool does for a command.

  ghost function OutcomeOf(cfg: S.Config, st: S.State, firstSequence: nat, command: D.Command): D.Outcome
    requires S.Valid(cfg, st)
  {
    if command.Request? then D.Succeeds(0, false)
    else
      match S.Append(cfg, st, PAYLOAD_FLAG_JSON_FIELDS, command.payload).1
      case Ok(result) => D.Succeeds(result.droppedCount, IsFromCurrentBoot(st.nextSequence, firstSequence))
      case Err(_) => D.Fails(false)
  }

  ghost function SpoolAfter(cfg: S.Config, st: S.State, command: D.Command): S.State
    requires S.Valid(cfg, st)
  {
    match command
    case Append(payload) => S.Append(cfg, st, PAYLOAD_FLAG_JSON_FIELDS, payload).0
    case Request(_, _, Peek) => st
    case Request(_, _, AckOf(sequence)) =>
      if st.queue != [] && st.queue[0].sequence == sequence then S.Acknowledge(cfg, st).0 else st
  }

  /** Every append of the spool, compacting or failing, is one of the protocol's append steps. */
  lemma {:induction false} AppendIsAStep(cfg: S.Config, st: S.State, es: seq<Entry>, tail: bool, firstSequence: nat,
                                         d: D.State, payload: seq<byte>)
    requires SpoolRuns.Sound(cfg, |st.flash|) && SpoolRuns.Inv(cfg, st, es, tail) && S.Valid(cfg, st)
    requires st.nextSequence < U64_LIMIT - 1 && Represents(d, st, firstSequence)
    ensures var (st', r) := S.Append(cfg, st, PAYLOAD_FLAG_JSON_FIELDS, payload);
            var outcome := OutcomeOf(cfg, st, firstSequence, D.Append(payload));
            && Represents(D.StorageAppend(d, payload, outcome), st', firstSequence)
            && (outcome.Succeeds? <==> r.Ok?)
            && (r.Ok? ==> outcome.dropped == r.value.droppedCount)
  {
    hide SpoolRuns.Inv, S.Append, S.IsLongestFittingSuffix, FromRecord;
    var (st', r) := S.Append(cfg, st, PAYLOAD_FLAG_JSON_FIELDS, payload);
    var es', tail' := SpoolRuns.AppendKeepsInv(cfg, st, es, tail, PAYLOAD_FLAG_JSON_FIELDS, payload);
    var from := SpoolGuarantees.AppendKeepsLongestSuffix(cfg, st, es, tail, PAYLOAD_FLAG_JSON_FIELDS, payload);
    if r.Ok? {
      var record := StoredRecord(st.nextSequence, PAYLOAD_FLAG_JSON_FIELDS, payload);
      var outcome := D.Succeeds(from, IsFromCurrentBoot(st.nextSequence, firstSequence));
      FromBound(cfg, st, record, from, st'.queue);
      SeenAppend(st.queue, record, firstSequence);
      SeenSuffix(st.queue + [record], from, firstSequence);
      AsSeen(d, st, record, payload, outcome, firstSequence);
    }
  }

  lemma FromBound(cfg: S.Config, st: S.State, record: StoredRecord, from: nat, queue: seq<StoredRecord>)
    requires S.IsLongestFittingSuffix(st.queue + [record], from, cfg.capacity, |st.flash|)
    ensures from <= |st.queue| + 1
  {
  }

  lemma AsSeen(d: D.State, st: S.State, record: StoredRecord, payload: seq<byte>, outcome: D.Outcome,
               firstSequence: nat)
    requires Represents(d, st, firstSequence) && outcome.Succeeds?
    requires record == StoredRecord(st.nextSequence, PAYLOAD_FLAG_JSON_FIELDS, payload)
    requires outcome.currentBoot == IsFromCurrentBoot(st.nextSequence, firstSequence)
    ensures D.AppendedRecord(d, payload, outcome) == FromRecord(record, firstSequence)
  {
  }

  /** Every acknowledgement by sequence does to the queue what the protocol's step does, and never fails. */
  lemma {:induction false} AcknowledgeIsAStep(cfg: S.Config, st: S.State, es: seq<Entry>, tail: bool,
                                              firstSequence: nat, d: D.State, sequence: nat)
    requires SpoolRuns.Sound(cfg, |st.flash|) && SpoolRuns.Inv(cfg, st, es, tail) && S.Valid(cfg, st)
    requires Represents(d, st, firstSequence)
    ensures var named := st.queue != [] && st.queue[0].sequence == sequence;
            var (st', r) := if named then S.Acknowledge(cfg, st) else (st, Ok(None));
            var (queue, answer) := D.AckQueue(d, sequence, D.Succeeds(0, false));
            && Represents(d.(queue := queue), st', firstSequence)
            && r.Ok? && answer == D.Acked(r.value.Some?)
  {
    hide SpoolRuns.Inv, S.Acknowledge, FromRecord;
    var es', tail' := SpoolRuns.AcknowledgeKeepsInv(cfg, st, es, tail);
    if st.queue != [] {
      SequenceSeen(st.queue[0], firstSequence);
      SeenSuffix(st.queue, 1, firstSequence);
    }
  }

  lemma SequenceSeen(r: StoredRecord, firstSequence: nat)
    ensures FromRecord(r, firstSequence).sequence == r.sequence
  {
  }

  /** The protocol's state when the tasks start on a recovered backlog. */
  ghost function Booted(b: Boot, history: map<nat, StoredPayload>, device: RecordTransfer.Device): D.State {
    D.State([], None, None, None, true, Seen(b.st.queue, b.firstSequence), b.st.nextSequence,
            D.WifiIdle, D.BleIdle, false, device, 0, history, [], {}, {}, {})
  }

  /** Different pending records carry different sequences, all below the next one. */
  predicate Numbered(queue: seq<StoredPayload>, next: nat) {
    && next < U64_LIMIT
    && (forall i :: 0 <= i < |queue| ==> queue[i].sequence < next)
    && (forall i, j :: 0 <= i < |queue| && 0 <= j < |queue| && queue[i].sequence == queue[j].sequence ==>
          queue[i] == queue[j])
  }

  /** The records of a queue by their sequences. */
  lemma {:induction false} HistoryOf(queue: seq<StoredPayload>, next: nat) returns (history: map<nat, StoredPayload>)
    requires Numbered(queue, next)
    ensures forall p :: p in queue ==> D.Known(history, p)
    ensures forall k :: k in history ==> history[k] in queue && history[k].sequence == k
  {
    history := map[];
    if queue != [] {
      var front, last := queue[..|queue| - 1], queue[|queue| - 1];
      var before := HistoryOf(front, next);
      history := before[last.sequence := last];
      assert queue == front + [last];
      forall p | p in queue
        ensures D.Known(history, p)
      {
        var i :| 0 <= i < |queue| && queue[i] == p;
        if i < |front| {
          assert front[i] == p && queue[|queue| - 1] == last;
        }
      }
    }
  }

  lemma InitIsNumbered(d: D.State)
    requires D.Init(d)
    ensures Numbered(d.queue, d.nextSequence)
  {
    forall i | 0 <= i < |d.queue|
      ensures d.queue[i].sequence < d.nextSequence && D.Known(d.history, d.queue[i])
    {
      assert D.Known(d.history, d.queue[i]);
    }
  }

  /** A boot on any flash whatever starts the protocol if and only if every pending sequence is below
      the recovered counter and names one record. */
  lemma {:induction false} BootStartsProtocolExactly(b: Boot, device: RecordTransfer.Device)
    requires device.state.Idle? && device.payload.None?
    ensures (exists history :: D.Init(Booted(b, history, device)))
        <==> Numbered(Seen(b.st.queue, b.firstSequence), b.st.nextSequence)
  {
    hide Seen, Numbered;
    var queue, next := Seen(b.st.queue, b.firstSequence), b.st.nextSequence;
    if Numbered(queue, next) {
      var history := HistoryOf(queue, next);
      NumberedBelow(queue, next, history);
      assert D.Init(Booted(b, history, device));
    }
    forall history | D.Init(Booted(b, history, device))
      ensures Numbered(queue, next)
    {
      InitIsNumbered(Booted(b, history, device));
    }
  }

  lemma NumberedBelow(queue: seq<StoredPayload>, next: nat, history: map<nat, StoredPayload>)
    requires Numbered(queue, next)
    requires forall k :: k in history ==> history[k] in queue && history[k].sequence == k
    ensures next < U64_LIMIT && forall k :: k in history ==> k < next
  {
  }

  /** A boot on the flash that any run of a spool left behind starts the protocol: the recovered backlog
      is the queue of one of its initial states. */
  lemma {:induction false} BootStartsProtocol(cfg: S.Config, st: S.State, es: seq<Entry>, tail: bool,
                                              device: RecordTransfer.Device)
    returns (b: Boot, d: D.State, es': seq<Entry>, tail': bool)
    requires SpoolRuns.Sound(cfg, |st.flash|) && SpoolRuns.Inv(cfg, st, es, tail)
    requires device.state.Idle? && device.payload.None?
    ensures var recovered := S.Recover(cfg, st.flash);
            && recovered.Ok? && S.Valid(cfg, recovered.value.0)
            && b.st == DiscardFront(cfg, recovered.value.0).0
            && b.firstSequence == recovered.value.0.nextSequence
    ensures D.Init(d) && d.device == device
    ensures Joined(cfg, System(d, b.st), b.firstSequence, es', tail')
  {
    hide SpoolRuns.Inv, S.Recover, DiscardFront, D.Init;
    b, es', tail' := BootStarts(cfg, st, es, tail);
    BootSequences(cfg, b, es', tail');
    hide S.Valid, BootInv;
    SeenNumbered(b.st, b.firstSequence);
    BootStartsProtocolExactly(b, device);
    var history :| D.Init(Booted(b, history, device));
    d := Booted(b, history, device);
  }

  lemma SeenNumbered(st: S.State, firstSequence: nat)
    requires st.nextSequence < U64_LIMIT
    requires forall i :: 0 <= i < |st.queue| ==> st.queue[i].sequence < st.nextSequence
    requires forall i, j :: 0 <= i < j < |st.queue| ==> st.queue[i].sequence < st.queue[j].sequence
    ensures Numbered(Seen(st.queue, firstSequence), st.nextSequence)
  {
    hide FromRecord;
    forall i | 0 <= i < |st.queue|
      ensures Seen(st.queue, firstSequence)[i].sequence == st.queue[i].sequence
    {
      SequenceSeen(st.queue[i], firstSequence);
    }
  }

  lemma BootSequences(cfg: S.Config, b: Boot, es: seq<Entry>, tail: bool)
    requires cfg.capacity > 0 && BootInv(cfg, b, es, tail)
    ensures SpoolRuns.Inv(cfg, b.st, es, tail) && S.Valid(cfg, b.st) && b.st.nextSequence < U64_LIMIT
    ensures forall i :: 0 <= i < |b.st.queue| ==> b.st.queue[i].sequence < b.st.nextSequence
    ensures forall i, j :: 0 <= i < j < |b.st.queue| ==> b.st.queue[i].sequence < b.st.queue[j].sequence
  {
    SpoolRuns.InvFacts(cfg, b.st, es, tail);
  }

  // The protocol running on the spool itself.

  datatype System = System(d: D.State, st: S.State)

  /** The step, with what the spool does in place of an outcome chosen freely. */
  ghost function Actual(cfg: S.Config, sys: System, firstSequence: nat, step: D.Step): D.Step
    requires S.Valid(cfg, sys.st) && D.Enabled(sys.d, step)
  {
    if step.StorageReceive? then D.StorageReceive(OutcomeOf(cfg, sys.st, firstSequence, sys.d.channel[0])) else step
  }

  ghost function SystemNext(cfg: S.Config, sys: System, firstSequence: nat, step: D.Step): System
    requires S.Valid(cfg, sys.st) && D.Enabled(sys.d, step)
  {
    System(D.Next(sys.d, Actual(cfg, sys, firstSequence, step)),
           if step.StorageReceive? then SpoolAfter(cfg, sys.st, sys.d.channel[0]) else sys.st)
  }

  /** (Every state on a run is valid: `SystemFollows`.) */
  ghost function SystemRun(cfg: S.Config, sys: System, firstSequence: nat, steps: seq<D.Step>): System {
    if steps == [] then sys
    else
      var before := SystemRun(cfg, sys, firstSequence, steps[..|steps| - 1]);
      var step := steps[|steps| - 1];
      if S.Valid(cfg, before.st) && D.Enabled(before.d, step) then SystemNext(cfg, before, firstSequence, step)
      else before
  }

  /** The spool's state is the replay of its flash, and the protocol sees exactly its pending records. */
  ghost predicate Joined(cfg: S.Config, sys: System, firstSequence: nat, es: seq<Entry>, tail: bool) {
    && SpoolRuns.Sound(cfg, |sys.st.flash|) && SpoolRuns.Inv(cfg, sys.st, es, tail) && S.Valid(cfg, sys.st)
    && Represents(sys.d, sys.st, firstSequence)
  }

  lemma StorageJoined(cfg: S.Config, sys: System, firstSequence: nat, es: seq<Entry>, tail: bool, step: D.Step)
    returns (es': seq<Entry>, tail': bool)
    requires Joined(cfg, sys, firstSequence, es, tail) && D.Enabled(sys.d, step) && step.StorageReceive?
    ensures Joined(cfg, SystemNext(cfg, sys, firstSequence, step), firstSequence, es', tail')
  {
    hide SpoolRuns.Inv, S.Append, S.Acknowledge, S.Valid, D.AckQueue, D.StorageAppend, Seen, OutcomeOf;
    var st := sys.st;
    var d' := D.Next(sys.d, Actual(cfg, sys, firstSequence, step));
    es', tail' := es, tail;
    match sys.d.channel[0] {
      case Append(payload) =>
        AppendIsAStep(cfg, st, es, tail, firstSequence, sys.d, payload);
        AppendIgnoresChannel(sys.d, payload, OutcomeOf(cfg, st, firstSequence, D.Append(payload)));
        es', tail' := SpoolRuns.AppendKeepsInv(cfg, st, es, tail, PAYLOAD_FLAG_JSON_FIELDS, payload);
        SpoolRuns.InvFacts(cfg, S.Append(cfg, st, PAYLOAD_FLAG_JSON_FIELDS, payload).0, es', tail');
      case Request(_, _, Peek) =>
      case Request(_, _, AckOf(sequence)) =>
        AcknowledgeIsAStep(cfg, st, es, tail, firstSequence, sys.d, sequence);
        RequestOutcome(cfg, st, firstSequence, sys.d.channel[0]);
        if st.queue != [] && st.queue[0].sequence == sequence {
          es', tail' := SpoolRuns.AcknowledgeKeepsInv(cfg, st, es, tail);
          SpoolRuns.InvFacts(cfg, S.Acknowledge(cfg, st).0, es', tail');
        }
    }
  }

  /** Storage answers a peek with the oldest record in the spool, or with none if and only if the spool is
      empty. */
  lemma PeekIsAnswered(cfg: S.Config, sys: System, firstSequence: nat, es: seq<Entry>, tail: bool, step: D.Step)
    requires Joined(cfg, sys, firstSequence, es, tail) && D.Enabled(sys.d, step) && step.StorageReceive?
    requires sys.d.channel[0].Request? && sys.d.channel[0].ask == D.Peek
    ensures var head := sys.d.channel[0];
            var busy := SystemNext(cfg, sys, firstSequence, step).d.busy;
            && busy.Some? && busy.value.0 == head.client && busy.value.1.ticket == head.ticket
            && if sys.st.queue == [] then busy.value.1.answer == D.Peeked(None)
               else
                 var r := sys.st.queue[0];
                 busy.value.1.answer
                 == D.Peeked(Some(StoredPayload(r.sequence, r.payload, r.flags,
                                                IsFromCurrentBoot(r.sequence, firstSequence))))
  {
    hide SpoolRuns.Inv, S.Valid, S.Append, OutcomeOf;
  }

  lemma RequestOutcome(cfg: S.Config, st: S.State, firstSequence: nat, command: D.Command)
    requires S.Valid(cfg, st) && command.Request?
    ensures OutcomeOf(cfg, st, firstSequence, command) == D.Succeeds(0, false)
  {
  }

  lemma AppendIgnoresChannel(d: D.State, payload: seq<byte>, outcome: D.Outcome)
    requires d.channel != []
    ensures var d1 := D.StorageAppend(d.(channel := d.channel[1..]), payload, outcome);
            var d2 := D.StorageAppend(d, payload, outcome);
            d1.queue == d2.queue && d1.nextSequence == d2.nextSequence && d1.available == d2.available
  {
  }

  lemma OthersKeepQueue(d: D.State, step: D.Step)
    requires D.Enabled(d, step) && !step.StorageReceive?
    ensures var d' := D.Next(d, step);
            d'.queue == d.queue && d'.nextSequence == d.nextSequence && d'.available == d.available
  {
    hide RecordTransfer.StartMetadata, RecordTransfer.StartMetadataOn, RecordTransfer.PrepareFragment;
    hide RecordTransfer.CompleteOn, RecordTransfer.AckOn;
    hide D.PeekResult, D.ServedAtStart;
  }

  /** However the tasks interleave on a spool, the protocol takes one of its own runs, the spool keeps
      its invariant, and the protocol's queue is what is pending in the spool. */
  lemma {:induction false} SystemFollows(cfg: S.Config, sys: System, firstSequence: nat, es: seq<Entry>, tail: bool,
                                         steps: seq<D.Step>)
    returns (es': seq<Entry>, tail': bool, taken: seq<D.Step>)
    requires Joined(cfg, sys, firstSequence, es, tail)
    ensures var sys' := SystemRun(cfg, sys, firstSequence, steps);
            sys'.d == D.Run(sys.d, taken) && Joined(cfg, sys', firstSequence, es', tail')
    decreases |steps|
  {
    if steps == [] {
      return es, tail, [];
    }
    hide SpoolRuns.Inv, S.Valid, D.Next, Seen;
    var step := steps[|steps| - 1];
    es', tail', taken := SystemFollows(cfg, sys, firstSequence, es, tail, steps[..|steps| - 1]);
    var before := SystemRun(cfg, sys, firstSequence, steps[..|steps| - 1]);
    if D.Enabled(before.d, step) {
      var actual := Actual(cfg, before, firstSequence, step);
      assert (taken + [actual])[..|taken|] == taken;
      taken := taken + [actual];
      if step.StorageReceive? {
        es', tail' := StorageJoined(cfg, before, firstSequence, es', tail', step);
      } else {
        OthersKeepQueue(before.d, step);
      }
    }
  }

  /** From boot on, whatever the tasks, the network and the central do, every record that was pending at
      boot or appended since is still pending in the spool, or was posted with a 2xx, or was completed
      by a central, or was overwritten by newer ones. */
  lemma {:induction false} SpoolLosesNothing(cfg: S.Config, sys: System, firstSequence: nat, es: seq<Entry>,
                                             tail: bool, steps: seq<D.Step>)
    requires Joined(cfg, sys, firstSequence, es, tail) && D.Init(sys.d)
    ensures var sys' := SystemRun(cfg, sys, firstSequence, steps);
            forall k :: k in sys'.d.history ==>
              var p := sys'.d.history[k];
              p in Seen(sys'.st.queue, firstSequence) || p in sys'.d.posted || p in sys'.d.served
                || p in sys'.d.overwritten
  {
    hide SpoolRuns.Inv, S.Valid, D.Init, D.Run, SystemRun, Seen;
    var es', tail', taken := SystemFollows(cfg, sys, firstSequence, es, tail, steps);
    var sys' := SystemRun(cfg, sys, firstSequence, steps);
    forall k | k in sys'.d.history
      ensures var p := sys'.d.history[k];
              p in Seen(sys'.st.queue, firstSequence) || p in sys'.d.posted || p in sys'.d.served
                || p in sys'.d.overwritten
    {
      D.NoRecordIsLost(sys.d, taken, k);
    }
  }

  /** And a request makes at most the oldest record leave the spool: one that was posted with a 2xx, or
      handed out to its last byte in the session that completed it. */
  lemma {:induction false} OnlyDeliveredLeaveTheSpool(cfg: S.Config, sys: System, firstSequence: nat, es: seq<Entry>,
                                                      tail: bool, steps: seq<D.Step>)
    requires Joined(cfg, sys, firstSequence, es, tail) && D.Init(sys.d)
    requires var d := SystemRun(cfg, sys, firstSequence, steps).d;
             D.Enabled(d, D.StorageReceive(D.Succeeds(0, false))) && d.channel[0].Request?
    ensures var (d, st) := (SystemRun(cfg, sys, firstSequence, steps).d, SystemRun(cfg, sys, firstSequence, steps).st);
            && S.Valid(cfg, st)
            && var st' := SpoolAfter(cfg, st, d.channel[0]);
            st'.queue != st.queue ==>
              && st.queue != [] && st'.queue == st.queue[1..]
              && var p := FromRecord(st.queue[0], firstSequence);
                 && (d.channel[0].client == D.Wifi ==> p in d.posted)
                 && (d.channel[0].client == D.Ble ==>
                      && d.device.state.Active? && d.device.state.sequence == p.sequence && d.device.state.complete
                      && D.AllHandedOut(d.handed, p, |p.payload|))
  {
    hide SpoolRuns.Inv, S.Valid, D.Init, D.Run, SystemRun, S.Acknowledge, D.AllHandedOut, D.Next;
    var es', tail', taken := SystemFollows(cfg, sys, firstSequence, es, tail, steps);
    var (d, st) := (SystemRun(cfg, sys, firstSequence, steps).d, SystemRun(cfg, sys, firstSequence, steps).st);
    if SpoolAfter(cfg, st, d.channel[0]).queue != st.queue {
      var _, _ := SpoolRuns.AcknowledgeKeepsInv(cfg, st, es', tail');
      SequenceSeen(st.queue[0], firstSequence);
      RequestPops(d, d.channel[0].ask.sequence);
      D.OnlyDeliveredRecordsLeave(sys.d, taken, D.Succeeds(0, false));
    }
  }

  lemma RequestPops(d: D.State, sequence: nat)
    requires D.Enabled(d, D.StorageReceive(D.Succeeds(0, false))) && d.channel[0].Request?
    requires d.channel[0].ask == D.AckOf(sequence)
    requires d.available && d.queue != [] && d.queue[0].sequence == sequence
    ensures D.Next(d, D.StorageReceive(D.Succeeds(0, false))).queue != d.queue
  {
    assert |d.queue[1..]| < |d.queue|;
  }

  // Without it a late acknowledgement can remove a record it does not mean.

  /** After a torn acknowledgement the condition fails exactly when the counter comes back as 0. */
  lemma {:induction false} TornAckNumbered(cfg: S.Config, st: S.State, es: seq<Entry>, tail: bool, k: nat)
    requires SpoolRuns.Sound(cfg, |st.flash|) && SpoolRuns.Inv(cfg, st, es, tail)
    requires st.queue != [] && st.nextSequence <= U64_LIMIT / 2
    requires st.writeOffset + ENCODED_ACK_RECORD_LEN <= |st.flash| && k <= ENCODED_ACK_RECORD_LEN
    ensures st.queue[0].sequence < U64_LIMIT
    ensures var torn := SpoolCrash.Torn(st.flash, st.writeOffset, AckBytes(st.queue[0].sequence), k);
            var recovered := S.Recover(cfg, torn);
            && recovered.Ok?
            && (Numbered(Seen(recovered.value.0.queue, recovered.value.0.nextSequence), recovered.value.0.nextSequence)
                <==> recovered.value.0.nextSequence != 0)
  {
    hide SpoolRuns.Inv, S.Recover, SpoolCrash.Torn, AckBytes, SpoolCrash.TornSequence, FromRecord;
    SpoolCrash.TornAcknowledge(cfg, st, es, tail, k);
    var back := S.Recover(cfg, SpoolCrash.Torn(st.flash, st.writeOffset, AckBytes(st.queue[0].sequence), k)).value.0;
    SpoolRuns.InvFacts(cfg, st, es, tail);
    SpoolCrash.CounterFits(cfg, st, es, tail);
    hide S.Valid;
    if back.nextSequence == 0 {
      SequenceSeen(back.queue[0], 0);
      assert Seen(back.queue, 0)[0].sequence >= 0;
    } else {
      SeenNumbered(back, back.nextSequence);
    }
  }

  /** The record of an interrupted boot, pending under sequence 0 while the counter is 0. */
  function Old(): StoredPayload {
    StoredPayload(0, [1], PAYLOAD_FLAG_JSON_FIELDS, false)
  }

  function New(): StoredPayload {
    StoredPayload(0, [2], PAYLOAD_FLAG_JSON_FIELDS, true)
  }

  ghost function Restarted(device: RecordTransfer.Device): D.State {
    D.State([], None, None, None, true, [Old()], 0, D.WifiIdle, D.BleIdle, false,
            device, 0, map[0 := Old()], [], {}, {}, {})
  }

  /** The uploader posts the old record while an append overwrites it under the same sequence; its
      acknowledgement then removes the new one. */
  const STALE_ACK: seq<D.Step> := [
    D.WifiSend, D.StorageReceive(D.Succeeds(0, false)), D.StorageSignal, D.WifiReceive, D.WifiPosted(true),
    D.Measure([2]), D.StorageReceive(D.Succeeds(1, true)),
    D.WifiSend, D.StorageReceive(D.Succeeds(0, false))]

  lemma {:induction false} OldIsPosted(device: RecordTransfer.Device)
    ensures D.Run(Restarted(device), STALE_ACK[..5])
         == Restarted(device).(wifi := D.WifiAckSend(Old()), tickets := 1, posted := {Old()})
  {
    var s := Restarted(device);
    hide D.Run;
    D.NothingRun(s);
    D.RunThen(s, STALE_ACK, 0);
    D.RunThen(s, STALE_ACK, 1);
    D.RunThen(s, STALE_ACK, 2);
    D.RunThen(s, STALE_ACK, 3);
    D.RunThen(s, STALE_ACK, 4);
    assert STALE_ACK[..0] == [];
  }

  lemma {:induction false} StaleAcknowledgement(device: RecordTransfer.Device)
    ensures var s := D.Run(Restarted(device), STALE_ACK);
            && s.queue == [] && s.history == map[0 := New()]
            && s.posted == {Old()} && s.served == {} && s.overwritten == {Old()}
  {
    var s := Restarted(device);
    hide D.Run;
    OldIsPosted(device);
    D.RunThen(s, STALE_ACK, 5);
    D.RunThen(s, STALE_ACK, 6);
    D.RunThen(s, STALE_ACK, 7);
    D.RunThen(s, STALE_ACK, 8);
    assert STALE_ACK[..9] == STALE_ACK;
  }
}
