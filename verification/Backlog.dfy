/** The storage backlog around the flash-backed spool: supported payloads, metrics, and the test
    for records of the current boot. */
module Backlog {
  import opened Bytes
  import opened SpoolCodec
  import opened FlashModel
  import opened FlashSpool
  import opened SpoolLog
  import opened SpoolRuns
  import SpoolGuarantees
  import DropOldestQueue
  import S = SpoolSpec

  const PAYLOAD_FLAG_JSON_FIELDS: byte := 0x01

  /** Counters are 32-bit on the target. */
  const USIZE_MAX := 0xffff_ffff

  datatype StorageError = Encode | Spool(error: SpoolError)

  datatype Metrics = Metrics(
    pendingRecordCount: nat,
    droppedOldestCount: nat,
    recoveredRecordCount: nat,
    skippedLegacyRecordCount: nat,
    corruptRecordCount: nat,
    lastError: Option<StorageError>)

  datatype StoredPayload = StoredPayload(sequence: nat, payload: seq<byte>, payloadFlags: byte, currentBoot: bool)

  predicate FlagsSupported(flags: byte) {
    flags & PAYLOAD_FLAG_JSON_FIELDS == PAYLOAD_FLAG_JSON_FIELDS
  }

  /** 64-bit wrapping distance from the boot's first sequence, compared with half the range. */
  predicate IsFromCurrentBoot(sequence: nat, firstSequence: nat) {
    (sequence - firstSequence) % U64_LIMIT < U64_LIMIT / 2 - 1
  }

  function SaturatingAdd(a: nat, b: nat): nat {
    Min(a + b, USIZE_MAX)
  }

  // What the operations do to the spool.

  lemma AcknowledgeShrinks(cfg: S.Config, st: S.State)
    requires S.Valid(cfg, st)
    ensures var (st', r) := S.Acknowledge(cfg, st);
            && S.Valid(cfg, st') && st'.nextSequence == st.nextSequence
            && (r.Ok? ==> r.value == if st.queue == [] then None else Some(st.queue[0]))
            && (r.Ok? && st.queue != [] ==> st'.queue == st.queue[1..])
  {
    hide AckBytes, CanWrite, Written, S.RecordsBytes;
    if st.queue != [] {
      PopKeepsFit(st.queue, cfg.payloadSize);
      DropOldestQueue.PushAllKeepsNewest([], st.queue[1..], cfg.capacity);
      assert [] + st.queue[1..] == st.queue[1..];
    }
  }

  /** Acknowledges front records until one with supported flags; counts what it skipped. */
  ghost function DiscardFront(cfg: S.Config, st: S.State): (r: (S.State, Result<nat, StorageError>))
    requires S.Valid(cfg, st)
    ensures S.Valid(cfg, r.0) && r.0.nextSequence == st.nextSequence
    decreases |st.queue|
  {
    hide S.Acknowledge, S.Valid;
    AcknowledgeShrinks(cfg, st);
    if st.queue == [] || FlagsSupported(st.queue[0].flags) then (st, Ok(0))
    else
      var (next, acknowledged) := S.Acknowledge(cfg, st);
      if acknowledged.Err? then (next, Err(Spool(acknowledged.error)))
      else
        var (last, skipped) := DiscardFront(cfg, next);
        (last, if skipped.Ok? then Ok(skipped.value + 1) else skipped)
  }

  class StorageBacklog {
    var spool: FlashBackedSpool
    var metrics: Metrics
    var currentBootFirstSequence: nat

    ghost predicate Valid()
      reads this, spool, spool.spool, spool.spool.queue, spool.spool.queue.buf
    {
      spool.Valid() && currentBootFirstSequence < U64_LIMIT
    }

    ghost function Repr(): set<object>
      reads this, spool, spool.spool
    {
      {this} + spool.Repr()
    }

    constructor (spool: FlashBackedSpool, metrics: Metrics, currentBootFirstSequence: nat)
      requires spool.Valid() && currentBootFirstSequence < U64_LIMIT
      ensures Valid() && this.spool == spool && this.metrics == metrics
      ensures this.currentBootFirstSequence == currentBootFirstSequence
    {
      this.spool := spool;
      this.metrics := metrics;
      this.currentBootFirstSequence := currentBootFirstSequence;
    }

    /** `encoded` is the measurement's JSON, or nothing when it did not fit its buffer. */
    method AppendMeasurement(flash: InMemoryFlash, encoded: Option<seq<byte>>) returns (r: Result<(), StorageError>)
      requires Valid() && (flash.data as object) !in Repr()
      modifies Repr(), flash.data
      ensures Valid() && fresh(Repr() - old(Repr())) && spool.Config(flash) == old(spool.Config(flash))
      ensures spool == old(spool) && currentBootFirstSequence == old(currentBootFirstSequence)
      ensures encoded.None? ==>
                r == Err(Encode) && spool.State(flash) == old(spool.State(flash))
                && metrics == old(metrics).(lastError := Some(Encode))
      ensures encoded.Some? ==>
                var (st', appended) :=
                  old(S.Append(spool.Config(flash), spool.State(flash), PAYLOAD_FLAG_JSON_FIELDS, encoded.value));
                && spool.State(flash) == st'
                && if appended.Err? then
                     r == Err(Spool(appended.error))
                     && metrics == old(metrics).(lastError := Some(Spool(appended.error)))
                   else
                     r == Ok(())
                     && metrics == old(metrics).(
                          droppedOldestCount :=
                            Min(old(metrics).droppedOldestCount + appended.value.droppedCount, 0xffff_ffff),
                          pendingRecordCount := |st'.queue|,
                          lastError := None)
    {
      hide S.Append;
      if encoded.None? {
        metrics := metrics.(lastError := Some(Encode));
        return Err(Encode);
      }
      var appended := spool.Append(flash, PAYLOAD_FLAG_JSON_FIELDS, encoded.value);
      if appended.Err? {
        metrics := metrics.(lastError := Some(Spool(appended.error)));
        return Err(Spool(appended.error));
      }
      metrics := metrics.(
        droppedOldestCount := SaturatingAdd(metrics.droppedOldestCount, appended.value.droppedCount),
        pendingRecordCount := spool.spool.queue.len,
        lastError := None);
      return Ok(());
    }

    method PeekPayload() returns (r: Option<StoredPayload>)
      requires Valid()
      ensures var queue := spool.spool.queue.Contents();
              r == if queue == [] then None else Some(FromRecord(queue[0], currentBootFirstSequence))
    {
      var front := spool.spool.queue.Front();
      if front.None? {
        return None;
      }
      return Some(FromRecord(front.value, currentBootFirstSequence));
    }

    method Acknowledge(flash: InMemoryFlash) returns (r: Result<Option<StoredPayload>, StorageError>)
      requires Valid() && (flash.data as object) !in Repr()
      modifies Repr(), flash.data
      ensures Valid() && fresh(Repr() - old(Repr())) && spool.Config(flash) == old(spool.Config(flash))
      ensures spool == old(spool) && currentBootFirstSequence == old(currentBootFirstSequence)
      ensures var (st', acknowledged) := old(S.Acknowledge(spool.Config(flash), spool.State(flash)));
              && spool.State(flash) == st'
              && if acknowledged.Err? then
                   r == Err(Spool(acknowledged.error))
                   && metrics == old(metrics).(lastError := Some(Spool(acknowledged.error)))
                 else
                   && metrics == old(metrics).(pendingRecordCount := |st'.queue|, lastError := None)
                   && r == Ok(if acknowledged.value.None? then None
                              else Some(FromRecord(old(spool.spool.queue.Contents())[0], currentBootFirstSequence)))
    {
      hide S.Acknowledge;
      AcknowledgeShrinks(spool.Config(flash), spool.State(flash));
      var acknowledged := spool.Acknowledge(flash);
      if acknowledged.Err? {
        metrics := metrics.(lastError := Some(Spool(acknowledged.error)));
        return Err(Spool(acknowledged.error));
      }
      metrics := metrics.(pendingRecordCount := spool.spool.queue.len, lastError := None);
      if acknowledged.value.None? {
        return Ok(None);
      }
      return Ok(Some(FromRecord(acknowledged.value.value, currentBootFirstSequence)));
    }

    /** Acknowledges the oldest record if it has the given sequence, and nothing else ever. */
    method AcknowledgeSequence(flash: InMemoryFlash, sequence: nat)
      returns (r: Result<Option<StoredPayload>, StorageError>)
      requires Valid() && (flash.data as object) !in Repr()
      modifies Repr(), flash.data
      ensures Valid() && fresh(Repr() - old(Repr())) && spool.Config(flash) == old(spool.Config(flash))
      ensures spool == old(spool) && currentBootFirstSequence == old(currentBootFirstSequence)
      ensures var queue := old(spool.spool.queue.Contents());
              var (st', acknowledged) := old(S.Acknowledge(spool.Config(flash), spool.State(flash)));
              if queue != [] && queue[0].sequence == sequence then
                && spool.State(flash) == st'
                && if acknowledged.Err? then r == Err(Spool(acknowledged.error))
                   else r == Ok(Some(FromRecord(queue[0], currentBootFirstSequence)))
              else
                spool.State(flash) == old(spool.State(flash)) && metrics == old(metrics) && r == Ok(None)
    {
      hide S.Acknowledge;
      AcknowledgeShrinks(spool.Config(flash), spool.State(flash));
      var front := spool.spool.queue.Front();
      if front.None? || front.value.sequence != sequence {
        return Ok(None);
      }
      ghost var expected := S.Acknowledge(spool.Config(flash), spool.State(flash)).1;
      assert expected.Ok? ==> expected.value == Some(front.value);
      r := Acknowledge(flash);
    }
  }

  function FromRecord(record: StoredRecord, firstSequence: nat): StoredPayload {
    StoredPayload(record.sequence, record.payload, record.flags, IsFromCurrentBoot(record.sequence, firstSequence))
  }

  /** Boot: recovers the spool, then acknowledges what this firmware cannot read. */
  method Recover(flash: InMemoryFlash, capacity: nat, payloadSize: nat)
    returns (r: Result<StorageBacklog, StorageError>)
    modifies flash.data
    ensures var cfg := S.Config(capacity, payloadSize, flash.sectorSize);
            match S.Recover(cfg, old(flash.data[..]))
            case Err(error) => r == Err(Spool(error)) && flash.data[..] == old(flash.data[..])
            case Ok((st, corrupt)) =>
              S.Valid(cfg, st) &&
              var (st', skipped) := DiscardFront(cfg, st);
              && flash.data[..] == st'.flash
              && if skipped.Err? then r == Err(skipped.error)
                 else
                   r.Ok? && var b := r.value;
                   && b.Valid() && b.spool.Config(flash) == cfg && b.spool.State(flash) == st'
                   && b.currentBootFirstSequence == st.nextSequence
                   && b.metrics == Metrics(|st'.queue|, 0, |st.queue|, skipped.value, corrupt, None)
  {
    var recovered := RecoverWithReport(flash, capacity, payloadSize);
    if recovered.Err? {
      return Err(Spool(recovered.error));
    }
    var (spool, report) := recovered.value;
    var first := spool.spool.nextSequence;
    var skipped := DiscardUnsupportedFrontPayloads(spool, flash);
    if skipped.Err? {
      return Err(skipped.error);
    }
    var metrics := Metrics(spool.spool.queue.len, 0, report.recoveredRecordCount, skipped.value,
                           report.corruptRecordCount, None);
    var backlog := new StorageBacklog(spool, metrics, first);
    return Ok(backlog);
  }

  /** One turn of the loop: stop in front of a supported record, or acknowledge an unsupported one. */
  method DiscardStep(spool: FlashBackedSpool, flash: InMemoryFlash) returns (stop: bool, error: Option<StorageError>)
    requires spool.Valid() && (flash.data as object) !in spool.Repr()
    modifies spool.Repr(), flash.data
    ensures spool.Valid() && spool.Config(flash) == old(spool.Config(flash)) && fresh(spool.Repr() - old(spool.Repr()))
    ensures !stop ==> |spool.spool.queue.Contents()| < |old(spool.spool.queue.Contents())|
    ensures var whole := old(DiscardFront(spool.Config(flash), spool.State(flash)));
            if stop then (spool.State(flash), if error.Some? then Err(error.value) else Ok(0)) == whole
            else
              var rest := DiscardFront(spool.Config(flash), spool.State(flash));
              whole == (rest.0, if rest.1.Ok? then Ok(rest.1.value + 1) else rest.1)
  {
    hide S.Acknowledge, S.Valid;
    ghost var cfg, st := spool.Config(flash), spool.State(flash);
    AcknowledgeShrinks(cfg, st);
    var front := spool.spool.queue.Front();
    if front.None? || FlagsSupported(front.value.flags) {
      return true, None;
    }
    var acknowledged := spool.Acknowledge(flash);
    if acknowledged.Err? {
      return true, Some(Spool(acknowledged.error));
    }
    return false, None;
  }

  method DiscardUnsupportedFrontPayloads(spool: FlashBackedSpool, flash: InMemoryFlash)
    returns (r: Result<nat, StorageError>)
    requires spool.Valid() && (flash.data as object) !in spool.Repr()
    modifies spool.Repr(), flash.data
    ensures spool.Valid() && spool.Config(flash) == old(spool.Config(flash))
    ensures (spool.State(flash), r) == old(DiscardFront(spool.Config(flash), spool.State(flash)))
  {
    hide DiscardFront, S.Valid;
    var skipped := 0;
    ghost var cfg := spool.Config(flash);
    ghost var goal := DiscardFront(cfg, spool.State(flash));
    ghost var started := spool.Repr();
    while true
      invariant spool.Valid() && spool.Config(flash) == cfg
      invariant (flash.data as object) !in spool.Repr() && fresh(spool.Repr() - started)
      invariant var rest := DiscardFront(cfg, spool.State(flash));
                goal == (rest.0, if rest.1.Ok? then Ok(rest.1.value + skipped) else rest.1)
      decreases |spool.spool.queue.Contents()|
    {
      var stop, error := DiscardStep(spool, flash);
      if stop {
        return if error.Some? then Err(error.value) else Ok(skipped);
      }
      skipped := skipped + 1;
    }
  }

  // Which records are from this boot.

  datatype BacklogOp = AppendPayload(payload: seq<byte>) | AcknowledgeOldest

  /** The spool state and the sequences appended since the boot. */
  datatype Boot = Boot(st: S.State, firstSequence: nat, appended: set<nat>)

  ghost function NextBoot(cfg: S.Config, b: Boot, op: BacklogOp): Boot
    requires S.Valid(cfg, b.st)
  {
    match op
    case AppendPayload(payload) =>
      var (st', r) := S.Append(cfg, b.st, PAYLOAD_FLAG_JSON_FIELDS, payload);
      Boot(st', b.firstSequence, if r.Ok? then b.appended + {r.value.sequence} else b.appended)
    case AcknowledgeOldest => Boot(S.Acknowledge(cfg, b.st).0, b.firstSequence, b.appended)
  }

  /** The appended sequences are exactly those between the boot's first and the next. */
  ghost predicate BootInv(cfg: S.Config, b: Boot, es: seq<Entry>, tail: bool) {
    && Inv(cfg, b.st, es, tail) && S.Valid(cfg, b.st)
    && b.firstSequence <= b.st.nextSequence
    && forall s :: s in b.appended <==> b.firstSequence <= s < b.st.nextSequence
  }

  lemma {:induction false} DiscardKeepsInv(cfg: S.Config, st: S.State, es: seq<Entry>, tail: bool)
    returns (es': seq<Entry>, tail': bool)
    requires Sound(cfg, |st.flash|) && Inv(cfg, st, es, tail) && S.Valid(cfg, st)
    ensures var (st', skipped) := DiscardFront(cfg, st);
            && skipped.Ok? && skipped.value <= |st.queue|
            && st'.queue == st.queue[skipped.value..]
            && (forall i :: 0 <= i < skipped.value ==> !FlagsSupported(st.queue[i].flags))
            && (st'.queue != [] ==> FlagsSupported(st'.queue[0].flags))
            && Inv(cfg, st', es', tail') && |st'.flash| == |st.flash| && st'.nextSequence == st.nextSequence
    decreases |st.queue|
  {
    hide Inv, S.Acknowledge, FlagsSupported;
    es', tail' := es, tail;
    if st.queue != [] && !FlagsSupported(st.queue[0].flags) {
      AcknowledgeShrinks(cfg, st);
      var e, t := AcknowledgeKeepsInv(cfg, st, es, tail);
      var next := S.Acknowledge(cfg, st).0;
      es', tail' := DiscardKeepsInv(cfg, next, e, t);
      var skipped := DiscardFront(cfg, next).1.value;
      assert st.queue[1..][skipped..] == st.queue[skipped + 1..];
      forall i | 0 <= i < skipped + 1
        ensures !FlagsSupported(st.queue[i].flags)
      {
        if i > 0 { assert st.queue[i] == next.queue[i - 1]; }
      }
    }
  }

  /** A boot on a flash that a spool left behind: the first sequence is the recovered counter, and
      exactly the unsupported records at the front are gone. */
  lemma {:induction false} BootStarts(cfg: S.Config, st: S.State, es: seq<Entry>, tail: bool)
    returns (b: Boot, es': seq<Entry>, tail': bool)
    requires Sound(cfg, |st.flash|) && Inv(cfg, st, es, tail)
    ensures var recovered := S.Recover(cfg, st.flash);
            && recovered.Ok? && S.Valid(cfg, recovered.value.0)
            && b == Boot(DiscardFront(cfg, recovered.value.0).0, recovered.value.0.nextSequence, {})
            && DiscardFront(cfg, recovered.value.0).1.Ok?
    ensures BootInv(cfg, b, es', tail') && |b.st.flash| == |st.flash|
  {
    hide Inv, S.Recover;
    var front := RecoveryReplaysState(cfg, st, es, tail);
    var st0 := Rebooted(st, front);
    LogOfInv(cfg, st, es, tail);
    var e, t := ReadableLog(es, |st.flash|), tail || front.Some?;
    InvFacts(cfg, st0, e, t);
    es', tail' := DiscardKeepsInv(cfg, st0, e, t);
    b := Boot(DiscardFront(cfg, st0).0, st0.nextSequence, {});
  }

  lemma BootStep(cfg: S.Config, b: Boot, es: seq<Entry>, tail: bool, op: BacklogOp)
    returns (es': seq<Entry>, tail': bool)
    requires Sound(cfg, |b.st.flash|) && BootInv(cfg, b, es, tail)
    requires b.st.nextSequence < U64_LIMIT / 2 - 1
    ensures var b' := NextBoot(cfg, b, op);
            BootInv(cfg, b', es', tail') && |b'.st.flash| == |b.st.flash|
            && b'.firstSequence == b.firstSequence && b'.st.nextSequence <= b.st.nextSequence + 1
  {
    hide Inv, S.Append, S.Acknowledge, S.Valid, BootInv;
    BootParts(cfg, b, es, tail);
    match op {
      case AppendPayload(payload) =>
        es', tail' := AppendKeepsInv(cfg, b.st, es, tail, PAYLOAD_FLAG_JSON_FIELDS, payload);
        AppendedSequence(cfg, b.st, es, tail, payload);
      case AcknowledgeOldest =>
        es', tail' := AcknowledgeKeepsInv(cfg, b.st, es, tail);
    }
    var b' := NextBoot(cfg, b, op);
    InvFacts(cfg, b'.st, es', tail');
    BootJoined(cfg, b, b', es', tail');
  }

  lemma BootParts(cfg: S.Config, b: Boot, es: seq<Entry>, tail: bool)
    requires BootInv(cfg, b, es, tail)
    ensures Inv(cfg, b.st, es, tail) && S.Valid(cfg, b.st) && b.firstSequence <= b.st.nextSequence
    ensures forall s :: s in b.appended <==> b.firstSequence <= s < b.st.nextSequence
  {
    hide Inv, S.Valid;
  }

  lemma BootJoined(cfg: S.Config, b: Boot, b': Boot, es': seq<Entry>, tail': bool)
    requires b.firstSequence <= b.st.nextSequence && b'.firstSequence == b.firstSequence
    requires forall s :: s in b.appended <==> b.firstSequence <= s < b.st.nextSequence
    requires Inv(cfg, b'.st, es', tail') && S.Valid(cfg, b'.st)
    requires || (b'.appended == b.appended && b'.st.nextSequence == b.st.nextSequence)
             || (b'.appended == b.appended + {b.st.nextSequence} && b'.st.nextSequence == b.st.nextSequence + 1)
    ensures BootInv(cfg, b', es', tail')
  {
    hide Inv, S.Valid;
  }

  lemma AppendedSequence(cfg: S.Config, st: S.State, es: seq<Entry>, tail: bool, payload: seq<byte>)
    requires Sound(cfg, |st.flash|) && Inv(cfg, st, es, tail) && S.Valid(cfg, st)
    ensures var r := S.Append(cfg, st, PAYLOAD_FLAG_JSON_FIELDS, payload).1;
            r.Ok? ==> r.value.sequence == st.nextSequence
  {
    hide Inv, S.Append;
    var _ := SpoolGuarantees.AppendKeepsLongestSuffix(cfg, st, es, tail, PAYLOAD_FLAG_JSON_FIELDS, payload);
  }

  /** Every peeked payload is marked as from the current boot exactly when it was appended in it. */
  lemma {:induction false} CurrentBootExact(cfg: S.Config, b: Boot, es: seq<Entry>, tail: bool)
    requires cfg.capacity > 0 && BootInv(cfg, b, es, tail)
    requires b.st.nextSequence <= U64_LIMIT / 2 - 1
    ensures forall i :: 0 <= i < |b.st.queue| ==>
              (FromRecord(b.st.queue[i], b.firstSequence).currentBoot <==> b.st.queue[i].sequence in b.appended)
  {
    hide Inv;
    InvFacts(cfg, b.st, es, tail);
    forall i | 0 <= i < |b.st.queue|
      ensures FromRecord(b.st.queue[i], b.firstSequence).currentBoot <==> b.st.queue[i].sequence in b.appended
    {
      var sequence := b.st.queue[i].sequence;
      assert sequence < b.st.nextSequence;
      WrappingDistance(sequence, b.firstSequence);
    }
  }

  lemma WrappingDistance(sequence: nat, first: nat)
    requires sequence < U64_LIMIT / 2 - 1 && first <= U64_LIMIT / 2 - 1
    ensures IsFromCurrentBoot(sequence, first) <==> first <= sequence
  {
    if first <= sequence {
      assert (sequence - first) % U64_LIMIT == sequence - first;
    } else {
      assert (sequence - first) % U64_LIMIT == sequence - first + U64_LIMIT;
    }
  }

  /** Counted on from the boot's first sequence, the next 2^63 - 1 sequences are from this boot, wrap-around
      included; the others are not. */
  lemma BootSpansHalf(first: nat, distance: nat)
    requires first < U64_LIMIT && distance < U64_LIMIT
    ensures IsFromCurrentBoot((first + distance) % U64_LIMIT, first) <==> distance < 0x7fff_ffff_ffff_ffff
  {
    var sequence := (first + distance) % U64_LIMIT;
    if first + distance < U64_LIMIT {
      assert sequence - first == distance;
    } else {
      assert sequence == first + distance - U64_LIMIT;
      assert (sequence - first) % U64_LIMIT == distance;
    }
  }

  ghost function RunBoot(cfg: S.Config, b: Boot, ops: seq<BacklogOp>): Boot {
    if ops == [] then b
    else
      var before := RunBoot(cfg, b, ops[..|ops| - 1]);
      if S.Valid(cfg, before.st) then NextBoot(cfg, before, ops[|ops| - 1]) else before
  }

  lemma {:induction false} BootRunKeepsInv(cfg: S.Config, b: Boot, es: seq<Entry>, tail: bool, ops: seq<BacklogOp>)
    returns (es': seq<Entry>, tail': bool)
    requires Sound(cfg, |b.st.flash|) && BootInv(cfg, b, es, tail)
    requires b.st.nextSequence + |ops| <= U64_LIMIT / 2 - 1
    ensures var b' := RunBoot(cfg, b, ops);
            && BootInv(cfg, b', es', tail') && |b'.st.flash| == |b.st.flash|
            && b'.firstSequence == b.firstSequence
            && b'.st.nextSequence <= b.st.nextSequence + |ops|
    decreases |ops|
  {
    hide NextBoot, Inv;
    es', tail' := es, tail;
    if ops != [] {
      var e, t := BootRunKeepsInv(cfg, b, es, tail, ops[..|ops| - 1]);
      es', tail' := BootStep(cfg, RunBoot(cfg, b, ops[..|ops| - 1]), e, t, ops[|ops| - 1]);
    }
  }

  /** Over every run after a boot, through discards, drops and compactions, the current-boot mark of
      every pending record is right. */
  lemma {:induction false} CurrentBootOverRun(cfg: S.Config, st: S.State, es: seq<Entry>, tail: bool,
                                              ops: seq<BacklogOp>)
    returns (b: Boot)
    requires Sound(cfg, |st.flash|) && Inv(cfg, st, es, tail)
    requires st.nextSequence + |ops| <= U64_LIMIT / 2 - 1
    ensures var recovered := S.Recover(cfg, st.flash);
            && recovered.Ok? && S.Valid(cfg, recovered.value.0)
            && b == Boot(DiscardFront(cfg, recovered.value.0).0, recovered.value.0.nextSequence, {})
    ensures var b' := RunBoot(cfg, b, ops);
            forall i :: 0 <= i < |b'.st.queue| ==>
              (FromRecord(b'.st.queue[i], b'.firstSequence).currentBoot <==> b'.st.queue[i].sequence in b'.appended)
  {
    hide Inv, RunBoot;
    var front := RecoveryReplaysState(cfg, st, es, tail);
    var es0: seq<Entry>, tail0: bool;
    b, es0, tail0 := BootStarts(cfg, st, es, tail);
    DiscardKeepsSequence(cfg, S.Recover(cfg, st.flash).value.0);
    var es', tail' := BootRunKeepsInv(cfg, b, es0, tail0, ops);
    CurrentBootExact(cfg, RunBoot(cfg, b, ops), es', tail');
  }

  lemma DiscardKeepsSequence(cfg: S.Config, st: S.State)
    requires S.Valid(cfg, st)
    ensures DiscardFront(cfg, st).0.nextSequence == st.nextSequence
  {
  }
}
