/** What a boot keeps of what the firmware stored. */
module BootTheorems {
  import opened Bytes
  import opened SpoolCodec
  import opened Backlog
  import opened SpoolLog
  import opened SpoolRuns
  import opened SpoolTheorems
  import G = SpoolGuarantees
  import S = SpoolSpec

  /** Only measurements are appended: every append has exactly the flag for JSON fields. */
  predicate OnlyMeasurements(ops: seq<G.Op>) {
    forall i :: 0 <= i < |ops| && ops[i].DoAppend? ==> ops[i].flags == 0x01
  }

  predicate AllMeasurements(records: seq<StoredRecord>) {
    forall i :: 0 <= i < |records| ==> records[i].flags == 0x01
  }

  /** The flag is bit 0: the firmware reads a payload if and only if it is set. */
  lemma FlagIsBitZero(flags: byte)
    ensures FlagsSupported(flags) <==> flags & 1 == 1
  {
  }

  /** Discarding removes records without bit 0 from the front, all of them, and no record with it. */
  lemma {:induction false} DiscardByBitZero(cfg: S.Config, st: S.State, es: seq<Entry>, tail: bool)
    returns (skipped: nat)
    requires Sound(cfg, |st.flash|) && Inv(cfg, st, es, tail) && S.Valid(cfg, st)
    ensures DiscardFront(cfg, st).1 == Ok(skipped) && skipped <= |st.queue|
    ensures DiscardFront(cfg, st).0.queue == st.queue[skipped..]
    ensures forall i :: 0 <= i < skipped ==> st.queue[i].flags & 1 == 0
    ensures skipped < |st.queue| ==> st.queue[skipped].flags & 1 == 1
  {
    hide Inv, DiscardFront, FlagsSupported, S.Valid;
    var _, _ := DiscardKeepsInv(cfg, st, es, tail);
    skipped := DiscardFront(cfg, st).1.value;
    forall i | 0 <= i < skipped
      ensures st.queue[i].flags & 1 == 0
    {
      FlagIsBitZero(st.queue[i].flags);
      OneBit(st.queue[i].flags);
    }
    if skipped < |st.queue| {
      assert DiscardFront(cfg, st).0.queue[0] == st.queue[skipped];
      FlagIsBitZero(st.queue[skipped].flags);
    }
  }

  lemma OneBit(flags: byte)
    ensures flags & 1 == 0 || flags & 1 == 1
  {
  }

  lemma NothingDiscarded(cfg: S.Config, st: S.State)
    requires S.Valid(cfg, st) && AllMeasurements(st.queue)
    ensures DiscardFront(cfg, st) == (st, Ok(0))
  {
    hide S.Acknowledge;
    if st.queue != [] {
      FlagIsBitZero(st.queue[0].flags);
    }
  }

  lemma {:induction false} RunOfMeasurements(cfg: S.Config, size: nat, ops: seq<G.Op>)
    requires Sound(cfg, size) && |ops| < U64_LIMIT - 1 && OnlyMeasurements(ops)
    ensures var w := G.Run(cfg, size, ops);
            AllMeasurements(w.st.queue) && (w.newest.Some? ==> w.newest.value.flags == 0x01)
    decreases |ops|
  {
    if ops != [] {
      var front := ops[..|ops| - 1];
      RunOfMeasurements(cfg, size, front);
      var es, tail := G.RunKeepsInv(cfg, size, front);
      hide Inv, G.Run, G.NewestAcknowledged, G.Next;
      StepOfMeasurements(cfg, size, front, es, tail, ops[|ops| - 1]);
      NextInRun(cfg, size, ops);
    }
  }

  lemma NextInRun(cfg: S.Config, size: nat, ops: seq<G.Op>)
    requires ops != [] && S.Valid(cfg, G.Run(cfg, size, ops[..|ops| - 1]).st)
    ensures G.Run(cfg, size, ops) == G.Next(cfg, G.Run(cfg, size, ops[..|ops| - 1]), ops[|ops| - 1])
  {
    hide G.Next;
  }

  lemma StepOfMeasurements(cfg: S.Config, size: nat, front: seq<G.Op>, es: seq<Entry>, tail: bool, op: G.Op)
    requires Sound(cfg, size) && |front| < U64_LIMIT - 2
    requires var w := G.Run(cfg, size, front);
             && Inv(cfg, w.st, es, tail) && S.Valid(cfg, w.st) && |w.st.flash| == size
             && w.st.nextSequence <= |front|
             && AllMeasurements(w.st.queue) && (w.newest.Some? ==> w.newest.value.flags == 0x01)
    requires op.DoAppend? ==> op.flags == 0x01
    ensures var w := G.Run(cfg, size, front);
            var w' := G.Next(cfg, w, op);
            AllMeasurements(w'.st.queue) && (w'.newest.Some? ==> w'.newest.value.flags == 0x01)
  {
    hide Inv, G.Run, S.Append, S.Acknowledge, S.Recover, S.Valid, S.IsLongestFittingSuffix, Recovers;
    var w := G.Run(cfg, size, front);
    match op {
      case DoAppend(flags, payload) =>
        var _, _ := AppendKeepsInv(cfg, w.st, es, tail, flags, payload);
        var from := G.AppendKeepsLongestSuffix(cfg, w.st, es, tail, flags, payload);
        if S.Append(cfg, w.st, flags, payload).1.Ok? {
          SuffixInside(w.st.queue + [StoredRecord(w.st.nextSequence, flags, payload)], from, cfg.capacity, size);
        }
      case DoAcknowledge =>
        var _, _ := AcknowledgeKeepsInv(cfg, w.st, es, tail);
      case Reboot =>
        RebootRecovers(cfg, size, front);
        RecoveredQueue(w, S.Recover(cfg, w.st.flash).value.0, S.Recover(cfg, w.st.flash).value.1);
    }
  }

  lemma SuffixInside(records: seq<StoredRecord>, from: nat, capacity: nat, limit: nat)
    requires S.IsLongestFittingSuffix(records, from, capacity, limit)
    ensures from <= |records|
  {
  }

  lemma RecoveredQueue(w: G.World, back: S.State, corrupt: nat)
    requires Recovers(w, back, corrupt)
    ensures back.queue == w.st.queue || (w.newest.Some? && back.queue == [w.newest.value] + w.st.queue)
  {
  }

  /** After any run in which the firmware appended measurements, a boot discards nothing: the backlog's
      queue is exactly what recovery found, and nothing is counted as skipped. */
  lemma {:induction false} BootKeepsMeasurements(cfg: S.Config, size: nat, ops: seq<G.Op>)
    requires Sound(cfg, size) && |ops| < U64_LIMIT - 1 && OnlyMeasurements(ops)
    ensures var w := G.Run(cfg, size, ops);
            var recovered := S.Recover(cfg, w.st.flash);
            && recovered.Ok? && S.Valid(cfg, recovered.value.0)
            && DiscardFront(cfg, recovered.value.0) == (recovered.value.0, Ok(0))
            && recovered.value.0.queue == if Forgets(w) then [w.newest.value] + w.st.queue else w.st.queue
  {
    RunOfMeasurements(cfg, size, ops);
    var es, tail := G.RunKeepsInv(cfg, size, ops);
    hide Inv, G.Run, G.NewestAcknowledged, S.Recover, S.Valid, DiscardFront, Forgets;
    var w := G.Run(cfg, size, ops);
    RebootRecovers(cfg, size, ops);
    var b, _, _ := BootStarts(cfg, w.st, es, tail);
    NothingDiscarded(cfg, S.Recover(cfg, w.st.flash).value.0);
  }
}
