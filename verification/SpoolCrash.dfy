/** Power loss in the middle of an in-place write: what recovery makes of every byte prefix. */
module SpoolCrash {
  import opened Bytes
  import opened SpoolCodec
  import opened FlashModel
  import opened DropOldestQueue
  import opened SpoolLog
  import opened SpoolSpec
  import opened SpoolRuns
  import Crc32

  /** The flash after only the first `k` bytes of `bytes` reached it. */
  function Torn(flash: seq<byte>, offset: nat, bytes: seq<byte>, k: nat): seq<byte>
    requires k <= |bytes| && offset + |bytes| <= |flash|
  {
    Written(flash, offset, bytes[..k])
  }

  /** The first `k` bytes of `bytes` on otherwise erased flash. */
  function View(bytes: seq<byte>, k: nat, len: nat): (view: seq<byte>)
    requires k <= |bytes| <= len
    ensures |view| == len
    ensures forall i :: 0 <= i < len ==> view[i] == if i < k then bytes[i] else 0xff
  {
    bytes[..k] + Erased(len - k)
  }

  lemma ViewSlice(bytes: seq<byte>, k: nat, len: nat, lo: nat, hi: nat)
    requires lo <= hi <= k <= |bytes| <= len
    ensures View(bytes, k, len)[lo..hi] == bytes[lo..hi]
  {
  }

  /** Recovery reads everything before the torn entry, then stands in front of it. */
  lemma ScanReachesTornEntry(cfg: Config, st: State, es: seq<Entry>, e: Entry, k: nat)
    requires Inv(cfg, st, es, false) && EntryFits(e, cfg.payloadSize) && EntryFits(e, MAX_PAYLOAD_LEN)
    requires st.writeOffset + |EntryBytes(e)| <= |st.flash| && k <= |EntryBytes(e)|
    ensures var flash := Torn(st.flash, st.writeOffset, EntryBytes(e), k);
            var s := Replay(es, cfg.capacity);
            && s.cursor == st.writeOffset && s.pending == st.queue && s.corrupt == 0
            && |flash| == |st.flash|
            && flash[s.cursor..] == View(EntryBytes(e), k, |flash| - s.cursor)
            && ScanFrom(flash, cfg.payloadSize, cfg.capacity, START)
               == ScanFrom(flash, cfg.payloadSize, cfg.capacity, s)
  {
    hide EntryBytes, LogBytes, Replay, WellFormed, LastRecord, ScanFrom;
    var bytes := EntryBytes(e);
    var flash := Torn(st.flash, st.writeOffset, bytes, k);
    assert LogBytes(es) + [] == LogBytes(es);
    assert LogBytes(es) <= flash by { assert flash[..st.writeOffset] == st.flash[..st.writeOffset]; }
    forall i | st.writeOffset + k <= i < |flash|
      ensures flash[i] == 0xff
    {
      assert flash[i] == st.flash[i] == st.flash[st.writeOffset..][i - st.writeOffset];
    }
    assert flash[st.writeOffset..] == View(bytes, k, |flash| - st.writeOffset);
    EarlierEntriesReadable(cfg, st, es, false);
    ScanReadsLog(flash, cfg.payloadSize, cfg.capacity, es);
  }

  /** One pass over bytes in terms of what lies behind the cursor. */
  lemma StepOnView(flash: seq<byte>, payloadSize: nat, capacity: nat, s: Scan, view: seq<byte>)
    requires s.cursor + FLASH_WRITE_ALIGNMENT <= |flash| && |s.pending| <= capacity
    requires flash[s.cursor..] == view
    ensures var r := Step(flash, payloadSize, capacity, s);
            if AllErased(view[0..4]) then r == Stop(s)
            else if |view| < ENCODED_RECORD_HEADER_LEN then r == Stop(Corrupted(s))
            else match EncodedLogEntryLen(view)
              case Ok(len) =>
                if len <= |view| && len <= FLASH_ENTRY_BUFFER_LEN
                then r == StepEntry(view[..len], payloadSize, capacity, s)
                else r == Stop(Corrupted(s))
              case Err(error) =>
                if error == BadMagic then r == Continue(Corrupted(s).(cursor := s.cursor + FLASH_WRITE_ALIGNMENT))
                else r == Stop(Corrupted(s))
  {
    hide StepEntry, EncodedLogEntryLen;
    assert flash[s.cursor..s.cursor + FLASH_WRITE_ALIGNMENT] == view[0..4];
    if |view| >= ENCODED_RECORD_HEADER_LEN {
      LenFromHeader(view);
      assert flash[s.cursor..s.cursor + ENCODED_RECORD_HEADER_LEN] == view[..ENCODED_RECORD_HEADER_LEN];
      var len := EncodedLogEntryLen(view);
      if len.Ok? && len.value <= |view| {
        assert flash[s.cursor..s.cursor + len.value] == view[..len.value];
      }
    }
  }

  /** The sequence counter that recovery derives from the highest sequence it saw. */
  function CounterAfter(maxSeen: Option<nat>): nat {
    if maxSeen.Some? then Successor(maxSeen.value) else 0
  }

  /** Recovery keeps what the scan from the torn entry keeps, and appends where it ends. */
  lemma RecoverFrom(cfg: Config, flash: seq<byte>, s: Scan, last: Scan)
    requires EntryLen(cfg.payloadSize) <= FLASH_ENTRY_BUFFER_LEN && s.cursor <= |flash| && |s.pending| <= cfg.capacity
    requires ScanFrom(flash, cfg.payloadSize, cfg.capacity, START) == ScanFrom(flash, cfg.payloadSize, cfg.capacity, s)
    requires ScanFrom(flash, cfg.payloadSize, cfg.capacity, s) == Ok(last)
    ensures Recover(cfg, flash)
         == Ok((State(last.pending, CounterAfter(last.maxSeen), last.cursor, flash), last.corrupt))
  {
    hide ScanFrom;
  }

  /** The highest sequence on a log is the last one the RAM counter gave out. */
  lemma SeenOnLog(cfg: Config, st: State, es: seq<Entry>, tail: bool)
    requires cfg.capacity > 0 && Inv(cfg, st, es, tail)
    ensures LogFits(es, MAX_PAYLOAD_LEN)
    ensures Replay(es, cfg.capacity).maxSeen == if es == [] then None else Some(st.nextSequence - 1)
    ensures es != [] ==> st.nextSequence > 0
  {
    hide Replay, LogBytes, WellFormed;
    ReplayFacts(es, cfg.capacity);
    LastRecordOfNothing();
    hide LastRecord;
    LastSeenPositive(es, st.nextSequence);
  }

  lemma LastSeenPositive(es: seq<Entry>, nextSequence: nat)
    requires es != [] ==> LastRecord(es) == Some(nextSequence - 1)
    ensures es != [] ==> nextSequence > 0
  {
  }

  // Magic numbers.

  lemma MagicTopByte(view: seq<byte>)
    requires |view| == 4 && view[3] == 0xff
    ensures LeValue(view) != RECORD_MAGIC && LeValue(view) != ACK_MAGIC
  {
    hide LeValue, Pow256;
    LeValueTopByte(view);
    Pow256Values3();
  }

  lemma Pow256Values3()
    ensures Pow256(3) == 0x100_0000
    ensures Pow256(7) == 0x100_0000_0000_0000
    ensures Pow256(1) == 256
  {
    assert Pow256(2) == 0x1_0000;
    assert Pow256(4) == 0x1_0000_0000;
    assert Pow256(5) == 0x100_0000_0000;
    assert Pow256(6) == 0x1_0000_0000_0000;
  }

  /** A first byte other than 0xff and a fourth byte 0xff: skipped as four bytes of noise. */
  lemma TornMagic(flash: seq<byte>, payloadSize: nat, capacity: nat, s: Scan, view: seq<byte>)
    requires s.cursor + FLASH_WRITE_ALIGNMENT <= |flash| && |s.pending| <= capacity
    requires flash[s.cursor..] == view && view[0] != 0xff && AllErased(view[3..])
    ensures ScanFrom(flash, payloadSize, capacity, s)
         == Ok(if |view| < ENCODED_RECORD_HEADER_LEN then Corrupted(s) else Corrupted(s).(cursor := s.cursor + 4))
  {
    hide LeValue, StepEntry, Step;
    StepOnView(flash, payloadSize, capacity, s, view);
    assert view[0..4][0] != 0xff;
    if |view| >= ENCODED_RECORD_HEADER_LEN {
      assert view[3..][0] == 0xff;
      MagicTopByte(view[0..4]);
      var next := Corrupted(s).(cursor := s.cursor + FLASH_WRITE_ALIGNMENT);
      assert flash[next.cursor..] == view[4..];
      forall i | 0 <= i < |view[4..]| ensures view[4..][i] == 0xff { assert view[4..][i] == view[3..][i + 1]; }
      ScanStopsAtErased(flash, payloadSize, capacity, next);
    }
  }

  // A torn acknowledgement.

  lemma AckBytesParts(sequence: nat)
    requires sequence < U64_LIMIT
    ensures var b := AckBytes(sequence);
            && b[0..4] == LeBytes(ACK_MAGIC, 4) && b[0] == 0x4b && b[4] == RECORD_VERSION
            && b[6..14] == LeBytes(sequence, 8) && b[14] == 0xff && b[15] == 0xff
  {
    hide LeBytes, Pow256;
    AckStartsWritten(sequence);
  }

  /** The sequence that is on flash when `k` bytes of its acknowledgement are: the low bytes that got
      there, and ones above them. */
  function TornSequence(sequence: nat, k: nat): (read: int) {
    var p := Pow256(Reached(k, 6, 8));
    sequence % p + U64_LIMIT - p
  }

  lemma {:induction false} OnesValue(w: nat)
    ensures LeValue(Erased(w)) == Pow256(w) - 1
  {
    if w > 0 {
      OnesValue(w - 1);
      assert Erased(w)[1..] == Erased(w - 1);
      assert ValueOf(0xff) == 255;
    }
  }

  lemma LowDigit(n: nat, p: nat)
    requires p > 0
    ensures n % (256 * p) == n % 256 + 256 * (n / 256 % p)
  {
    var q := n / 256;
    DivisionRule(q, p);
    Regrouped(q / p, p);
    DivisionUnique(n, q / p, n % 256 + 256 * (q % p), 256 * p);
  }

  lemma Regrouped(a: nat, p: nat)
    ensures a * (256 * p) == 256 * (a * p)
  {
  }

  /** Some low bytes of a number, filled up with ones. */
  lemma {:induction false} LowBytesThenOnes(n: nat, w: nat, m: nat)
    requires m <= w
    ensures Pow256(m) > 0 && LeValue(LeBytes(n, w)[..m] + Erased(w - m)) == n % Pow256(m) + Pow256(w) - Pow256(m)
    decreases m
  {
    if m == 0 {
      assert LeBytes(n, w)[..m] + Erased(w - m) == Erased(w);
      OnesValue(w);
    } else {
      hide LeBytes, LeValue, Pow256, ByteOf, ValueOf;
      LowBytesThenOnes(n / 256, w - 1, m - 1);
      var rest := LeBytes(n / 256, w - 1)[..m - 1] + Erased(w - m);
      LowBytesSplit(n, w, m);
      LeValueOfFirst(n % 256, rest);
      LowDigit(n, Pow256(m - 1));
      Pow256Step(m);
      Pow256Step(w);
    }
  }

  lemma LowBytesSplit(n: nat, w: nat, m: nat)
    requires 0 < m <= w
    ensures LeBytes(n, w)[..m] + Erased(w - m)
         == [ByteOf(n % 256)] + (LeBytes(n / 256, w - 1)[..m - 1] + Erased(w - m))
  {
    hide ByteOf;
    assert LeBytes(n, w) == [ByteOf(n % 256)] + LeBytes(n / 256, w - 1);
  }

  lemma LeValueOfFirst(digit: nat, rest: seq<byte>)
    requires digit < 256
    ensures LeValue([ByteOf(digit)] + rest) == digit + 256 * LeValue(rest)
  {
    var s := [ByteOf(digit)] + rest;
    assert s[0] == ByteOf(digit) && s[1..] == rest;
  }

  lemma Pow256Step(k: nat)
    requires k > 0
    ensures Pow256(k) == 256 * Pow256(k - 1)
  {
  }

  lemma {:induction false} Pow256Grows(m: nat, w: nat)
    requires m <= w
    ensures Pow256(m) <= Pow256(w)
    decreases w
  {
    if m < w {
      Pow256Grows(m, w - 1);
    }
  }

  /** All eight bytes there: the sequence itself. None: 2^64 - 1. Some: at least 2^63. */
  lemma TornSequenceValues(sequence: nat, k: nat)
    requires sequence < U64_LIMIT
    ensures 0 <= TornSequence(sequence, k) < U64_LIMIT
    ensures k >= ACK_RECORD_LEN ==> TornSequence(sequence, k) == sequence
    ensures k <= 6 ==> TornSequence(sequence, k) == U64_LIMIT - 1
    ensures k < ACK_RECORD_LEN ==> TornSequence(sequence, k) >= U64_LIMIT / 2
  {
    hide Pow256;
    var m := Reached(k, 6, 8);
    Pow256Values();
    Pow256Values3();
    Pow256Zero();
    Pow256Grows(m, 8);
    if m < 8 {
      Pow256Grows(m, 7);
    }
  }

  lemma Pow256Zero()
    ensures Pow256(0) == 1
  {
  }

  lemma {:induction false} RemoveAbsent(pending: seq<StoredRecord>, sequence: nat)
    requires forall i :: 0 <= i < |pending| ==> pending[i].sequence != sequence
    ensures RemoveBySequence(pending, sequence) == pending
  {
    if pending != [] {
      RemoveAbsent(pending[1..], sequence);
    }
  }

  lemma TornAckField(sequence: nat, k: nat, len: nat)
    requires sequence < U64_LIMIT && k <= ENCODED_ACK_RECORD_LEN <= len
    ensures LeValue(View(AckBytes(sequence), k, len)[6..14]) == TornSequence(sequence, k)
  {
    hide LeBytes, LeValue, Pow256, AckBytes;
    var m := Reached(k, 6, 8);
    var b, field := AckBytes(sequence), LeBytes(sequence, 8)[..m] + Erased(8 - m);
    AckBytesParts(sequence);
    var view := View(b, k, len);
    forall i | 0 <= i < 8
      ensures view[6 + i] == field[i]
    {
      assert b[6 + i] == b[6..14][i];
    }
    assert view[6..14] == field;
    LowBytesThenOnes(sequence, 8, m);
    Pow256Values();
  }

  /** The entry that recovery cuts out of a torn acknowledgement with a readable magic. */
  lemma TornAckDecodes(sequence: nat, k: nat, len: nat)
    requires sequence < U64_LIMIT && 4 <= k <= ENCODED_ACK_RECORD_LEN && len >= ENCODED_RECORD_HEADER_LEN
    ensures var view := View(AckBytes(sequence), k, len);
            var entry := view[..ENCODED_ACK_RECORD_LEN];
            && EncodedLogEntryLen(view) == Ok(ENCODED_ACK_RECORD_LEN)
            && LeValue(entry[0..4]) == ACK_MAGIC
            && TornSequence(sequence, k) >= 0
            && DecodeAck(entry) == if k == 4 then Err(UnsupportedVersion) else Ok(TornSequence(sequence, k))
  {
    hide LeBytes, LeValue, Pow256, AckBytes, TornSequence;
    var b := AckBytes(sequence);
    var view := View(b, k, len);
    var entry := view[..ENCODED_ACK_RECORD_LEN];
    AckBytesParts(sequence);
    LeU32(ACK_MAGIC);
    ViewSlice(b, k, len, 0, 4);
    assert entry[0..4] == view[0..4];
    TornAckField(sequence, k, len);
    assert entry[6..14] == view[6..14];
  }

  /** What `k` bytes of an acknowledgement do to the pending records, given room for a header window. */
  function PendingAfterTornAck(pending: seq<StoredRecord>, sequence: nat, k: nat, room: bool): seq<StoredRecord> {
    var read := TornSequence(sequence, k);
    if k >= 5 && room && read >= 0 then RemoveBySequence(pending, read) else pending
  }

  function SeenAfterTornAck(maxSeen: Option<nat>, sequence: nat, k: nat, room: bool): Option<nat> {
    var read := TornSequence(sequence, k);
    if k >= 5 && room && read >= 0 then Some(MaxSequence(maxSeen, read)) else maxSeen
  }

  /** Where recovery ends behind `k` bytes of an acknowledgement at `offset`: it skips a damaged word of
      four bytes, stops in front of an entry it cannot read, and passes one it can. */
  function OffsetAfterTornAck(offset: nat, k: nat, room: bool): nat {
    if !room || k == 0 || k == 4 then offset else if k < 4 then offset + 4 else offset + 16
  }

  function CorruptAfterTornAck(k: nat, room: bool): nat {
    if k == 0 || (room && k >= 5) then 0 else 1
  }

  lemma TornAckReplayedOnErased(cfg: Config, st: State, es: seq<Entry>, k: nat)
    requires Sound(cfg, |st.flash|) && Inv(cfg, st, es, false) && st.queue != []
    requires st.writeOffset + ENCODED_ACK_RECORD_LEN <= |st.flash| && k <= ENCODED_ACK_RECORD_LEN
    ensures st.queue[0].sequence < U64_LIMIT && st.nextSequence > 0
    ensures var sequence := st.queue[0].sequence;
            var recovered := Recover(cfg, Torn(st.flash, st.writeOffset, AckBytes(sequence), k));
            var room := st.writeOffset + ENCODED_RECORD_HEADER_LEN <= |st.flash|;
            && recovered.Ok?
            && recovered.value.0.queue == PendingAfterTornAck(st.queue, sequence, k, room)
            && recovered.value.0.nextSequence
               == CounterAfter(SeenAfterTornAck(Some(st.nextSequence - 1), sequence, k, room))
            && recovered.value.0.writeOffset == OffsetAfterTornAck(st.writeOffset, k, room)
            && recovered.value.1 == CorruptAfterTornAck(k, room)
  {
    hide Inv, Replay, AckBytes, ScanFrom, Recover, EntryBytes, RecordsFit, CounterAfter, PendingAfterTornAck;
    hide SeenAfterTornAck;
    SeenOnLog(cfg, st, es, false);
    InvFacts(cfg, st, es, false);
    FrontFits(cfg, st);
    var e := Ack(st.queue[0].sequence);
    AckEntry(e.sequence);
    ScanReachesTornEntry(cfg, st, es, e, k);
    var flash := Torn(st.flash, st.writeOffset, EntryBytes(e), k);
    var s := Replay(es, cfg.capacity);
    var room := st.writeOffset + ENCODED_RECORD_HEADER_LEN <= |st.flash|;
    TornAckScan(cfg, flash, s, e.sequence, k);
    RecoverFrom(cfg, flash, s, ScanAfterTornAck(s, e.sequence, k, room));
  }

  lemma TailFacts(cfg: Config, st: State, es: seq<Entry>)
    requires Inv(cfg, st, es, true) && st.queue != [] && st.queue[0].sequence < U64_LIMIT
    ensures LogFits(es, MAX_PAYLOAD_LEN) && !Trailing(es, |st.flash|)
    ensures st.writeOffset + ENCODED_ACK_RECORD_LEN <= |st.flash| < st.writeOffset + ENCODED_RECORD_HEADER_LEN
    ensures |LogBytes(es)| == st.writeOffset && LogBytes(es) + AckBytes(st.queue[0].sequence) <= st.flash
  {
    hide LogBytes, Replay, AckBytes, WellFormed, LastRecord, Readable;
  }

  lemma SameBytesAgain(flash: seq<byte>, before: seq<byte>, bytes: seq<byte>, k: nat)
    requires before + bytes <= flash && k <= |bytes|
    ensures Torn(flash, |before|, bytes, k) == flash
  {
    var both := before + bytes;
    assert flash[..|both|] == both;
    assert flash[|before|..|before| + k] == both[|before|..|before| + k] == bytes[..k];
  }

  /** Where a forgotten acknowledgement lies behind the log, writing it again changes no byte. */
  lemma RewrittenAckIsThere(cfg: Config, st: State, es: seq<Entry>, k: nat)
    requires Inv(cfg, st, es, true) && st.queue != [] && st.queue[0].sequence < U64_LIMIT
    requires k <= ENCODED_ACK_RECORD_LEN
    ensures st.writeOffset + ENCODED_ACK_RECORD_LEN <= |st.flash| < st.writeOffset + ENCODED_RECORD_HEADER_LEN
    ensures LogFits(es, MAX_PAYLOAD_LEN) && !Trailing(es, |st.flash|)
    ensures Torn(st.flash, st.writeOffset, AckBytes(st.queue[0].sequence), k) == st.flash
  {
    TailFacts(cfg, st, es);
    hide Inv, LogBytes, AckBytes, Trailing, LogFits, Torn;
    SameBytesAgain(st.flash, LogBytes(es), AckBytes(st.queue[0].sequence), k);
  }

  /** Power loss while acknowledging in place, whatever the sequences: recovery applies the sequence
      that is on flash once the version byte is, given a header window; otherwise nothing happened. */
  lemma {:induction false} TornAckReplayed(cfg: Config, st: State, es: seq<Entry>, tail: bool, k: nat)
    requires Sound(cfg, |st.flash|) && Inv(cfg, st, es, tail) && st.queue != []
    requires st.writeOffset + ENCODED_ACK_RECORD_LEN <= |st.flash| && k <= ENCODED_ACK_RECORD_LEN
    ensures st.queue[0].sequence < U64_LIMIT && st.nextSequence > 0
    ensures var sequence := st.queue[0].sequence;
            var recovered := Recover(cfg, Torn(st.flash, st.writeOffset, AckBytes(sequence), k));
            var room := st.writeOffset + ENCODED_RECORD_HEADER_LEN <= |st.flash|;
            && recovered.Ok?
            && recovered.value.0.queue == PendingAfterTornAck(st.queue, sequence, k, room)
            && recovered.value.0.nextSequence
               == CounterAfter(SeenAfterTornAck(Some(st.nextSequence - 1), sequence, k, room))
            && recovered.value.0.writeOffset == OffsetAfterTornAck(st.writeOffset, k, room)
            && recovered.value.1 == (if tail then 1 else CorruptAfterTornAck(k, room))
  {
    hide Inv, AckBytes, Recover, Torn, TornSequence, CounterAfter;
    if tail {
      TornAckReplayedOnTail(cfg, st, es, k);
    } else {
      TornAckReplayedOnErased(cfg, st, es, k);
    }
  }

  lemma TornAckReplayedOnTail(cfg: Config, st: State, es: seq<Entry>, k: nat)
    requires Sound(cfg, |st.flash|) && Inv(cfg, st, es, true) && st.queue != []
    requires st.writeOffset + ENCODED_ACK_RECORD_LEN <= |st.flash| && k <= ENCODED_ACK_RECORD_LEN
    ensures st.queue[0].sequence < U64_LIMIT && st.nextSequence > 0
    ensures |st.flash| < st.writeOffset + ENCODED_RECORD_HEADER_LEN
    ensures var recovered := Recover(cfg, Torn(st.flash, st.writeOffset, AckBytes(st.queue[0].sequence), k));
            && recovered.Ok?
            && recovered.value.0.queue == st.queue
            && recovered.value.0.nextSequence == CounterAfter(Some(st.nextSequence - 1))
            && recovered.value.0.writeOffset == st.writeOffset && recovered.value.1 == 1
  {
    hide Inv, AckBytes, Recover, RecordsFit, Torn, Trailing, TotalLen, AllBelow, Replay, LogFits, ReadableLog;
    hide CounterAfter;
    PendingNumbers(cfg, st, es, true);
    RewrittenAckIsThere(cfg, st, es, k);
    EmptyLogOffset(cfg, st, es, true);
    var front := RecoveryReplaysState(cfg, st, es, true);
  }

  /** With something pending, the counter is past a sequence and below the wrap. */
  lemma PendingNumbers(cfg: Config, st: State, es: seq<Entry>, tail: bool)
    requires cfg.capacity > 0 && Inv(cfg, st, es, tail) && st.queue != []
    ensures es != [] && st.queue[0].sequence < U64_LIMIT
    ensures 0 < st.nextSequence < U64_LIMIT && CounterAfter(Some(st.nextSequence - 1)) == st.nextSequence
  {
    hide Inv, Replay, CounterAfter, RecordsFit, AllBelow, TotalLen;
    InvFacts(cfg, st, es, tail);
    FrontFits(cfg, st);
    SeenOnLog(cfg, st, es, tail);
    CounterFits(cfg, st, es, tail);
    CounterOfLast(st.nextSequence);
  }

  lemma CounterOfLast(nextSequence: nat)
    requires 0 < nextSequence < U64_LIMIT
    ensures CounterAfter(Some(nextSequence - 1)) == nextSequence
  {
  }

  lemma CounterFits(cfg: Config, st: State, es: seq<Entry>, tail: bool)
    requires Inv(cfg, st, es, tail)
    ensures st.nextSequence < U64_LIMIT
  {
  }

  /** The same while sequences stay below 2^63. The acknowledgement took effect on the queue exactly when
      all 14 of its meaningful bytes and a header window are there; the queue is never anything else.
      But between the version byte and the last sequence byte the recovered counter is the successor of
      a sequence of ones: 0 when no sequence byte got there, else 0 or more than 2^63. */
  lemma {:induction false} TornAcknowledge(cfg: Config, st: State, es: seq<Entry>, tail: bool, k: nat)
    requires Sound(cfg, |st.flash|) && Inv(cfg, st, es, tail)
    requires st.queue != [] && st.nextSequence <= U64_LIMIT / 2
    requires st.writeOffset + ENCODED_ACK_RECORD_LEN <= |st.flash| && k <= ENCODED_ACK_RECORD_LEN
    ensures st.queue[0].sequence < U64_LIMIT
    ensures var sequence := st.queue[0].sequence;
            var recovered := Recover(cfg, Torn(st.flash, st.writeOffset, AckBytes(sequence), k));
            var room := st.writeOffset + ENCODED_RECORD_HEADER_LEN <= |st.flash|;
            && recovered.Ok?
            && AfterTornAck(st, k, room, recovered.value.0)
            && recovered.value.1 == (if tail then 1 else if k == 0 || (room && k >= 5) then 0 else 1)
  {
    hide Inv, AckBytes, Recover, RecordsFit, Torn, TotalLen, AllBelow, PendingAfterTornAck, SeenAfterTornAck;
    hide CounterAfter, TornSequence;
    InvFacts(cfg, st, es, tail);
    FrontFits(cfg, st);
    TornAckReplayed(cfg, st, es, tail, k);
    var room := st.writeOffset + ENCODED_RECORD_HEADER_LEN <= |st.flash|;
    TornAckPending(st.queue, k, room);
    TornAckCounter(st.nextSequence, st.queue[0].sequence, k, room);
  }

  lemma TornAckPending(queue: seq<StoredRecord>, k: nat, room: bool)
    requires queue != [] && Increasing(queue)
    requires forall i :: 0 <= i < |queue| ==> queue[i].sequence < U64_LIMIT / 2
    ensures PendingAfterTornAck(queue, queue[0].sequence, k, room)
         == if k >= ACK_RECORD_LEN && room then queue[1..] else queue
  {
    TornSequenceValues(queue[0].sequence, k);
    hide TornSequence, Increasing;
    if k >= ACK_RECORD_LEN {
      RemoveFront(queue);
    } else {
      RemoveAbsent(queue, TornSequence(queue[0].sequence, k));
    }
  }

  lemma TornAckCounter(nextSequence: nat, sequence: nat, k: nat, room: bool)
    requires sequence < nextSequence <= U64_LIMIT / 2
    ensures var counter := CounterAfter(SeenAfterTornAck(Some(nextSequence - 1), sequence, k, room));
            && (counter == nextSequence <==> k <= 4 || k >= ACK_RECORD_LEN || !room)
            && (5 <= k < ACK_RECORD_LEN && room ==>
                 && counter == (TornSequence(sequence, k) + 1) % U64_LIMIT
                 && (k <= 6 ==> counter == 0)
                 && (counter == 0 || counter > U64_LIMIT / 2))
  {
    TornSequenceValues(sequence, k);
    hide TornSequence;
  }

  /** What recovery may find after `k` bytes of the acknowledgement of the oldest record of `st`. */
  predicate AfterTornAck(st: State, k: nat, room: bool, back: State)
    requires st.queue != []
  {
    && back.queue == (if k >= ACK_RECORD_LEN && room then st.queue[1..] else st.queue)
    && (back.nextSequence == st.nextSequence <==> k <= 4 || k >= ACK_RECORD_LEN || !room)
    && (5 <= k < ACK_RECORD_LEN && room ==>
         && back.nextSequence == (TornSequence(st.queue[0].sequence, k) + 1) % U64_LIMIT
         && (k <= 6 ==> back.nextSequence == 0)
         && (back.nextSequence == 0 || back.nextSequence > U64_LIMIT / 2))
    && back.writeOffset == st.writeOffset + (if !room || k == 0 || k == 4 then 0 else if k < 4 then 4 else 16)
  }

  lemma AckEntry(sequence: nat)
    requires sequence < U64_LIMIT
    ensures EntryBytes(Ack(sequence)) == AckBytes(sequence)
  {
    hide AckBytes;
  }

  lemma FrontFits(cfg: Config, st: State)
    requires Valid(cfg, st) && st.queue != [] && Increasing(st.queue)
    requires st.queue[|st.queue| - 1].sequence == st.nextSequence - 1
    ensures st.queue[0].sequence < U64_LIMIT
    ensures forall i :: 0 <= i < |st.queue| ==> st.queue[i].sequence < st.nextSequence
  {
  }

  /** The scan that has read what `k` bytes of an acknowledgement are. */
  function ScanAfterTornAck(s: Scan, sequence: nat, k: nat, room: bool): Scan {
    Scan(OffsetAfterTornAck(s.cursor, k, room), PendingAfterTornAck(s.pending, sequence, k, room),
         SeenAfterTornAck(s.maxSeen, sequence, k, room), s.corrupt + CorruptAfterTornAck(k, room))
  }

  lemma TornAckCases(s: Scan, sequence: nat, k: nat, room: bool, capacity: nat)
    requires k <= ENCODED_ACK_RECORD_LEN && |s.pending| <= capacity
    ensures var r := ScanAfterTornAck(s, sequence, k, room);
            var read := TornSequence(sequence, k);
            && (k == 0 ==> r == s)
            && (room && 0 < k < 4 ==> r == Corrupted(s).(cursor := s.cursor + 4))
            && (k > 0 && (!room || k == 4) ==> r == Corrupted(s))
            && (room && k > 4 && read >= 0 ==> r == Apply(s, Ack(read), ENCODED_ACK_RECORD_LEN, capacity))
  {
    hide TornSequence;
  }

  lemma TornAckScan(cfg: Config, flash: seq<byte>, s: Scan, sequence: nat, k: nat)
    requires k <= ENCODED_ACK_RECORD_LEN && sequence < U64_LIMIT
    requires s.cursor + ENCODED_ACK_RECORD_LEN <= |flash| && |s.pending| <= cfg.capacity
    requires flash[s.cursor..] == View(AckBytes(sequence), k, |flash| - s.cursor)
    ensures var room := s.cursor + ENCODED_RECORD_HEADER_LEN <= |flash|;
            ScanFrom(flash, cfg.payloadSize, cfg.capacity, s) == Ok(ScanAfterTornAck(s, sequence, k, room))
  {
    hide AckBytes, ScanFrom, TornSequence, ScanAfterTornAck;
    AckBytesParts(sequence);
    var view := View(AckBytes(sequence), k, |flash| - s.cursor);
    TornAckCases(s, sequence, k, s.cursor + ENCODED_RECORD_HEADER_LEN <= |flash|, cfg.capacity);
    if k == 0 {
      ScanStopsAtErased(flash, cfg.payloadSize, cfg.capacity, s);
    } else if k < 4 {
      TornMagic(flash, cfg.payloadSize, cfg.capacity, s, view);
    } else {
      TornAckEntry(cfg, flash, s, sequence, k);
    }
  }

  lemma TornAckEntry(cfg: Config, flash: seq<byte>, s: Scan, sequence: nat, k: nat)
    requires 4 <= k <= ENCODED_ACK_RECORD_LEN && sequence < U64_LIMIT
    requires s.cursor + ENCODED_ACK_RECORD_LEN <= |flash| && |s.pending| <= cfg.capacity
    requires flash[s.cursor..] == View(AckBytes(sequence), k, |flash| - s.cursor)
    ensures var room := s.cursor + ENCODED_RECORD_HEADER_LEN <= |flash|;
            ScanFrom(flash, cfg.payloadSize, cfg.capacity, s) == Ok(ScanAfterTornAck(s, sequence, k, room))
  {
    hide AckBytes, Step, StepEntry, EncodedLogEntryLen, LeValue, DecodeAck, TornSequence, ScanAfterTornAck;
    TornAckCases(s, sequence, k, s.cursor + ENCODED_RECORD_HEADER_LEN <= |flash|, cfg.capacity);
    var len := |flash| - s.cursor;
    var view := View(AckBytes(sequence), k, len);
    AckBytesParts(sequence);
    StepOnView(flash, cfg.payloadSize, cfg.capacity, s, view);
    assert view[0..4][0] == 0x4b;
    if len >= ENCODED_RECORD_HEADER_LEN {
      TornAckDecodes(sequence, k, len);
      var read := TornSequence(sequence, k);
      TornAckStep(view[..ENCODED_ACK_RECORD_LEN], cfg, s, read, k == 4);
      if k > 4 {
        var next := Apply(s, Ack(read), ENCODED_ACK_RECORD_LEN, cfg.capacity);
        assert flash[next.cursor..] == view[ENCODED_ACK_RECORD_LEN..];
        ScanStopsAtErased(flash, cfg.payloadSize, cfg.capacity, next);
      }
    }
  }

  lemma TornAckStep(entry: seq<byte>, cfg: Config, s: Scan, read: nat, damaged: bool)
    requires |entry| == ENCODED_ACK_RECORD_LEN && LeValue(entry[0..4]) == ACK_MAGIC
    requires |s.pending| <= cfg.capacity
    requires DecodeAck(entry) == if damaged then Err(UnsupportedVersion) else Ok(read)
    ensures StepEntry(entry, cfg.payloadSize, cfg.capacity, s)
         == if damaged then Stop(Corrupted(s)) else Continue(Apply(s, Ack(read), ENCODED_ACK_RECORD_LEN, cfg.capacity))
  {
    hide LeValue, DecodeAck, Apply;
  }

  // A torn record.

  /** How many of the first `k` entry bytes belong to the `width` bytes from `at` on. */
  function Reached(k: nat, at: nat, width: nat): (n: nat)
    ensures n <= width
  {
    if k <= at then 0 else Min(k - at, width)
  }

  /** The record that is on flash when `k` bytes of `r` are: missing payload bytes read as 0xff. */
  function TornRecord(r: StoredRecord, k: nat): StoredRecord {
    var n := |r.payload|;
    r.(payload := View(r.payload, Reached(k, RECORD_HEADER_LEN, n), n))
  }

  /** The CRC field that is on flash when `k` bytes of `r` are. */
  function TornCrc(r: StoredRecord, k: nat): bv32 {
    FromLe32(View(Le32(Crc32.Checksum(r.payload)), Reached(k, 18, 4), 4))
  }

  /** The torn record happens to match its torn CRC. */
  predicate TornRecordReadable(r: StoredRecord, k: nat) {
    k >= 18 && Crc32.Checksum(TornRecord(r, k).payload) == TornCrc(r, k)
  }

  const FOUR_ONES: seq<byte> := [0xff, 0xff, 0xff, 0xff]

  /** Four payload bytes are lost for good: when nothing behind the length field reached the flash, the
      erased payload matches the erased CRC field. */
  lemma FourBytesReadAsOnes(r: StoredRecord)
    requires |r.payload| == 4
    ensures TornRecordReadable(r, 18) && TornRecord(r, 18) == r.(payload := FOUR_ONES)
  {
    hide Crc32.Checksum;
    Crc32.FourOnes();
    assert View(r.payload, 0, 4) == FOUR_ONES;
    assert View(Le32(Crc32.Checksum(r.payload)), 0, 4) == FOUR_ONES;
    OnesField();
  }

  lemma OnesField()
    ensures FromLe32(FOUR_ONES) == 0xffff_ffff
  {
  }

  lemma RecordBytesParts(r: StoredRecord)
    requires Encodable(r)
    ensures var b := RecordBytes(r); var n := |r.payload|;
            && b[0..4] == LeBytes(RECORD_MAGIC, 4) && b[0] == 0x53
            && b[4] == RECORD_VERSION && b[5] == r.flags
            && b[6..8] == LeBytes(RECORD_HEADER_LEN, 2) && b[8..16] == LeBytes(r.sequence, 8)
            && b[16..18] == LeBytes(n, 2) && b[18..22] == Le32(Crc32.Checksum(r.payload))
            && b[22..22 + n] == r.payload && AllErased(b[22 + n..])
  {
    hide LeBytes, Pow256, Crc32.Checksum, Le32;
    var h := RecordHeader(r);
    var n := |r.payload|;
    var pad := Erased(EntryLen(n) - RECORD_HEADER_LEN - n);
    assert RecordBytes(r) == h + (r.payload + pad);
    HeaderFields(r);
    LowByte(RECORD_MAGIC, 4);
    Slices(h, r.payload + pad, 0, 4);
    Slices(h, r.payload + pad, 6, 8);
    Slices(h, r.payload + pad, 8, 16);
    Slices(h, r.payload + pad, 16, 18);
    Slices(h, r.payload + pad, 18, 22);
    assert RecordBytes(r)[0] == h[0] == h[0..4][0];
    assert RecordBytes(r)[22 + n..] == pad;
  }

  lemma TwoByteValue(s: seq<byte>)
    requires |s| == 2
    ensures s[1] == 0xff ==> LeValue(s) >= 0xff00
    ensures LeValue(s) < U16_LIMIT
  {
    hide LeValue, Pow256;
    LeValueTopByte(s);
    Pow256Values3();
    LeValueBound(s);
  }

  /** Without both bytes of the length field the entry looks too long to be read. */
  lemma TornLength(view: seq<byte>)
    requires |view| >= ENCODED_RECORD_HEADER_LEN
    requires LeValue(view[0..4]) == RECORD_MAGIC && view[17] == 0xff
    ensures var len := EncodedLogEntryLen(view);
            len.Ok? && len.value > FLASH_ENTRY_BUFFER_LEN
  {
    hide LeValue;
    TwoByteValue(view[16..18]);
    assert EntryLen(LeValue(view[16..18])) >= 0xff00;
  }

  /** With the length field there, the entry is cut out whole and decoded. */
  lemma TornRecordDecodes(r: StoredRecord, k: nat, len: nat, payloadSize: nat)
    requires RecordFits(r, payloadSize) && 18 <= k <= EntryLen(|r.payload|) <= len
    ensures var view := View(RecordBytes(r), k, len);
            var entry := view[..EntryLen(|r.payload|)];
            && EncodedLogEntryLen(view) == Ok(EntryLen(|r.payload|))
            && LeValue(entry[0..4]) == RECORD_MAGIC
            && DecodeRecord(entry) == if TornRecordReadable(r, k) then Ok(TornRecord(r, k)) else Err(BadCrc)
  {
    hide LeBytes, LeValue, Pow256, RecordBytes, Crc32.Checksum, FromLe32, Le32;
    var b := RecordBytes(r);
    var n := |r.payload|;
    var view := View(b, k, len);
    var entry := view[..EntryLen(n)];
    RecordBytesParts(r);
    LeU32(RECORD_MAGIC);
    LeU16(RECORD_HEADER_LEN);
    LeU64(r.sequence);
    LeU16(n);
    assert entry[0..4] == view[0..4] == b[0..4];
    assert view[16..18] == b[16..18];
    assert entry[6..8] == b[6..8] && entry[8..16] == b[8..16] && entry[16..18] == b[16..18];
    TornFields(r, k, len);
  }

  lemma TornFields(r: StoredRecord, k: nat, len: nat)
    requires Encodable(r) && 18 <= k <= EntryLen(|r.payload|) <= len
    ensures var entry := View(RecordBytes(r), k, len)[..EntryLen(|r.payload|)];
            && entry[18..22] == View(Le32(Crc32.Checksum(r.payload)), Reached(k, 18, 4), 4)
            && entry[22..22 + |r.payload|] == TornRecord(r, k).payload
  {
    hide LeBytes, Pow256, RecordBytes, Crc32.Checksum, Le32;
    var b := RecordBytes(r);
    var n := |r.payload|;
    RecordBytesParts(r);
    var entry := View(b, k, len)[..EntryLen(n)];
    var crc := View(Le32(Crc32.Checksum(r.payload)), Reached(k, 18, 4), 4);
    forall i | 0 <= i < 4 ensures entry[18..22][i] == crc[i] { assert b[18 + i] == b[18..22][i]; }
    var torn := TornRecord(r, k).payload;
    forall i | 0 <= i < n ensures entry[22..22 + n][i] == torn[i] { assert b[22 + i] == b[22..22 + n][i]; }
  }

  lemma TornRecordStep(entry: seq<byte>, cfg: Config, s: Scan, r: StoredRecord, k: nat)
    requires |entry| == EntryLen(|r.payload|) && LeValue(entry[0..4]) == RECORD_MAGIC
    requires |s.pending| <= cfg.capacity && RecordFits(r, cfg.payloadSize)
    requires DecodeRecord(entry) == if TornRecordReadable(r, k) then Ok(TornRecord(r, k)) else Err(BadCrc)
    ensures StepEntry(entry, cfg.payloadSize, cfg.capacity, s)
         == if TornRecordReadable(r, k)
            then Continue(Apply(s, Record(TornRecord(r, k)), |entry|, cfg.capacity)) else Stop(Corrupted(s))
  {
    hide LeValue, DecodeRecord, Apply, TornRecordReadable;
  }

  /** The scan that has read what `k` bytes of a record are. */
  function ScanAfterTornRecord(cfg: Config, s: Scan, r: StoredRecord, k: nat): Scan
    requires |s.pending| <= cfg.capacity
  {
    if TornRecordReadable(r, k)
    then Scan(s.cursor + EntryLen(|r.payload|), PushBounded(s.pending, TornRecord(r, k), cfg.capacity),
              Some(MaxSequence(s.maxSeen, r.sequence)), s.corrupt)
    else Scan(if 1 <= k < 4 then s.cursor + 4 else s.cursor, s.pending, s.maxSeen, s.corrupt + if k == 0 then 0 else 1)
  }

  lemma TornRecordCases(cfg: Config, s: Scan, r: StoredRecord, k: nat)
    requires |s.pending| <= cfg.capacity
    ensures var after := ScanAfterTornRecord(cfg, s, r, k);
            && (k == 0 ==> after == s)
            && (0 < k < 4 ==> after == Corrupted(s).(cursor := s.cursor + 4))
            && (k >= 4 && !TornRecordReadable(r, k) ==> after == Corrupted(s))
            && (TornRecordReadable(r, k) ==>
                  k >= 18 && after == Apply(s, Record(TornRecord(r, k)), EntryLen(|r.payload|), cfg.capacity))
  {
    hide PushBounded, TornCrc, Crc32.Checksum;
  }

  lemma TornRecordEntry(cfg: Config, flash: seq<byte>, s: Scan, r: StoredRecord, k: nat)
    requires RecordFits(r, cfg.payloadSize) && 4 <= k <= EntryLen(|r.payload|)
    requires s.cursor + EntryLen(|r.payload|) <= |flash| && |s.pending| <= cfg.capacity
    requires flash[s.cursor..] == View(RecordBytes(r), k, |flash| - s.cursor)
    ensures ScanFrom(flash, cfg.payloadSize, cfg.capacity, s) == Ok(ScanAfterTornRecord(cfg, s, r, k))
  {
    hide LeBytes, Pow256, RecordBytes, Step, StepEntry, EncodedLogEntryLen, LeValue, DecodeRecord, PushBounded;
    hide TornRecord, TornRecordReadable, ScanAfterTornRecord, EntryLen;
    TornRecordCases(cfg, s, r, k);
    EntryLenAtLeastHeader(|r.payload|);
    var len := |flash| - s.cursor;
    var view := View(RecordBytes(r), k, len);
    RecordBytesParts(r);
    StepOnView(flash, cfg.payloadSize, cfg.capacity, s, view);
    assert view[0..4][0] == 0x53;
    LeU32(RECORD_MAGIC);
    assert view[0..4] == RecordBytes(r)[0..4];
    if k < 18 {
      TornLength(view);
    } else {
      TornRecordDecodes(r, k, len, cfg.payloadSize);
      var entry := view[..EntryLen(|r.payload|)];
      TornRecordStep(entry, cfg, s, r, k);
      if TornRecordReadable(r, k) {
        var next := Apply(s, Record(TornRecord(r, k)), |entry|, cfg.capacity);
        assert flash[next.cursor..] == view[EntryLen(|r.payload|)..];
        ScanStopsAtErased(flash, cfg.payloadSize, cfg.capacity, next);
      }
    }
  }

  lemma EntryLenAtLeastHeader(payloadLen: nat)
    ensures EntryLen(payloadLen) >= ENCODED_RECORD_HEADER_LEN
  {
  }

  lemma TornRecordScan(cfg: Config, flash: seq<byte>, s: Scan, r: StoredRecord, k: nat)
    requires RecordFits(r, cfg.payloadSize) && k <= EntryLen(|r.payload|)
    requires s.cursor + EntryLen(|r.payload|) <= |flash| && |s.pending| <= cfg.capacity
    requires flash[s.cursor..] == View(RecordBytes(r), k, |flash| - s.cursor)
    ensures ScanFrom(flash, cfg.payloadSize, cfg.capacity, s) == Ok(ScanAfterTornRecord(cfg, s, r, k))
  {
    hide RecordBytes, ScanFrom, TornRecord, TornRecordReadable, ScanAfterTornRecord, EntryLen;
    TornRecordCases(cfg, s, r, k);
    RecordBytesParts(r);
    EntryLenAtLeastHeader(|r.payload|);
    var view := View(RecordBytes(r), k, |flash| - s.cursor);
    if k == 0 {
      ScanStopsAtErased(flash, cfg.payloadSize, cfg.capacity, s);
    } else if k < 4 {
      TornMagic(flash, cfg.payloadSize, cfg.capacity, s, view);
    } else {
      TornRecordEntry(cfg, flash, s, r, k);
    }
  }

  /** Where a forgotten acknowledgement lies behind the log, no record fits in place any more. */
  lemma TailLeavesNoRoom(cfg: Config, st: State, es: seq<Entry>, tail: bool, r: StoredRecord)
    requires Inv(cfg, st, es, tail) && st.writeOffset + EntryLen(|r.payload|) <= |st.flash|
    ensures !tail
  {
    hide LogBytes, Replay, AckBytes, WellFormed, LastRecord, Readable;
  }

  /** Power loss while appending in place: recovery finds queue and counter from before, or with exactly
      the record on flash appended and its sequence counted, when its payload matches its CRC field. */
  lemma {:induction false} TornAppend(cfg: Config, st: State, es: seq<Entry>, tail: bool, r: StoredRecord, k: nat)
    requires Sound(cfg, |st.flash|) && Inv(cfg, st, es, tail)
    requires RecordFits(r, cfg.payloadSize) && st.writeOffset + EntryLen(|r.payload|) <= |st.flash|
    requires k <= EntryLen(|r.payload|)
    ensures var flash := Torn(st.flash, st.writeOffset, RecordBytes(r), k);
            var recovered := Recover(cfg, flash);
            && recovered.Ok?
            && recovered.value.0.queue
               == (if TornRecordReadable(r, k) then PushBounded(st.queue, TornRecord(r, k), cfg.capacity) else st.queue)
            && recovered.value.0.nextSequence
               == (if !TornRecordReadable(r, k) then (if st.writeOffset == 0 then 0 else st.nextSequence)
                   else if st.writeOffset == 0 || r.sequence >= st.nextSequence then Successor(r.sequence)
                   else st.nextSequence)
            && recovered.value.0.writeOffset
               == st.writeOffset
                  + (if TornRecordReadable(r, k) then EntryLen(|r.payload|) else if 1 <= k < 4 then 4 else 0)
            && recovered.value.1 == (if k == 0 || TornRecordReadable(r, k) then 0 else 1)
  {
    hide Inv, Replay, RecordBytes, Torn, Recover, TornRecordReadable, TornRecord, PushBounded, RecordsFit, EntryLen;
    hide EntryBytes;
    TailLeavesNoRoom(cfg, st, es, tail, r);
    TornAppendRecovered(cfg, st, es, r, k);
    SeenOnLog(cfg, st, es, false);
    EmptyLogOffset(cfg, st, es, false);
    CounterFits(cfg, st, es, false);
    RecordEntry(r, cfg.payloadSize);
    CounterOfAppend(st.nextSequence, r.sequence);
  }

  /** Counting one more sequence: the counter of the larger one. */
  lemma CounterOfAppend(next: nat, sequence: nat)
    ensures CounterAfter(Some(MaxSequence(None, sequence))) == Successor(sequence)
    ensures 0 < next < U64_LIMIT ==>
              CounterAfter(Some(MaxSequence(Some(next - 1), sequence)))
              == if sequence >= next then Successor(sequence) else next
  {
  }

  lemma TornAppendRecovered(cfg: Config, st: State, es: seq<Entry>, r: StoredRecord, k: nat)
    requires Sound(cfg, |st.flash|) && Inv(cfg, st, es, false) && k <= EntryLen(|r.payload|)
    requires RecordFits(r, cfg.payloadSize) && st.writeOffset + EntryLen(|r.payload|) <= |st.flash|
    ensures LogFits(es, MAX_PAYLOAD_LEN)
    ensures var recovered := Recover(cfg, Torn(st.flash, st.writeOffset, RecordBytes(r), k));
            var seen := Replay(es, cfg.capacity).maxSeen;
            && recovered.Ok?
            && recovered.value.0.queue
               == (if TornRecordReadable(r, k) then PushBounded(st.queue, TornRecord(r, k), cfg.capacity) else st.queue)
            && recovered.value.0.nextSequence
               == CounterAfter(if TornRecordReadable(r, k) then Some(MaxSequence(seen, r.sequence)) else seen)
            && recovered.value.0.writeOffset
               == st.writeOffset
                  + (if TornRecordReadable(r, k) then EntryLen(|r.payload|) else if 1 <= k < 4 then 4 else 0)
            && recovered.value.1 == (if k == 0 || TornRecordReadable(r, k) then 0 else 1)
  {
    hide Inv, Replay, RecordBytes, ScanFrom, Recover, Torn, View, TornRecordReadable, TornRecord, PushBounded;
    hide RecordsFit, EntryLen, EntryBytes, CounterAfter, MaxSequence;
    InvFacts(cfg, st, es, false);
    LogOfInv(cfg, st, es, false);
    RecordEntry(r, cfg.payloadSize);
    ScanReachesTornEntry(cfg, st, es, Record(r), k);
    var flash := Torn(st.flash, st.writeOffset, EntryBytes(Record(r)), k);
    var s := Replay(es, cfg.capacity);
    TornRecordScan(cfg, flash, s, r, k);
    RecoverFrom(cfg, flash, s, ScanAfterTornRecord(cfg, s, r, k));
  }

  lemma RecordEntry(r: StoredRecord, payloadSize: nat)
    requires RecordFits(r, payloadSize)
    ensures RecordFits(r, MAX_PAYLOAD_LEN) && EntryBytes(Record(r)) == RecordBytes(r)
  {
    hide RecordBytes;
  }

  /** When at most the last four payload bytes are missing, recovery finds the queue from exactly
      before or exactly after the append, with its counter: the CRC never mistakes the damaged record for a good one. */
  lemma {:induction false} TornAppendTail(cfg: Config, st: State, es: seq<Entry>, tail: bool, r: StoredRecord, k: nat)
    requires Sound(cfg, |st.flash|) && Inv(cfg, st, es, tail)
    requires RecordFits(r, cfg.payloadSize) && st.writeOffset + EntryLen(|r.payload|) <= |st.flash|
    requires RECORD_HEADER_LEN <= k <= EntryLen(|r.payload|) && k + 4 >= RECORD_HEADER_LEN + |r.payload|
    ensures var recovered := Recover(cfg, Torn(st.flash, st.writeOffset, RecordBytes(r), k));
            && recovered.Ok?
            && ((&& recovered.value.0.queue == st.queue
                 && recovered.value.0.nextSequence == (if st.writeOffset == 0 then 0 else st.nextSequence))
                || (&& recovered.value.0.queue == PushBounded(st.queue, r, cfg.capacity)
                    && (r.sequence == st.nextSequence ==> recovered.value.0.nextSequence == Successor(r.sequence))))
  {
    hide Inv, RecordBytes, Recover, PushBounded, Torn, Crc32.Checksum, Le32, FromLe32, Crc32.Run;
    TornAppend(cfg, st, es, tail, r, k);
    var n := |r.payload|;
    var reached := Reached(k, RECORD_HEADER_LEN, n);
    var torn := TornRecord(r, k).payload;
    var crc := Le32(Crc32.Checksum(r.payload));
    assert View(crc, 4, 4) == crc;
    Le32RoundTrip(Crc32.Checksum(r.payload));
    if torn == r.payload {
      assert TornRecord(r, k) == r;
    } else {
      Crc32.BurstDetected(torn, r.payload, reached, reached + 4);
    }
  }
}
