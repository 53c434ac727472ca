/** The log on flash as a sequence of entries, and the boot-time scan that replays its bytes. */
module SpoolLog {
  import opened Bytes
  import opened SpoolCodec
  import opened DropOldestQueue

  /** The recovery loop's variables: position, records kept so far, highest sequence seen, and
      the number of corrupt entries. */
  datatype Scan = Scan(cursor: nat, pending: seq<StoredRecord>, maxSeen: Option<nat>, corrupt: nat)

  datatype ScanStep = Continue(scan: Scan) | Stop(scan: Scan) | Fail(error: SpoolError)

  const START := Scan(0, [], None, 0)

  function MaxSequence(current: Option<nat>, sequence: nat): nat {
    if current.Some? && current.value > sequence then current.value else sequence
  }

  /** Removes the first record with the given sequence, if there is one. */
  function RemoveBySequence(pending: seq<StoredRecord>, sequence: nat): (r: seq<StoredRecord>)
    ensures |r| <= |pending|
  {
    if pending == [] then []
    else if pending[0].sequence == sequence then pending[1..]
    else [pending[0]] + RemoveBySequence(pending[1..], sequence)
  }

  /** One pass of the recovery loop over `flash`. */
  function Step(flash: seq<byte>, payloadSize: nat, capacity: nat, s: Scan): (r: ScanStep)
    requires s.cursor + FLASH_WRITE_ALIGNMENT <= |flash| && |s.pending| <= capacity
    ensures r.Continue? ==> s.cursor + FLASH_WRITE_ALIGNMENT <= r.scan.cursor <= |flash|
    ensures r.Continue? || r.Stop? ==> |r.scan.pending| <= capacity && r.scan.cursor <= |flash|
  {
    if AllErased(flash[s.cursor..s.cursor + FLASH_WRITE_ALIGNMENT]) then Stop(s)
    else if s.cursor + ENCODED_RECORD_HEADER_LEN > |flash| then Stop(Corrupted(s))
    else
      match EncodedLogEntryLen(flash[s.cursor..s.cursor + ENCODED_RECORD_HEADER_LEN])
      case Ok(len) =>
        if s.cursor + len <= |flash| && len <= FLASH_ENTRY_BUFFER_LEN
        then StepEntry(flash[s.cursor..s.cursor + len], payloadSize, capacity, s)
        else Stop(Corrupted(s))
      case Err(error) =>
        if error == BadMagic then Continue(Corrupted(s).(cursor := s.cursor + FLASH_WRITE_ALIGNMENT))
        else Stop(Corrupted(s))
  }

  function Corrupted(s: Scan): Scan {
    s.(corrupt := s.corrupt + 1)
  }

  function StepEntry(entry: seq<byte>, payloadSize: nat, capacity: nat, s: Scan): (r: ScanStep)
    requires |s.pending| <= capacity && |entry| >= 4
    ensures r.Continue? ==> r.scan.cursor == s.cursor + |entry|
    ensures r.Stop? ==> r.scan.cursor == s.cursor
    ensures r.Continue? || r.Stop? ==> |r.scan.pending| <= capacity
  {
    if LeValue(entry[0..4]) == RECORD_MAGIC then
      match DecodeRecord(entry)
      case Ok(record) =>
        if |record.payload| > payloadSize then Fail(BufferTooSmall)
        else Continue(Apply(s, Record(record), |entry|, capacity))
      case Err(_) => Stop(Corrupted(s))
    else if LeValue(entry[0..4]) == ACK_MAGIC then
      match DecodeAck(entry)
      case Ok(sequence) => Continue(Apply(s, Ack(sequence), |entry|, capacity))
      case Err(_) => Stop(Corrupted(s))
    else Stop(Corrupted(s))
  }

  /** The whole recovery loop, from `s` on. */
  function ScanFrom(flash: seq<byte>, payloadSize: nat, capacity: nat, s: Scan): (r: Result<Scan, SpoolError>)
    requires s.cursor <= |flash| && |s.pending| <= capacity
    ensures r.Ok? ==> |r.value.pending| <= capacity && r.value.cursor <= |flash|
    decreases |flash| - s.cursor
  {
    if s.cursor + FLASH_WRITE_ALIGNMENT > |flash| then Ok(s)
    else
      match Step(flash, payloadSize, capacity, s)
      case Continue(next) => ScanFrom(flash, payloadSize, capacity, next)
      case Stop(last) => Ok(last)
      case Fail(error) => Err(error)
  }

  // What the writer puts there.

  datatype Entry = Record(record: StoredRecord) | Ack(sequence: nat)

  /** An entry the program can write and read back. */
  predicate EntryFits(e: Entry, payloadSize: nat) {
    match e
    case Record(r) => RecordFits(r, payloadSize)
    case Ack(sequence) => sequence < U64_LIMIT
  }

  predicate RecordFits(r: StoredRecord, payloadSize: nat) {
    && r.sequence < U64_LIMIT
    && |r.payload| <= payloadSize
    && EntryLen(|r.payload|) <= FLASH_ENTRY_BUFFER_LEN
  }

  function EntryBytes(e: Entry): (s: seq<byte>)
    requires EntryFits(e, MAX_PAYLOAD_LEN)
    ensures |s| >= ENCODED_ACK_RECORD_LEN && |s| % FLASH_WRITE_ALIGNMENT == 0
  {
    hide RecordBytes, AckBytes, EntryLen;
    match e
    case Record(r) => RecordBytes(r)
    case Ack(sequence) => AckBytes(sequence)
  }

  ghost predicate LogFits(es: seq<Entry>, payloadSize: nat) {
    forall e <- es :: EntryFits(e, payloadSize) && EntryFits(e, MAX_PAYLOAD_LEN)
  }

  ghost function LogBytes(es: seq<Entry>): (s: seq<byte>)
    requires LogFits(es, MAX_PAYLOAD_LEN)
  {
    if es == [] then [] else LogBytes(es[..|es| - 1]) + EntryBytes(es[|es| - 1])
  }

  /** The effect of reading one entry of `len` bytes. */
  function Apply(s: Scan, e: Entry, len: nat, capacity: nat): (r: Scan)
    requires |s.pending| <= capacity
    ensures |r.pending| <= capacity && r.cursor == s.cursor + len
  {
    match e
    case Record(r) =>
      Scan(s.cursor + len, PushBounded(s.pending, r, capacity), Some(MaxSequence(s.maxSeen, r.sequence)), s.corrupt)
    case Ack(sequence) =>
      Scan(s.cursor + len, RemoveBySequence(s.pending, sequence), Some(MaxSequence(s.maxSeen, sequence)), s.corrupt)
  }

  /** The scan a reader has done once it has consumed exactly the entries `es`. */
  ghost function Replay(es: seq<Entry>, capacity: nat): (s: Scan)
    requires LogFits(es, MAX_PAYLOAD_LEN)
    ensures |s.pending| <= capacity
    ensures s.cursor == |LogBytes(es)| && s.corrupt == 0
  {
    if es == [] then START
    else
      var last := es[|es| - 1];
      Apply(Replay(es[..|es| - 1], capacity), last, |EntryBytes(last)|, capacity)
  }

  // Reading the log gives back its entries.

  lemma ErasedValue(s: seq<byte>)
    requires |s| == 4 && AllErased(s)
    ensures LeValue(s) == 0xffff_ffff
  {
    assert s[1..][1..] == s[2..] && s[2..][1..] == s[3..];
    assert LeValue(s[3..]) == 0xff;
    assert LeValue(s[2..]) == 0xffff;
    assert LeValue(s[1..]) == 0xff_ffff;
  }

  lemma LenFromHeader(input: seq<byte>)
    requires |input| >= ENCODED_RECORD_HEADER_LEN
    ensures EncodedLogEntryLen(input[..ENCODED_RECORD_HEADER_LEN]) == EncodedLogEntryLen(input)
  {
    hide LeValue;
    var h := input[..ENCODED_RECORD_HEADER_LEN];
    assert h[0..4] == input[0..4];
    assert h[16..18] == input[16..18];
  }

  /** One pass over the bytes of an entry with a full header window in front of it. */
  lemma StepReadsEntry(flash: seq<byte>, payloadSize: nat, capacity: nat, s: Scan, e: Entry)
    requires EntryFits(e, payloadSize) && EntryFits(e, MAX_PAYLOAD_LEN)
    requires |s.pending| <= capacity
    requires s.cursor + ENCODED_RECORD_HEADER_LEN <= |flash|
    requires s.cursor + |EntryBytes(e)| <= |flash|
    requires flash[s.cursor..s.cursor + |EntryBytes(e)|] == EntryBytes(e)
    ensures Step(flash, payloadSize, capacity, s) == Continue(Apply(s, e, |EntryBytes(e)|, capacity))
  {
    hide LeValue, LeBytes, Pow256, RecordBytes, AckBytes, DecodeRecord, DecodeAck, EncodedLogEntryLen;
    var len := |EntryBytes(e)|;
    var rest := flash[s.cursor + len..];
    var here := flash[s.cursor..];
    assert here == EntryBytes(e) + rest;
    match e {
      case Record(r) => RecordRoundTrip(r, rest); RecordRoundTrip(r, []);
      case Ack(sequence) => AckRoundTrip(sequence, rest); AckRoundTrip(sequence, []);
    }
    LenFromHeader(here);
    assert flash[s.cursor..s.cursor + ENCODED_RECORD_HEADER_LEN] == here[..ENCODED_RECORD_HEADER_LEN];
    assert EncodedLogEntryLen(here[..ENCODED_RECORD_HEADER_LEN]) == Ok(len);
    var first := flash[s.cursor..s.cursor + FLASH_WRITE_ALIGNMENT];
    assert first == here[0..4];
    if AllErased(first) { ErasedValue(first); }
    assert EntryBytes(e) + [] == EntryBytes(e);
  }

  /** Every entry of a log has a full header window in front of it. */
  ghost predicate Readable(es: seq<Entry>, flashLen: nat)
    requires LogFits(es, MAX_PAYLOAD_LEN)
  {
    es != [] ==> |LogBytes(es[..|es| - 1])| + ENCODED_RECORD_HEADER_LEN <= flashLen
  }

  lemma ScanReadsEntry(flash: seq<byte>, payloadSize: nat, capacity: nat, s: Scan, e: Entry)
    requires EntryFits(e, payloadSize) && EntryFits(e, MAX_PAYLOAD_LEN)
    requires |s.pending| <= capacity
    requires s.cursor + ENCODED_RECORD_HEADER_LEN <= |flash|
    requires s.cursor + |EntryBytes(e)| <= |flash|
    requires flash[s.cursor..s.cursor + |EntryBytes(e)|] == EntryBytes(e)
    ensures ScanFrom(flash, payloadSize, capacity, s)
         == ScanFrom(flash, payloadSize, capacity, Apply(s, e, |EntryBytes(e)|, capacity))
  {
    hide EntryBytes, Step, Apply;
    StepReadsEntry(flash, payloadSize, capacity, s, e);
  }

  /** Replaying the bytes of a log gives the state its entries describe. */
  lemma {:induction false} ScanReadsLog(flash: seq<byte>, payloadSize: nat, capacity: nat, es: seq<Entry>)
    requires LogFits(es, payloadSize)
    requires LogBytes(es) <= flash && Readable(es, |flash|)
    ensures ScanFrom(flash, payloadSize, capacity, START)
            == ScanFrom(flash, payloadSize, capacity, Replay(es, capacity))
    decreases |es|
  {
    hide EntryBytes, ScanFrom, Apply;
    if es != [] {
      var before, last := es[..|es| - 1], es[|es| - 1];
      var s := Replay(before, capacity);
      assert LogBytes(es) == LogBytes(before) + EntryBytes(last);
      ScanReadsLog(flash, payloadSize, capacity, before);
      assert flash[..|LogBytes(es)|] == LogBytes(es);
      assert flash[s.cursor..s.cursor + |EntryBytes(last)|] == EntryBytes(last);
      ScanReadsEntry(flash, payloadSize, capacity, s, last);
    }
  }
}
