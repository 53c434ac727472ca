/** Recovery skips words that are no entry: a log with noise between its entries loses none of them. */
module SpoolNoise {
  import opened Bytes
  import opened SpoolCodec
  import opened SpoolLog
  import opened SpoolSpec
  import SpoolRuns
  import SpoolCrash
  import Crc32

  /** Four bytes that are neither erased nor the first bytes of an entry ("SMES" or "KAES" on flash). */
  predicate IsNoise(word: seq<byte>) {
    && |word| == 4 && word != [0xff, 0xff, 0xff, 0xff]
    && word != [0x53, 0x4d, 0x45, 0x53] && word != [0x4b, 0x41, 0x45, 0x53]
  }

  datatype Piece = Whole(entry: Entry) | Noise(word: seq<byte>)

  predicate PieceFits(p: Piece, payloadSize: nat) {
    match p
    case Whole(e) => EntryFits(e, payloadSize) && EntryFits(e, MAX_PAYLOAD_LEN)
    case Noise(word) => IsNoise(word)
  }

  ghost predicate PiecesFit(ps: seq<Piece>, payloadSize: nat) {
    forall p <- ps :: PieceFits(p, payloadSize)
  }

  function PieceBytes(p: Piece): seq<byte>
    requires PieceFits(p, MAX_PAYLOAD_LEN)
  {
    match p
    case Whole(e) => EntryBytes(e)
    case Noise(word) => word
  }

  ghost function PiecesBytes(ps: seq<Piece>): seq<byte>
    requires PiecesFit(ps, MAX_PAYLOAD_LEN)
  {
    if ps == [] then [] else PiecesBytes(ps[..|ps| - 1]) + PieceBytes(ps[|ps| - 1])
  }

  /** The entries among the pieces, in order. */
  ghost function EntriesOf(ps: seq<Piece>): (es: seq<Entry>)
    requires PiecesFit(ps, MAX_PAYLOAD_LEN)
    ensures LogFits(es, MAX_PAYLOAD_LEN)
  {
    if ps == [] then []
    else
      var last := ps[|ps| - 1];
      assert last in ps && PieceFits(last, MAX_PAYLOAD_LEN);
      EntriesOf(ps[..|ps| - 1]) + if last.Whole? then [last.entry] else []
  }

  ghost function NoiseCount(ps: seq<Piece>): nat {
    if ps == [] then 0 else NoiseCount(ps[..|ps| - 1]) + if ps[|ps| - 1].Noise? then 1 else 0
  }

  /** The scan that has replayed the entries and counted the noise. */
  ghost function ScanOf(ps: seq<Piece>, capacity: nat): Scan
    requires PiecesFit(ps, MAX_PAYLOAD_LEN)
  {
    var s := Replay(EntriesOf(ps), capacity);
    Scan(|PiecesBytes(ps)|, s.pending, s.maxSeen, NoiseCount(ps))
  }

  lemma NoiseIsNoMagic(word: seq<byte>)
    requires IsNoise(word)
    ensures !AllErased(word) && LeValue(word) != RECORD_MAGIC && LeValue(word) != ACK_MAGIC
  {
    hide LeBytes, LeValue;
    MagicBytes();
    LeBytesOfValue(word);
    ErasedWord(word);
  }

  lemma ErasedWord(word: seq<byte>)
    requires |word| == 4
    ensures AllErased(word) ==> word == [0xff, 0xff, 0xff, 0xff]
  {
  }

  lemma ScanSkipsNoise(flash: seq<byte>, payloadSize: nat, capacity: nat, s: Scan, word: seq<byte>)
    requires IsNoise(word) && |s.pending| <= capacity
    requires s.cursor + ENCODED_RECORD_HEADER_LEN <= |flash| && flash[s.cursor..s.cursor + 4] == word
    ensures ScanFrom(flash, payloadSize, capacity, s)
         == ScanFrom(flash, payloadSize, capacity, Scan(s.cursor + 4, s.pending, s.maxSeen, s.corrupt + 1))
  {
    hide LeValue, StepEntry;
    NoiseIsNoMagic(word);
    assert flash[s.cursor..s.cursor + ENCODED_RECORD_HEADER_LEN][0..4] == word;
  }

  /** Every piece has a full header window in front of it. */
  ghost predicate Windowed(ps: seq<Piece>, flashLen: nat)
    requires PiecesFit(ps, MAX_PAYLOAD_LEN)
  {
    ps != [] ==> |PiecesBytes(ps[..|ps| - 1])| + ENCODED_RECORD_HEADER_LEN <= flashLen
  }

  lemma ReplayOneMore(es: seq<Entry>, e: Entry, capacity: nat)
    requires LogFits(es, MAX_PAYLOAD_LEN) && EntryFits(e, MAX_PAYLOAD_LEN)
    ensures LogFits(es + [e], MAX_PAYLOAD_LEN)
    ensures Replay(es + [e], capacity) == Apply(Replay(es, capacity), e, |EntryBytes(e)|, capacity)
  {
    hide EntryBytes, Apply;
    assert (es + [e])[..|es|] == es;
  }

  lemma ScanOneMore(ps: seq<Piece>, p: Piece, capacity: nat)
    requires PiecesFit(ps, MAX_PAYLOAD_LEN) && PieceFits(p, MAX_PAYLOAD_LEN)
    ensures PiecesFit(ps + [p], MAX_PAYLOAD_LEN)
    ensures PiecesBytes(ps + [p]) == PiecesBytes(ps) + PieceBytes(p)
    ensures var s := ScanOf(ps, capacity);
            ScanOf(ps + [p], capacity)
            == if p.Whole? then Apply(s, p.entry, |EntryBytes(p.entry)|, capacity)
               else Scan(s.cursor + 4, s.pending, s.maxSeen, s.corrupt + 1)
  {
    hide EntryBytes, Replay, IsNoise;
    assert (ps + [p])[..|ps|] == ps;
    match p {
      case Whole(e) => ReplayOneMore(EntriesOf(ps), e, capacity);
      case Noise(word) =>
        NoiseLength(word);
        assert EntriesOf(ps + [p]) == EntriesOf(ps);
    }
  }

  /** One more piece: reading it continues the scan. */
  lemma PieceRead(flash: seq<byte>, payloadSize: nat, capacity: nat, ps: seq<Piece>, p: Piece)
    requires PiecesFit(ps, MAX_PAYLOAD_LEN) && PieceFits(p, payloadSize) && PieceFits(p, MAX_PAYLOAD_LEN)
    requires PiecesBytes(ps) + PieceBytes(p) <= flash
    requires |PiecesBytes(ps)| + ENCODED_RECORD_HEADER_LEN <= |flash|
    ensures PiecesFit(ps + [p], MAX_PAYLOAD_LEN)
    ensures |PiecesBytes(ps + [p])| <= |flash|
    ensures ScanFrom(flash, payloadSize, capacity, ScanOf(ps, capacity))
         == ScanFrom(flash, payloadSize, capacity, ScanOf(ps + [p], capacity))
  {
    hide EntryBytes, PieceBytes, PieceFits, ScanFrom, Replay, PiecesFit, PiecesBytes, EntriesOf, NoiseCount, ScanOf;
    hide Apply;
    ScanOneMore(ps, p, capacity);
    StartOfScan(ps, capacity);
    SliceBehind(flash, PiecesBytes(ps), PieceBytes(p));
    ReadFrom(flash, payloadSize, capacity, ScanOf(ps, capacity), p);
  }

  lemma StartOfScan(ps: seq<Piece>, capacity: nat)
    requires PiecesFit(ps, MAX_PAYLOAD_LEN)
    ensures ScanOf(ps, capacity).cursor == |PiecesBytes(ps)| && |ScanOf(ps, capacity).pending| <= capacity
  {
    hide Replay, PiecesBytes, EntriesOf, NoiseCount, PiecesFit;
  }

  lemma ReadFrom(flash: seq<byte>, payloadSize: nat, capacity: nat, s: Scan, p: Piece)
    requires PieceFits(p, payloadSize) && PieceFits(p, MAX_PAYLOAD_LEN) && |s.pending| <= capacity
    requires s.cursor + ENCODED_RECORD_HEADER_LEN <= |flash| && s.cursor + |PieceBytes(p)| <= |flash|
    requires flash[s.cursor..s.cursor + |PieceBytes(p)|] == PieceBytes(p)
    ensures var next := if p.Whole? then Apply(s, p.entry, |EntryBytes(p.entry)|, capacity)
                        else Scan(s.cursor + 4, s.pending, s.maxSeen, s.corrupt + 1);
            next.cursor <= |flash|
            && ScanFrom(flash, payloadSize, capacity, s) == ScanFrom(flash, payloadSize, capacity, next)
  {
    hide EntryBytes, ScanFrom, IsNoise, Apply;
    match p {
      case Whole(e) => ScanReadsEntry(flash, payloadSize, capacity, s, e);
      case Noise(word) => NoiseLength(word); ScanSkipsNoise(flash, payloadSize, capacity, s, word);
    }
  }

  lemma SliceBehind(flash: seq<byte>, before: seq<byte>, bytes: seq<byte>)
    requires before + bytes <= flash
    ensures flash[|before|..|before| + |bytes|] == bytes
  {
    var both := before + bytes;
    assert flash[..|both|] == both;
    assert both[|before|..] == bytes;
  }

  lemma NoiseLength(word: seq<byte>)
    requires IsNoise(word)
    ensures |word| == 4
  {
  }

  lemma {:induction false} ScanReadsPieces(flash: seq<byte>, payloadSize: nat, capacity: nat, ps: seq<Piece>)
    requires PiecesFit(ps, payloadSize) && PiecesFit(ps, MAX_PAYLOAD_LEN)
    requires PiecesBytes(ps) <= flash && Windowed(ps, |flash|)
    ensures ScanFrom(flash, payloadSize, capacity, START)
         == ScanFrom(flash, payloadSize, capacity, ScanOf(ps, capacity))
    decreases |ps|
  {
    hide PieceBytes, PieceFits, ScanFrom, Replay;
    if ps != [] {
      var front, last := ps[..|ps| - 1], ps[|ps| - 1];
      assert ps == front + [last] && last in ps;
      assert PiecesBytes(ps) == PiecesBytes(front) + PieceBytes(last);
      ShorterWindow(front, ps, |flash|);
      ScanReadsPieces(flash, payloadSize, capacity, front);
      PieceRead(flash, payloadSize, capacity, front, last);
    } else {
      NothingRead(capacity);
    }
  }

  lemma NothingRead(capacity: nat)
    ensures ScanOf([], capacity) == START
  {
  }

  lemma ShorterWindow(front: seq<Piece>, ps: seq<Piece>, flashLen: nat)
    requires PiecesFit(ps, MAX_PAYLOAD_LEN) && ps != [] && front == ps[..|ps| - 1] && Windowed(ps, flashLen)
    ensures PiecesFit(front, MAX_PAYLOAD_LEN) && Windowed(front, flashLen)
  {
    hide PieceBytes;
  }

  /** Entries and noise in any order, each with a header window, and erased flash behind them: recovery
      finds what the entries alone give, stands behind the last piece, and counts each noise word. */
  lemma {:induction false} RecoverySkipsNoise(cfg: Config, flash: seq<byte>, ps: seq<Piece>)
    requires EntryLen(cfg.payloadSize) <= FLASH_ENTRY_BUFFER_LEN
    requires PiecesFit(ps, cfg.payloadSize) && PiecesFit(ps, MAX_PAYLOAD_LEN)
    requires PiecesBytes(ps) <= flash && Windowed(ps, |flash|)
    requires forall i :: |PiecesBytes(ps)| <= i < |flash| ==> flash[i] == 0xff
    ensures var s := Replay(EntriesOf(ps), cfg.capacity);
            var next := if s.maxSeen.Some? then (s.maxSeen.value + 1) % U64_LIMIT else 0;
            Recover(cfg, flash) == Ok((State(s.pending, next, |PiecesBytes(ps)|, flash), NoiseCount(ps)))
  {
    hide PiecesBytes, EntriesOf, NoiseCount, ScanFrom, Replay, Windowed, PiecesFit;
    ScanReadsPieces(flash, cfg.payloadSize, cfg.capacity, ps);
    var last := ScanOf(ps, cfg.capacity);
    SpoolRuns.ScanStopsAtErased(flash, cfg.payloadSize, cfg.capacity, last);
    SpoolCrash.RecoverFrom(cfg, flash, last, last);
  }

  /** An acknowledgement torn after three bytes between two records: both come back. */
  lemma {:induction false} RecordBehindNoise(cfg: Config, a: StoredRecord, b: StoredRecord)
    requires EntryLen(cfg.payloadSize) <= FLASH_ENTRY_BUFFER_LEN && cfg.capacity >= 2
    requires RecordFits(a, cfg.payloadSize) && RecordFits(b, cfg.payloadSize) && a.sequence < b.sequence
    ensures Encodable(a) && Encodable(b)
    ensures var log := RecordBytes(a) + [0x4b, 0x41, 0x45, 0xff] + RecordBytes(b);
            Recover(cfg, log) == Ok((State([a, b], (b.sequence + 1) % U64_LIMIT, |log|, log), 1))
  {
    hide RecordBytes, ScanFrom, Recover, EntryLen;
    SpoolCrash.RecordEntry(a, cfg.payloadSize);
    SpoolCrash.RecordEntry(b, cfg.payloadSize);
    SpoolCrash.EntryLenAtLeastHeader(|a.payload|);
    SpoolCrash.EntryLenAtLeastHeader(|b.payload|);
    var p1, p2, p3 := Whole(Record(a)), Noise([0x4b, 0x41, 0x45, 0xff]), Whole(Record(b));
    var log := RecordBytes(a) + [0x4b, 0x41, 0x45, 0xff] + RecordBytes(b);
    ThreePieces(p1, p2, p3, cfg.payloadSize);
    TwoRecords(a, b, cfg.capacity);
    RecoverySkipsNoise(cfg, log, [p1, p2, p3]);
  }

  lemma ThreePieces(p1: Piece, p2: Piece, p3: Piece, payloadSize: nat)
    requires forall p <- [p1, p2, p3] :: PieceFits(p, payloadSize) && PieceFits(p, MAX_PAYLOAD_LEN)
    requires p1.Whole? && p2.Noise? && p3.Whole?
    ensures PiecesFit([p1, p2, p3], payloadSize) && PiecesFit([p1, p2, p3], MAX_PAYLOAD_LEN)
    ensures PiecesFit([p1, p2], MAX_PAYLOAD_LEN)
    ensures PiecesBytes([p1, p2]) == PieceBytes(p1) + PieceBytes(p2)
    ensures PiecesBytes([p1, p2, p3]) == PieceBytes(p1) + PieceBytes(p2) + PieceBytes(p3)
    ensures EntriesOf([p1, p2, p3]) == [p1.entry, p3.entry] && NoiseCount([p1, p2, p3]) == 1
  {
    hide PieceBytes, PieceFits;
    assert [p1, p2, p3][..2] == [p1, p2] && [p1, p2][..1] == [p1] && [p1][..0] == [];
    assert p1 in [p1, p2, p3] && p2 in [p1, p2, p3];
    assert PiecesBytes([p1]) == PieceBytes(p1);
    assert PiecesBytes([p1, p2]) == PieceBytes(p1) + PieceBytes(p2);
    assert EntriesOf([p1]) == [p1.entry] && EntriesOf([p1, p2]) == [p1.entry];
    assert NoiseCount([p1]) == 0 && NoiseCount([p1, p2]) == 1;
  }

  lemma TwoRecords(a: StoredRecord, b: StoredRecord, capacity: nat)
    requires capacity >= 2 && a.sequence < b.sequence
    requires RecordFits(a, MAX_PAYLOAD_LEN) && RecordFits(b, MAX_PAYLOAD_LEN)
    ensures var s := Replay([Record(a), Record(b)], capacity);
            s.pending == [a, b] && s.maxSeen == Some(b.sequence)
  {
    hide EntryBytes;
    ReplayOneMore([], Record(a), capacity);
    ReplayOneMore([Record(a)], Record(b), capacity);
    assert [] + [Record(a)] == [Record(a)] && [Record(a)] + [Record(b)] == [Record(a), Record(b)];
    assert [] + [a] == [a] && [a] + [b] == [a, b];
  }

  // Where recovery refuses or stops.

  /** A payload size the entry buffer cannot hold is refused before the flash is read. */
  lemma RecoverRefusesConfig(cfg: Config, flash: seq<byte>)
    ensures cfg.payloadSize > 0xffff ==> Recover(cfg, flash) == Err(PayloadTooLarge)
    ensures cfg.payloadSize <= 0xffff && EntryLen(cfg.payloadSize) > 512 ==> Recover(cfg, flash) == Err(BufferTooSmall)
  {
    hide ScanFrom, EntryLen;
  }

  /** Behind any readable entries and noise, a good record whose payload exceeds the payload size makes
      recovery fail; one whose payload does not match its checksum ends it there and counts as corrupt. */
  lemma {:induction false} RecordDecides(cfg: Config, flash: seq<byte>, ps: seq<Piece>, r: StoredRecord, sum: bv32)
    requires EntryLen(cfg.payloadSize) <= FLASH_ENTRY_BUFFER_LEN
    requires PiecesFit(ps, cfg.payloadSize) && PiecesFit(ps, MAX_PAYLOAD_LEN) && RecordFits(r, MAX_PAYLOAD_LEN)
    requires var bytes := RecordBytes(r)[..18] + Le32(sum) + RecordBytes(r)[22..];
             PiecesBytes(ps) + bytes <= flash && Windowed(ps, |flash|)
    ensures var s := Replay(EntriesOf(ps), cfg.capacity);
            var next := if s.maxSeen.Some? then (s.maxSeen.value + 1) % U64_LIMIT else 0;
            && (sum == Crc32.Checksum(r.payload) && |r.payload| > cfg.payloadSize ==>
                  Recover(cfg, flash) == Err(BufferTooSmall))
            && (sum != Crc32.Checksum(r.payload) ==>
                  Recover(cfg, flash) == Ok((State(s.pending, next, |PiecesBytes(ps)|, flash), NoiseCount(ps) + 1)))
  {
    hide PiecesBytes, EntriesOf, NoiseCount, ScanFrom, Replay, Windowed, PiecesFit, RecordBytes, Le32;
    hide Crc32.Checksum, ScanOf;
    var bytes := RecordBytes(r)[..18] + Le32(sum) + RecordBytes(r)[22..];
    SpoolCrash.EntryLenAtLeastHeader(|r.payload|);
    StartOfScan(ps, cfg.capacity);
    PrefixOf(flash, PiecesBytes(ps), bytes);
    ScanReadsPieces(flash, cfg.payloadSize, cfg.capacity, ps);
    var s := ScanOf(ps, cfg.capacity);
    ScanIs(ps, cfg.capacity);
    EntryDecides(flash, cfg.payloadSize, cfg.capacity, s, r, sum, bytes);
    if sum != Crc32.Checksum(r.payload) {
      SpoolCrash.RecoverFrom(cfg, flash, s, Corrupted(s));
    }
  }

  lemma PrefixOf(flash: seq<byte>, before: seq<byte>, bytes: seq<byte>)
    requires before + bytes <= flash
    ensures before <= flash && |before| + |bytes| <= |flash| && flash[|before|..|before| + |bytes|] == bytes
  {
    SliceBehind(flash, before, bytes);
    assert flash[..|before|] == (before + bytes)[..|before|] == before;
  }

  lemma ScanIs(ps: seq<Piece>, capacity: nat)
    requires PiecesFit(ps, MAX_PAYLOAD_LEN)
    ensures var s := Replay(EntriesOf(ps), capacity);
            ScanOf(ps, capacity) == Scan(|PiecesBytes(ps)|, s.pending, s.maxSeen, NoiseCount(ps))
  {
    hide PiecesBytes, EntriesOf, NoiseCount, Replay, PiecesFit;
  }

  lemma EntryDecides(flash: seq<byte>, payloadSize: nat, capacity: nat, s: Scan, r: StoredRecord, sum: bv32,
                     bytes: seq<byte>)
    requires |s.pending| <= capacity && RecordFits(r, MAX_PAYLOAD_LEN)
    requires bytes == RecordBytes(r)[..18] + Le32(sum) + RecordBytes(r)[22..]
    requires s.cursor + |bytes| <= |flash| && flash[s.cursor..s.cursor + |bytes|] == bytes
    ensures var end := ScanFrom(flash, payloadSize, capacity, s);
            && (sum == Crc32.Checksum(r.payload) && |r.payload| > payloadSize ==> end == Err(BufferTooSmall))
            && (sum != Crc32.Checksum(r.payload) ==> end == Ok(Corrupted(s)))
  {
    hide RecordBytes, Le32, FromLe32, LeBytes, LeValue, Crc32.Checksum, DecodeRecord, Pow256;
    SpoolCrash.EntryLenAtLeastHeader(|r.payload|);
    RecordIsLaidOut(r);
    var window := flash[s.cursor..s.cursor + ENCODED_RECORD_HEADER_LEN];
    assert window == bytes[..ENCODED_RECORD_HEADER_LEN];
    assert bytes[0..4] == RecordBytes(r)[0..4] && bytes[16..18] == RecordBytes(r)[16..18];
    assert window[0..4] == bytes[0..4] && window[16..18] == bytes[16..18];
    MagicBytes();
    LeU32(RECORD_MAGIC);
    LeU16(|r.payload|);
    DecodedWithSum(r, sum, bytes);
    assert flash[s.cursor..s.cursor + FLASH_WRITE_ALIGNMENT] == bytes[0..4] && bytes[0..4][0] == 0x53;
    assert EncodedLogEntryLen(window) == Ok(|bytes|);
    hide EncodedLogEntryLen, StepEntry;
    var step := Step(flash, payloadSize, capacity, s);
    assert step == StepEntry(bytes, payloadSize, capacity, s);
    StepDecides(payloadSize, capacity, s, r, sum, bytes);
  }

  lemma StepDecides(payloadSize: nat, capacity: nat, s: Scan, r: StoredRecord, sum: bv32, bytes: seq<byte>)
    requires |s.pending| <= capacity && |bytes| >= 4 && LeValue(bytes[0..4]) == RECORD_MAGIC
    requires DecodeRecord(bytes) == if sum == Crc32.Checksum(r.payload) then Ok(r) else Err(BadCrc)
    ensures var step := StepEntry(bytes, payloadSize, capacity, s);
            && (sum == Crc32.Checksum(r.payload) && |r.payload| > payloadSize ==> step == Fail(BufferTooSmall))
            && (sum != Crc32.Checksum(r.payload) ==> step == Stop(Corrupted(s)))
  {
    hide LeValue, DecodeRecord, Crc32.Checksum, Apply;
  }

  lemma DecodedWithSum(r: StoredRecord, sum: bv32, bytes: seq<byte>)
    requires Encodable(r) && bytes == RecordBytes(r)[..18] + Le32(sum) + RecordBytes(r)[22..]
    ensures DecodeRecord(bytes) == if sum == Crc32.Checksum(r.payload) then Ok(r) else Err(BadCrc)
  {
    hide RecordBytes, Le32, FromLe32, LeBytes, LeValue, Crc32.Checksum, Pow256;
    RecordIsLaidOut(r);
    var b := RecordBytes(r);
    assert bytes[0..4] == b[0..4] && bytes[6..8] == b[6..8] && bytes[8..16] == b[8..16] && bytes[16..18] == b[16..18];
    assert bytes[18..22] == Le32(sum) && bytes[22..22 + |r.payload|] == b[22..22 + |r.payload|];
    MagicBytes();
    TwoBytes(22);
    LeU32(RECORD_MAGIC);
    LeU16(22);
    LeU64(r.sequence);
    LeU16(|r.payload|);
    Le32RoundTrip(sum);
  }
}
