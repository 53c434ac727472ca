/** The two on-flash log entries of the measurement spool: a record with a CRC over its payload,
    and an acknowledgement that carries only a sequence number. */
module SpoolCodec {
  import opened Bytes
  import Crc32

  const RECORD_MAGIC := 0x5345_4d53
  const ACK_MAGIC := 0x5345_414b
  const RECORD_VERSION: byte := 1
  const RECORD_HEADER_LEN := 22
  const ACK_RECORD_LEN := 14
  const FLASH_WRITE_ALIGNMENT := 4
  const ENCODED_RECORD_HEADER_LEN := 24
  const ENCODED_ACK_RECORD_LEN := 16
  const FLASH_ENTRY_BUFFER_LEN := 512
  const MAX_PAYLOAD_LEN := 0xffff

  datatype FlashError = OutOfBounds | UnalignedErase | InvalidEraseRange | WriteRequiresErase

  datatype SpoolError =
    | BufferTooSmall
    | PayloadTooLarge
    | BadMagic
    | UnsupportedVersion
    | BadHeaderLength
    | BadPayloadLength
    | BadCrc
    | Flash(flashError: FlashError)
    | FlashFull

  /** A spooled record. The fixed payload buffer of the program is modelled by its used part. */
  datatype StoredRecord = StoredRecord(sequence: nat, flags: byte, payload: seq<byte>)

  function AlignUp(value: nat, alignment: nat): nat {
    if alignment == 0 then value
    else
      var remainder := value % alignment;
      if remainder == 0 then value else value + (alignment - remainder)
  }

  function EncodedRecordLen(payloadLen: nat): (r: Result<nat, SpoolError>)
  {
    if payloadLen > MAX_PAYLOAD_LEN then Err(PayloadTooLarge)
    else Ok(AlignUp(RECORD_HEADER_LEN + payloadLen, FLASH_WRITE_ALIGNMENT))
  }

  /** The bytes a payload of `payloadLen` bytes occupies in the log. */
  function EntryLen(payloadLen: nat): (n: nat)
    ensures n % FLASH_WRITE_ALIGNMENT == 0
    ensures RECORD_HEADER_LEN + payloadLen <= n < RECORD_HEADER_LEN + payloadLen + FLASH_WRITE_ALIGNMENT
  {
    AlignUp(RECORD_HEADER_LEN + payloadLen, FLASH_WRITE_ALIGNMENT)
  }

  lemma EntryLenMonotone(a: nat, b: nat)
    requires a <= b
    ensures EntryLen(a) <= EntryLen(b)
  {
  }

  function EncodedLogEntryLen(input: seq<byte>): Result<nat, SpoolError> {
    if |input| < 4 then Err(BufferTooSmall)
    else
      var magic := LeValue(input[0..4]);
      if magic == RECORD_MAGIC then
        if |input| < RECORD_HEADER_LEN then Err(BufferTooSmall)
        else EncodedRecordLen(LeValue(input[16..18]))
      else if magic == ACK_MAGIC then Ok(ENCODED_ACK_RECORD_LEN)
      else Err(BadMagic)
  }

  predicate Encodable(r: StoredRecord) {
    |r.payload| <= MAX_PAYLOAD_LEN && r.sequence < U64_LIMIT
  }

  function RecordHeader(r: StoredRecord): (h: seq<byte>)
    requires Encodable(r)
    ensures |h| == RECORD_HEADER_LEN
  {
    LeBytes(RECORD_MAGIC, 4) + [RECORD_VERSION, r.flags] + LeBytes(RECORD_HEADER_LEN, 2)
    + LeBytes(r.sequence, 8) + LeBytes(|r.payload|, 2) + Le32(Crc32.Checksum(r.payload))
  }

  /** The log bytes of a record: header, payload, and erased padding up to the write alignment. */
  function RecordBytes(r: StoredRecord): (s: seq<byte>)
    requires Encodable(r)
    ensures |s| == EntryLen(|r.payload|)
  {
    RecordHeader(r) + r.payload + Erased(EntryLen(|r.payload|) - RECORD_HEADER_LEN - |r.payload|)
  }

  function AckBytes(sequence: nat): (s: seq<byte>)
    requires sequence < U64_LIMIT
    ensures |s| == ENCODED_ACK_RECORD_LEN
  {
    LeBytes(ACK_MAGIC, 4) + [RECORD_VERSION, 0] + LeBytes(sequence, 8) + Erased(2)
  }

  function DecodeRecord(input: seq<byte>): Result<StoredRecord, SpoolError> {
    if |input| < RECORD_HEADER_LEN then Err(BufferTooSmall)
    else if LeValue(input[0..4]) != RECORD_MAGIC then Err(BadMagic)
    else if input[4] != RECORD_VERSION then Err(UnsupportedVersion)
    else
      var headerLen := LeValue(input[6..8]);
      if headerLen != RECORD_HEADER_LEN then Err(BadHeaderLength)
      else
        var sequence := LeValue(input[8..16]);
        var payloadLen := LeValue(input[16..18]);
        var expectedCrc := FromLe32(input[18..22]);
        var end := headerLen + payloadLen;
        if end > |input| then Err(BadPayloadLength)
        else if Crc32.Checksum(input[headerLen..end]) != expectedCrc then Err(BadCrc)
        else Ok(StoredRecord(sequence, input[5], input[headerLen..end]))
  }

  function DecodeAck(input: seq<byte>): Result<nat, SpoolError> {
    if |input| < ACK_RECORD_LEN then Err(BufferTooSmall)
    else if LeValue(input[0..4]) != ACK_MAGIC then Err(BadMagic)
    else if input[4] != RECORD_VERSION then Err(UnsupportedVersion)
    else Ok(LeValue(input[6..14]))
  }

  method CopyInto(source: seq<byte>, out: array<byte>, at: nat)
    requires at + |source| <= out.Length
    modifies out
    ensures out[..] == old(out[..at]) + source + old(out[at + |source|..])
    ensures out[at..at + |source|] == source
    ensures out[..at] == old(out[..at]) && out[at + |source|..] == old(out[at + |source|..])
  {
    forall i | 0 <= i < |source| {
      out[at + i] := source[i];
    }
  }

  /** An encoder's buffer `out`, which was `before`: it starts with `written`, the rest is untouched. */
  ghost predicate Filled(out: seq<byte>, written: seq<byte>, before: seq<byte>) {
    |written| <= |before| && out == written + before[|written|..]
  }

  lemma NothingFilled(before: seq<byte>)
    ensures Filled(before, [], before)
  {
    assert before == [] + before[0..];
  }

  lemma Whole(out: seq<byte>, written: seq<byte>, before: seq<byte>, len: nat)
    requires Filled(out, written, before) && |written| == len
    ensures len <= |before| && out == written + before[len..]
  {
  }

  /** Writes one more field behind those already there. */
  method WriteNext(source: seq<byte>, out: array<byte>, ghost written: seq<byte>, at: nat, ghost before: seq<byte>)
    requires |written| == at && at + |source| <= out.Length == |before|
    requires Filled(out[..], written, before)
    modifies out
    ensures Filled(out[..], written + source, before)
  {
    CopyInto(source, out, at);
  }

  method Header(r: StoredRecord) returns (header: seq<byte>)
    requires Encodable(r)
    ensures header == RecordHeader(r)
  {
    hide Crc32.Checksum, LeBytes, Le32;
    var sum := Crc32.Compute(r.payload);
    return LeBytes(RECORD_MAGIC, 4) + [RECORD_VERSION, r.flags] + LeBytes(RECORD_HEADER_LEN, 2)
           + LeBytes(r.sequence, 8) + LeBytes(|r.payload|, 2) + Le32(sum);
  }

  /** Header, payload and padding of a record that fits. */
  method WriteRecord(r: StoredRecord, out: array<byte>, len: nat)
    requires Encodable(r) && len == EntryLen(|r.payload|) <= out.Length
    modifies out
    ensures out[..] == RecordBytes(r) + old(out[..])[len..]
  {
    hide RecordHeader, EntryLen, Filled;
    ghost var before := out[..];
    var header := Header(r);
    var payloadEnd := RECORD_HEADER_LEN + |r.payload|;
    assert RecordBytes(r) == header + r.payload + Erased(len - payloadEnd);
    hide RecordBytes;
    NothingFilled(before);
    WriteNext(header, out, [], 0, before);
    WriteNext(r.payload, out, header, RECORD_HEADER_LEN, before);
    WriteNext(Erased(len - payloadEnd), out, header + r.payload, payloadEnd, before);
    Whole(out[..], RecordBytes(r), before, len);
  }

  method EncodeRecord(r: StoredRecord, out: array<byte>) returns (result: Result<nat, SpoolError>)
    requires r.sequence < U64_LIMIT
    modifies out
    ensures |r.payload| > MAX_PAYLOAD_LEN ==> result == Err(PayloadTooLarge)
    ensures |r.payload| <= MAX_PAYLOAD_LEN && out.Length < EntryLen(|r.payload|) ==> result == Err(BufferTooSmall)
    ensures |r.payload| <= MAX_PAYLOAD_LEN && out.Length >= EntryLen(|r.payload|) ==>
              result == Ok(EntryLen(|r.payload|))
              && out[..] == RecordBytes(r) + old(out[EntryLen(|r.payload|)..])
    ensures result.Err? ==> out[..] == old(out[..])
  {
    hide RecordBytes;
    var encodedLen := EncodedRecordLen(|r.payload|);
    if encodedLen.Err? {
      return Err(encodedLen.error);
    }
    var len := encodedLen.value;
    if out.Length < len {
      return Err(BufferTooSmall);
    }
    WriteRecord(r, out, len);
    return Ok(len);
  }

  method EncodeAck(sequence: nat, out: array<byte>) returns (result: Result<nat, SpoolError>)
    requires sequence < U64_LIMIT
    modifies out
    ensures out.Length < ENCODED_ACK_RECORD_LEN ==> result == Err(BufferTooSmall) && out[..] == old(out[..])
    ensures out.Length >= ENCODED_ACK_RECORD_LEN ==>
              result == Ok(ENCODED_ACK_RECORD_LEN)
              && out[..] == AckBytes(sequence) + old(out[ENCODED_ACK_RECORD_LEN..])
  {
    hide LeBytes, Pow256;
    if out.Length < ENCODED_ACK_RECORD_LEN {
      return Err(BufferTooSmall);
    }
    ghost var before := out[..];
    ghost var magic := LeBytes(ACK_MAGIC, 4);
    ghost var fixed := magic + [RECORD_VERSION, 0];
    hide Filled;
    NothingFilled(before);
    WriteNext(LeBytes(ACK_MAGIC, 4), out, [], 0, before);
    WriteNext([RECORD_VERSION, 0], out, magic, 4, before);
    WriteNext(LeBytes(sequence, 8), out, fixed, 6, before);
    WriteNext(Erased(2), out, fixed + LeBytes(sequence, 8), ACK_RECORD_LEN, before);
    Whole(out[..], fixed + LeBytes(sequence, 8) + Erased(2), before, ENCODED_ACK_RECORD_LEN);
    return Ok(ENCODED_ACK_RECORD_LEN);
  }

  // Reading back what was written.

  lemma HeaderFields(r: StoredRecord)
    requires Encodable(r)
    ensures var h := RecordHeader(r);
            && h[0..4] == LeBytes(RECORD_MAGIC, 4) && h[4] == RECORD_VERSION && h[5] == r.flags
            && h[6..8] == LeBytes(RECORD_HEADER_LEN, 2) && h[8..16] == LeBytes(r.sequence, 8)
            && h[16..18] == LeBytes(|r.payload|, 2) && h[18..22] == Le32(Crc32.Checksum(r.payload))
  {
    hide Crc32.Checksum, LeBytes, LeValue, Pow256, Le32, FromLe32;
    var a := LeBytes(RECORD_MAGIC, 4);
    var b := a + [RECORD_VERSION, r.flags];
    var c := b + LeBytes(RECORD_HEADER_LEN, 2);
    var d := c + LeBytes(r.sequence, 8);
    var e := d + LeBytes(|r.payload|, 2);
    assert RecordHeader(r) == e + Le32(Crc32.Checksum(r.payload));
  }

  lemma Slices(a: seq<byte>, rest: seq<byte>, lo: nat, hi: nat)
    requires lo <= hi <= |a|
    ensures (a + rest)[lo..hi] == a[lo..hi]
  {
  }

  /** Decoding undoes encoding, whatever follows the entry. */
  lemma {:induction false} RecordRoundTrip(r: StoredRecord, rest: seq<byte>)
    requires Encodable(r)
    ensures DecodeRecord(RecordBytes(r) + rest) == Ok(r)
    ensures EncodedLogEntryLen(RecordBytes(r) + rest) == Ok(|RecordBytes(r)|)
    ensures LeValue((RecordBytes(r) + rest)[0..4]) == RECORD_MAGIC
  {
    hide Crc32.Checksum, LeBytes, LeValue, Pow256, Le32, FromLe32;
    var s := RecordBytes(r) + rest;
    var h := RecordHeader(r);
    var tail := r.payload + Erased(EntryLen(|r.payload|) - RECORD_HEADER_LEN - |r.payload|) + rest;
    assert s == h + tail;
    HeaderFields(r);
    Slices(h, tail, 0, 4);
    Slices(h, tail, 6, 8);
    Slices(h, tail, 8, 16);
    Slices(h, tail, 16, 18);
    Slices(h, tail, 18, 22);
    LeU32(RECORD_MAGIC);
    LeU16(RECORD_HEADER_LEN);
    LeU64(r.sequence);
    LeU16(|r.payload|);
    Le32RoundTrip(Crc32.Checksum(r.payload));
    assert s[RECORD_HEADER_LEN..RECORD_HEADER_LEN + |r.payload|] == r.payload;
  }

  lemma {:induction false} AckRoundTrip(sequence: nat, rest: seq<byte>)
    requires sequence < U64_LIMIT
    ensures DecodeAck(AckBytes(sequence) + rest) == Ok(sequence)
    ensures EncodedLogEntryLen(AckBytes(sequence) + rest) == Ok(ENCODED_ACK_RECORD_LEN)
    ensures LeValue((AckBytes(sequence) + rest)[0..4]) == ACK_MAGIC
  {
    hide LeBytes, LeValue, Pow256;
    var s := AckBytes(sequence) + rest;
    assert s[0..4] == LeBytes(ACK_MAGIC, 4);
    assert s[6..14] == LeBytes(sequence, 8);
    LeU32(ACK_MAGIC);
    LeU64(sequence);
  }

  /** A record whose payload was damaged within four consecutive bytes is never decoded. */
  lemma {:induction false} DamagedPayloadRejected(r: StoredRecord, damaged: seq<byte>, lo: nat, hi: nat,
                                                  rest: seq<byte>)
    requires Encodable(r) && |damaged| == |r.payload| && damaged != r.payload && lo <= hi <= lo + 4
    requires forall i :: 0 <= i < |damaged| && !(lo <= i < hi) ==> damaged[i] == r.payload[i]
    ensures DecodeRecord(RecordHeader(r) + damaged + rest) == Err(BadCrc)
  {
    hide Crc32.Checksum, LeBytes, LeValue, Pow256, Le32, FromLe32, RecordHeader;
    var h, tail := RecordHeader(r), damaged + rest;
    var s := RecordHeader(r) + damaged + rest;
    assert s == h + tail;
    HeaderFields(r);
    Slices(h, tail, 0, 4);
    Slices(h, tail, 6, 8);
    Slices(h, tail, 8, 16);
    Slices(h, tail, 16, 18);
    Slices(h, tail, 18, 22);
    LeU32(RECORD_MAGIC);
    LeU16(RECORD_HEADER_LEN);
    LeU16(|r.payload|);
    Le32RoundTrip(Crc32.Checksum(r.payload));
    assert s[RECORD_HEADER_LEN..RECORD_HEADER_LEN + |damaged|] == damaged;
    Crc32.BurstDetected(damaged, r.payload, lo, hi);
  }

  // The layout on flash, field by field, decides what is decoded.

  lemma MagicBytes()
    ensures LeBytes(RECORD_MAGIC, 4) == [0x53, 0x4d, 0x45, 0x53]
    ensures LeBytes(ACK_MAGIC, 4) == [0x4b, 0x41, 0x45, 0x53]
  {
    assert LeBytes(0x53, 1) == [0x53];
    assert LeBytes(0x5345, 2) == [0x45] + LeBytes(0x53, 1);
    assert LeBytes(0x53_454d, 3) == [0x4d] + LeBytes(0x5345, 2);
    assert LeBytes(0x53_4541, 3) == [0x41] + LeBytes(0x5345, 2);
  }

  predicate RecordLayout(s: seq<byte>, r: StoredRecord)
    requires Encodable(r)
  {
    var n := |r.payload|;
    && |s| >= 22 + n
    && s[0..4] == [0x53, 0x4d, 0x45, 0x53] && s[4] == 1 && s[5] == r.flags && s[6..8] == [22, 0]
    && s[8..16] == LeBytes(r.sequence, 8) && s[16..18] == LeBytes(n, 2)
    && s[18..22] == Le32(Crc32.Checksum(r.payload)) && s[22..22 + n] == r.payload
  }

  predicate AckLayout(s: seq<byte>, sequence: nat) {
    |s| >= 14 && s[0..4] == [0x4b, 0x41, 0x45, 0x53] && s[4] == 1 && s[6..14] == LeBytes(sequence, 8)
  }

  /** A record is written in this layout, padded with at most three erased bytes. */
  lemma RecordIsLaidOut(r: StoredRecord)
    requires Encodable(r)
    ensures var s := RecordBytes(r);
            && RecordLayout(s, r) && |s| <= 25 + |r.payload|
            && forall i :: 22 + |r.payload| <= i < |s| ==> s[i] == 0xff
  {
    hide Crc32.Checksum, LeBytes, Le32, Pow256;
    var h := RecordHeader(r);
    var tail := r.payload + Erased(EntryLen(|r.payload|) - RECORD_HEADER_LEN - |r.payload|);
    assert RecordBytes(r) == h + tail;
    HeaderFields(r);
    MagicBytes();
    TwoBytes(22);
    Slices(h, tail, 0, 4);
    Slices(h, tail, 6, 8);
    Slices(h, tail, 8, 16);
    Slices(h, tail, 16, 18);
    Slices(h, tail, 18, 22);
  }

  lemma TwoBytes(n: nat)
    requires n < 256
    ensures LeBytes(n, 2) == [ByteOf(n), 0] && LeBytes(22, 2) == [22, 0]
  {
    assert LeBytes(0, 1) == [0] + LeBytes(0, 0);
    assert LeBytes(n, 2) == [ByteOf(n % 256)] + LeBytes(n / 256, 1);
    assert LeBytes(22, 2) == [22] + LeBytes(0, 1);
  }

  /** Exactly what is laid out as a record is decoded, and to that record. */
  lemma {:induction false} DecodedAsLaidOut(s: seq<byte>, r: StoredRecord)
    ensures DecodeRecord(s) == Ok(r) <==> Encodable(r) && RecordLayout(s, r)
  {
    hide Crc32.Checksum, LeBytes, LeValue, Le32, FromLe32, Pow256;
    MagicBytes();
    TwoBytes(22);
    LeU16(22);
    LeU32(RECORD_MAGIC);
    if |s| >= RECORD_HEADER_LEN {
      FieldValue(s[0..4]);
      FieldValue(s[6..8]);
      FieldValue(s[8..16]);
      FieldValue(s[16..18]);
      FieldSum(s[18..22], Crc32.Checksum(r.payload));
      if Encodable(r) {
        LeU64(r.sequence);
        LeU16(|r.payload|);
      }
    }
  }

  lemma FieldValue(s: seq<byte>)
    ensures LeBytes(LeValue(s), |s|) == s
    ensures |s| == 2 ==> LeValue(s) < U16_LIMIT
    ensures |s| == 8 ==> LeValue(s) < U64_LIMIT
  {
    LeBytesOfValue(s);
    LeValueBound(s);
  }

  lemma FieldSum(s: seq<byte>, sum: bv32)
    requires |s| == 4
    ensures FromLe32(s) == sum <==> s == Le32(sum)
  {
    hide Le32, FromLe32;
    Le32RoundTrip(sum);
    assert Le32(FromLe32(s)) == s;
  }

  lemma AckIsLaidOut(sequence: nat)
    requires sequence < U64_LIMIT
    ensures var s := AckBytes(sequence);
            AckLayout(s, sequence) && s[5] == 0 && s[14..] == [0xff, 0xff]
  {
    hide LeBytes, Pow256;
    MagicBytes();
    assert AckBytes(sequence)[0..4] == LeBytes(ACK_MAGIC, 4);
    assert AckBytes(sequence)[6..14] == LeBytes(sequence, 8);
  }

  lemma {:induction false} AckDecodedAsLaidOut(s: seq<byte>, sequence: nat)
    ensures DecodeAck(s) == Ok(sequence) <==> sequence < U64_LIMIT && AckLayout(s, sequence)
  {
    hide LeBytes, LeValue, Pow256;
    MagicBytes();
    LeU32(ACK_MAGIC);
    if |s| >= ACK_RECORD_LEN {
      FieldValue(s[0..4]);
      FieldValue(s[6..14]);
      if sequence < U64_LIMIT {
        LeU64(sequence);
      }
    }
  }
}
