/** The BLE record-transfer frames: the device's codec and the desktop tool's own copy of it. */
module BleProtocol {
  import opened Bytes
  import SpoolCodec

  const PROTOCOL_VERSION: byte := 1
  const MAX_FRAGMENT_PAYLOAD_LEN := 128
  const METADATA_LEN := 17
  const FRAGMENT_HEADER_LEN := 13
  const CONTROL_LEN := 14
  const FRAGMENT_VALUE_LEN := FRAGMENT_HEADER_LEN + MAX_FRAGMENT_PAYLOAD_LEN

  type u16 = n: nat | n < U16_LIMIT
  type u64 = n: nat | n < U64_LIMIT

  datatype ProtocolError =
    | ProtocolBufferTooSmall
    | FragmentTooLarge
    | ProtocolOutOfBounds
    | BadLength
    | UnsupportedProtocolVersion
    | UnknownOpcode

  datatype RecordMetadata = RecordMetadata(
    sequence: u64, payloadLen: u16, payloadFlags: byte, payloadCrc32: bv32, currentBoot: bool)

  datatype RecordFragment = RecordFragment(sequence: u64, offset: u16, totalLen: u16, payload: seq<byte>)

  datatype Opcode = RequestMetadata | RequestFragment | CompleteRecord | AckRecord

  datatype ControlFrame = ControlFrame(opcode: Opcode, sequence: u64, offset: u16, length: u16)

  /** `RecordFragment::new`. */
  function NewFragment(sequence: u64, offset: u16, totalLen: u16, payload: seq<byte>)
    : Result<RecordFragment, ProtocolError>
  {
    if |payload| > MAX_FRAGMENT_PAYLOAD_LEN then Err(FragmentTooLarge)
    else if offset + |payload| > totalLen then Err(ProtocolOutOfBounds)
    else Ok(RecordFragment(sequence, offset, totalLen, payload))
  }

  function OpcodeByte(opcode: Opcode): byte {
    match opcode
    case RequestMetadata => 1
    case RequestFragment => 2
    case CompleteRecord => 3
    case AckRecord => 4
  }

  // Wire formats.

  function MetadataBytes(m: RecordMetadata): (s: seq<byte>)
    ensures |s| == METADATA_LEN
  {
    [PROTOCOL_VERSION] + LeBytes(m.sequence, 8) + LeBytes(m.payloadLen, 2) + [m.payloadFlags]
    + Le32(m.payloadCrc32) + [if m.currentBoot then 1 else 0]
  }

  function FragmentBytes(f: RecordFragment): (s: seq<byte>)
    requires |f.payload| < U16_LIMIT
    ensures |s| == FRAGMENT_HEADER_LEN + |f.payload|
  {
    [PROTOCOL_VERSION] + LeBytes(f.sequence, 8) + LeBytes(f.offset, 2) + LeBytes(|f.payload|, 2) + f.payload
  }

  function ControlBytes(c: ControlFrame): (s: seq<byte>)
    ensures |s| == CONTROL_LEN
  {
    [PROTOCOL_VERSION, OpcodeByte(c.opcode)] + LeBytes(c.sequence, 8) + LeBytes(c.offset, 2) + LeBytes(c.length, 2)
  }

  // The device's encoders write into a caller's buffer.

  method EncodeMetadata(m: RecordMetadata, out: array<byte>) returns (r: Result<nat, ProtocolError>)
    modifies out
    ensures out.Length < METADATA_LEN ==> r == Err(ProtocolBufferTooSmall) && out[..] == old(out[..])
    ensures out.Length >= METADATA_LEN ==>
              r == Ok(METADATA_LEN) && out[..] == MetadataBytes(m) + old(out[METADATA_LEN..])
  {
    hide LeBytes, Le32;
    if out.Length < METADATA_LEN {
      return Err(ProtocolBufferTooSmall);
    }
    ghost var before := out[..];
    ghost var a := [PROTOCOL_VERSION];
    ghost var b := a + LeBytes(m.sequence, 8);
    ghost var c := b + LeBytes(m.payloadLen, 2);
    ghost var d := c + [m.payloadFlags];
    ghost var e := d + Le32(m.payloadCrc32);
    hide SpoolCodec.Filled;
    SpoolCodec.NothingFilled(before);
    SpoolCodec.WriteNext([PROTOCOL_VERSION], out, [], 0, before);
    SpoolCodec.WriteNext(LeBytes(m.sequence, 8), out, a, 1, before);
    SpoolCodec.WriteNext(LeBytes(m.payloadLen, 2), out, b, 9, before);
    SpoolCodec.WriteNext([m.payloadFlags], out, c, 11, before);
    SpoolCodec.WriteNext(Le32(m.payloadCrc32), out, d, 12, before);
    SpoolCodec.WriteNext([if m.currentBoot then 1 else 0], out, e, 16, before);
    SpoolCodec.Whole(out[..], MetadataBytes(m), before, METADATA_LEN);
    return Ok(METADATA_LEN);
  }

  method EncodeFragment(f: RecordFragment, out: array<byte>) returns (r: Result<nat, ProtocolError>)
    requires |f.payload| < U16_LIMIT
    modifies out
    ensures var len := FRAGMENT_HEADER_LEN + |f.payload|;
            if out.Length < len then r == Err(ProtocolBufferTooSmall) && out[..] == old(out[..])
            else r == Ok(len) && out[..] == FragmentBytes(f) + old(out[len..])
  {
    hide LeBytes;
    var len := FRAGMENT_HEADER_LEN + |f.payload|;
    if out.Length < len {
      return Err(ProtocolBufferTooSmall);
    }
    ghost var before := out[..];
    ghost var a := [PROTOCOL_VERSION];
    ghost var b := a + LeBytes(f.sequence, 8);
    ghost var c := b + LeBytes(f.offset, 2);
    ghost var d := c + LeBytes(|f.payload|, 2);
    hide SpoolCodec.Filled;
    SpoolCodec.NothingFilled(before);
    SpoolCodec.WriteNext([PROTOCOL_VERSION], out, [], 0, before);
    SpoolCodec.WriteNext(LeBytes(f.sequence, 8), out, a, 1, before);
    SpoolCodec.WriteNext(LeBytes(f.offset, 2), out, b, 9, before);
    SpoolCodec.WriteNext(LeBytes(|f.payload|, 2), out, c, 11, before);
    SpoolCodec.WriteNext(f.payload, out, d, 13, before);
    SpoolCodec.Whole(out[..], FragmentBytes(f), before, len);
    return Ok(len);
  }

  function DecodeControl(input: seq<byte>): Result<ControlFrame, ProtocolError> {
    if |input| != CONTROL_LEN then Err(BadLength)
    else if input[0] != PROTOCOL_VERSION then Err(UnsupportedProtocolVersion)
    else if !(1 <= input[1] <= 4) then Err(UnknownOpcode)
    else
      var opcode := if input[1] == 1 then RequestMetadata else if input[1] == 2 then RequestFragment
                    else if input[1] == 3 then CompleteRecord else AckRecord;
      LeValueBound(input[2..10]);
      LeValueBound(input[10..12]);
      LeValueBound(input[12..14]);
      Ok(ControlFrame(opcode, LeValue(input[2..10]), LeValue(input[10..12]), LeValue(input[12..14])))
  }

  // The desktop tool's copy.

  datatype ToolMetadata = ToolMetadata(
    version: byte, sequence: nat, payloadLength: nat, flags: byte, crc32: bv32, currentBoot: bool)

  datatype ToolFragment = ToolFragment(version: byte, sequence: nat, offset: nat, payload: seq<byte>)

  method EncodeControlFrame(opcode: byte, sequence: u64, offset: u16, length: u16) returns (frame: array<byte>)
    ensures fresh(frame)
    ensures frame[..] == [PROTOCOL_VERSION, opcode] + LeBytes(sequence, 8) + LeBytes(offset, 2) + LeBytes(length, 2)
  {
    hide LeBytes;
    frame := new byte[14];
    frame[0] := 1;
    frame[1] := opcode;
    SpoolCodec.CopyInto(LeBytes(sequence, 8), frame, 2);
    SpoolCodec.CopyInto(LeBytes(offset, 2), frame, 10);
    SpoolCodec.CopyInto(LeBytes(length, 2), frame, 12);
    assert frame[..] == frame[..2] + frame[2..10] + frame[10..12] + frame[12..14];
  }

  function TryDecodeMetadata(bytes: seq<byte>): Option<ToolMetadata> {
    if |bytes| < 17 || bytes[0] != 1 then None
    else Some(ToolMetadata(bytes[0], LeValue(bytes[1..9]), LeValue(bytes[9..11]), bytes[11],
                           FromLe32(bytes[12..16]), bytes[16] != 0))
  }

  function TryDecodeFragment(bytes: seq<byte>): Option<ToolFragment> {
    if |bytes| < 13 || bytes[0] != 1 then None
    else
      var payloadLen := LeValue(bytes[11..13]);
      if |bytes| < 13 + payloadLen then None
      else Some(ToolFragment(bytes[0], LeValue(bytes[1..9]), LeValue(bytes[9..11]), bytes[13..13 + payloadLen]))
  }

  // Each side reads what the other writes.

  lemma ControlRoundTrip(c: ControlFrame)
    ensures DecodeControl(ControlBytes(c)) == Ok(c)
  {
    hide LeBytes, LeValue;
    var s := ControlBytes(c);
    var a := [PROTOCOL_VERSION, OpcodeByte(c.opcode)] + LeBytes(c.sequence, 8);
    var b := a + LeBytes(c.offset, 2);
    assert s == b + LeBytes(c.length, 2);
    assert s[2..10] == LeBytes(c.sequence, 8);
    assert s[10..12] == LeBytes(c.offset, 2);
    assert s[12..14] == LeBytes(c.length, 2);
    LeU64(c.sequence);
    LeU16(c.offset);
    LeU16(c.length);
  }

  lemma MetadataFields(m: RecordMetadata)
    ensures var s := MetadataBytes(m);
            && s[0] == PROTOCOL_VERSION
            && s[1..9] == LeBytes(m.sequence, 8)
            && s[9..11] == LeBytes(m.payloadLen, 2)
            && s[11] == m.payloadFlags
            && s[12..16] == Le32(m.payloadCrc32)
            && s[16] == if m.currentBoot then 1 else 0
  {
    hide LeBytes, Le32;
    var s := MetadataBytes(m);
    var a := [PROTOCOL_VERSION] + LeBytes(m.sequence, 8);
    var b := a + LeBytes(m.payloadLen, 2);
    var c := b + [m.payloadFlags];
    var d := c + Le32(m.payloadCrc32);
    assert s == d + [if m.currentBoot then 1 else 0];
    assert s[..16] == d && s[..12] == c && s[..11] == b && s[..9] == a;
    assert s[12..16] == d[12..];
    assert s[9..11] == b[9..];
    assert s[1..9] == a[1..];
  }

  lemma MetadataRoundTrip(m: RecordMetadata)
    ensures TryDecodeMetadata(MetadataBytes(m))
         == Some(ToolMetadata(1, m.sequence, m.payloadLen, m.payloadFlags, m.payloadCrc32, m.currentBoot))
  {
    hide LeBytes, LeValue, Le32, FromLe32, MetadataBytes;
    MetadataFields(m);
    LeU64(m.sequence);
    LeU16(m.payloadLen);
    Le32RoundTrip(m.payloadCrc32);
  }

  /** The device pads the fragment value with zeros; the tool reads the declared length. */
  lemma FragmentRoundTrip(f: RecordFragment, padding: seq<byte>)
    requires |f.payload| < U16_LIMIT
    ensures TryDecodeFragment(FragmentBytes(f) + padding)
         == Some(ToolFragment(1, f.sequence, f.offset, f.payload))
  {
    hide LeBytes, LeValue;
    var s := FragmentBytes(f) + padding;
    var a := [PROTOCOL_VERSION] + LeBytes(f.sequence, 8) + LeBytes(f.offset, 2);
    assert s == a + LeBytes(|f.payload|, 2) + (f.payload + padding);
    assert s[1..9] == LeBytes(f.sequence, 8);
    assert s[9..11] == LeBytes(f.offset, 2);
    assert s[11..13] == LeBytes(|f.payload|, 2);
    assert s[13..13 + |f.payload|] == f.payload;
    LeU64(f.sequence);
    LeU16(f.offset);
    LeU16(|f.payload|);
  }
}
