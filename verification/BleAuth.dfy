/** The BLE authorization record set on flash: a checksummed header, then fixed-size checksummed
    records with a checksum over all of them. */
module BleAuth {
  import opened Bytes
  import opened FlashModel
  import Crc32
  import SpoolCodec

  const AUTH_HEADER_MAGIC := 0x5345_4241
  const AUTH_HEADER_FORMAT_VERSION := 2
  const AUTH_HEADER_LEN := 32
  const AUTH_RECORD_MAGIC := 0x5345_4252
  const AUTH_RECORD_FORMAT_VERSION := 1
  const AUTH_RECORD_LEN := 64
  const AUTH_RECORD_FLAG_BONDED: byte := 1
  const AUTH_RECORD_FLAG_IRK_PRESENT: byte := 2

  type u16 = n: nat | n < U16_LIMIT
  type u32 = n: nat | n < U32_LIMIT

  type Address = s: seq<byte> | |s| == 6 witness [0, 0, 0, 0, 0, 0]
  type Key = s: seq<byte> | |s| == 16 witness Zeros(16)

  datatype AddressKind = Public | Random

  datatype SecurityLevel = NoEncryption | Encrypted | EncryptedAuthenticated

  datatype AuthRecord = AuthRecord(
    addressKind: AddressKind,
    identityAddress: Address,
    longTermKey: Key,
    identityResolvingKey: Option<Key>,
    securityLevel: SecurityLevel,
    bonded: bool)

  datatype Status =
    | Missing
    | BadMagic
    | UnsupportedFormat(stored: nat, expected: nat)
    | BadHeaderLength(stored: nat, expected: nat)
    | ChecksumMismatch(storedSum: bv32, computedSum: bv32)
    | RecordsVersionMismatch(stored: nat, expected: nat)
    | CompatibilityChecksumMismatch(stored: nat, expected: nat)
    | NoRecords
    | RecordCountTooLarge(stored: nat, capacity: nat)
    | RecordRegionTooLarge
    | RecordSetChecksumMismatch(storedSum: bv32, computedSum: bv32)
    | BadRecordMagic(index: nat)
    | UnsupportedRecordFormat(index: nat, stored: nat, expected: nat)
    | BadRecordLength(index: nat, stored: nat, expected: nat)
    | BadRecordAddressKind(index: nat, code: byte)
    | BadRecordSecurityLevel(index: nat, code: byte)
    | RecordCrcMismatch(index: nat, storedSum: bv32, computedSum: bv32)
    | Valid(recordsVersion: nat, recordCount: nat)

  datatype AuthError =
    | BufferTooSmall
    | TooManyRecords
    | RegionTooLarge
    | UnalignedFlash
    | Flash(flashError: SpoolCodec.FlashError)

  datatype LoadResult = LoadResult(status: Status, recordCount: nat)

  // Records.

  function KindCode(kind: AddressKind): byte {
    match kind
    case Public => 0
    case Random => 1
  }

  function KindOf(code: byte): Option<AddressKind> {
    if code == 0 then Some(Public) else if code == 1 then Some(Random) else None
  }

  function LevelCode(level: SecurityLevel): byte {
    match level
    case NoEncryption => 0
    case Encrypted => 1
    case EncryptedAuthenticated => 2
  }

  function LevelOf(code: byte): Option<SecurityLevel> {
    if code == 0 then Some(NoEncryption) else if code == 1 then Some(Encrypted)
    else if code == 2 then Some(EncryptedAuthenticated) else None
  }

  function FlagsOf(r: AuthRecord): byte {
    (if r.bonded then AUTH_RECORD_FLAG_BONDED else 0)
    | (if r.identityResolvingKey.Some? then AUTH_RECORD_FLAG_IRK_PRESENT else 0)
  }

  lemma FlagBits(r: AuthRecord)
    ensures (FlagsOf(r) & AUTH_RECORD_FLAG_BONDED != 0) == r.bonded
    ensures (FlagsOf(r) & AUTH_RECORD_FLAG_IRK_PRESENT != 0) == r.identityResolvingKey.Some?
  {
  }

  function IrkBytes(r: AuthRecord): (s: seq<byte>)
    ensures |s| == 16
  {
    if r.identityResolvingKey.Some? then r.identityResolvingKey.value else Zeros(16)
  }

  function RecordFixed(r: AuthRecord): (s: seq<byte>)
    ensures |s| == 12
  {
    LeBytes(AUTH_RECORD_MAGIC, 4) + LeBytes(AUTH_RECORD_FORMAT_VERSION, 2) + LeBytes(AUTH_RECORD_LEN, 2)
    + [KindCode(r.addressKind), LevelCode(r.securityLevel), FlagsOf(r), 0]
  }

  /** The 60 bytes of a record that its checksum covers. */
  function RecordBody(r: AuthRecord): (s: seq<byte>)
    ensures |s| == 60
  {
    RecordFixed(r) + r.identityAddress + r.longTermKey + IrkBytes(r) + Zeros(10)
  }

  function RecordBytes(r: AuthRecord): (s: seq<byte>)
    ensures |s| == AUTH_RECORD_LEN
  {
    RecordBody(r) + Le32(Crc32.Checksum(RecordBody(r)))
  }

  function DecodeRecord(input: seq<byte>): Result<AuthRecord, Status> {
    if |input| < AUTH_RECORD_LEN then Err(BadRecordLength(0, |input| % U16_LIMIT, AUTH_RECORD_LEN))
    else
      var storedSum := FromLe32(input[60..64]);
      var computedSum := Crc32.Checksum(input[..60]);
      if storedSum != computedSum then Err(RecordCrcMismatch(0, storedSum, computedSum))
      else if LeValue(input[0..4]) != AUTH_RECORD_MAGIC then Err(BadRecordMagic(0))
      else if LeValue(input[4..6]) != AUTH_RECORD_FORMAT_VERSION
      then Err(UnsupportedRecordFormat(0, LeValue(input[4..6]), AUTH_RECORD_FORMAT_VERSION))
      else if LeValue(input[6..8]) != AUTH_RECORD_LEN
      then Err(BadRecordLength(0, LeValue(input[6..8]), AUTH_RECORD_LEN))
      else if KindOf(input[8]).None? then Err(BadRecordAddressKind(0, input[8]))
      else if LevelOf(input[9]).None? then Err(BadRecordSecurityLevel(0, input[9]))
      else
        var flags := input[10];
        Ok(AuthRecord(
             KindOf(input[8]).value,
             input[12..18],
             input[18..34],
             if flags & AUTH_RECORD_FLAG_IRK_PRESENT != 0 then Some(input[34..50]) else None,
             LevelOf(input[9]).value,
             flags & AUTH_RECORD_FLAG_BONDED != 0))
  }

  function WithRecordIndex(status: Status, index: nat): Status {
    match status
    case BadRecordMagic(_) => BadRecordMagic(index)
    case UnsupportedRecordFormat(_, stored, expected) => UnsupportedRecordFormat(index, stored, expected)
    case BadRecordLength(_, stored, expected) => BadRecordLength(index, stored, expected)
    case BadRecordAddressKind(_, code) => BadRecordAddressKind(index, code)
    case BadRecordSecurityLevel(_, code) => BadRecordSecurityLevel(index, code)
    case RecordCrcMismatch(_, storedSum, computedSum) => RecordCrcMismatch(index, storedSum, computedSum)
    case _ => status
  }

  lemma FixedFields(r: AuthRecord)
    ensures var s := RecordFixed(r);
            && s[0..4] == LeBytes(AUTH_RECORD_MAGIC, 4)
            && s[4..6] == LeBytes(AUTH_RECORD_FORMAT_VERSION, 2)
            && s[6..8] == LeBytes(AUTH_RECORD_LEN, 2)
            && s[8] == KindCode(r.addressKind) && s[9] == LevelCode(r.securityLevel) && s[10] == FlagsOf(r)
  {
    hide LeBytes, KindCode, LevelCode, FlagsOf;
    var a := LeBytes(AUTH_RECORD_MAGIC, 4);
    var b := a + LeBytes(AUTH_RECORD_FORMAT_VERSION, 2);
    var c := b + LeBytes(AUTH_RECORD_LEN, 2);
    var s := RecordFixed(r);
    assert s[..8] == c && c[..6] == b && b[..4] == a;
  }

  lemma BodyFields(r: AuthRecord)
    ensures var s := RecordBody(r);
            && s[..12] == RecordFixed(r) && s[12..18] == r.identityAddress && s[18..34] == r.longTermKey
            && s[34..50] == IrkBytes(r)
  {
    hide RecordFixed, IrkBytes;
    var a := RecordFixed(r) + r.identityAddress;
    var b := a + r.longTermKey;
    var c := b + IrkBytes(r);
    var s := RecordBody(r);
    assert s == c + Zeros(10);
    assert s[..50] == c && c[..34] == b && b[..18] == a;
  }

  lemma RecordFields(r: AuthRecord)
    ensures var s := RecordBytes(r);
            && s[..60] == RecordBody(r) && FromLe32(s[60..64]) == Crc32.Checksum(RecordBody(r))
            && s[..12] == RecordFixed(r) && s[12..18] == r.identityAddress && s[18..34] == r.longTermKey
            && s[34..50] == IrkBytes(r)
  {
    hide RecordFixed, IrkBytes, RecordBody, Le32, FromLe32, Crc32.Checksum;
    var s := RecordBytes(r);
    BodyFields(r);
    assert s[..60] == RecordBody(r);
    assert s[60..64] == Le32(Crc32.Checksum(RecordBody(r)));
    Le32RoundTrip(Crc32.Checksum(RecordBody(r)));
    assert s[..12] == s[..60][..12] && s[12..18] == s[..60][12..18] && s[18..34] == s[..60][18..34]
        && s[34..50] == s[..60][34..50];
  }

  lemma HeadSlices(s: seq<byte>)
    requires |s| >= 12
    ensures s[0..4] == s[..12][0..4] && s[4..6] == s[..12][4..6] && s[6..8] == s[..12][6..8]
    ensures s[8] == s[..12][8] && s[9] == s[..12][9] && s[10] == s[..12][10]
  {
  }

  lemma {:induction false} RecordRoundTrip(r: AuthRecord)
    ensures DecodeRecord(RecordBytes(r)) == Ok(r)
  {
    hide RecordBytes, RecordBody, RecordFixed, LeBytes, LeValue, FromLe32, Crc32.Checksum, FlagsOf;
    RecordFields(r);
    FixedFields(r);
    HeadSlices(RecordBytes(r));
    LeU32(AUTH_RECORD_MAGIC);
    LeU16(AUTH_RECORD_FORMAT_VERSION);
    LeU16(AUTH_RECORD_LEN);
    FlagBits(r);
  }

  /** Encodes into the part `from..to` of a scratch buffer. */
  method EncodeRecord(r: AuthRecord, out: array<byte>, from: nat, to: nat) returns (result: Result<nat, AuthError>)
    requires from <= to <= out.Length
    modifies out
    ensures to - from < AUTH_RECORD_LEN ==> result == Err(BufferTooSmall) && out[..] == old(out[..])
    ensures to - from >= AUTH_RECORD_LEN ==>
              && result == Ok(AUTH_RECORD_LEN)
              && out[..] == old(out[..])[..from] + RecordBytes(r) + old(out[..])[from + AUTH_RECORD_LEN..]
  {
    if to - from < AUTH_RECORD_LEN {
      return Err(BufferTooSmall);
    }
    hide RecordFixed, RecordBody, IrkBytes, Le32, Crc32.Checksum;
    var body := Body(r);
    var checksum := Crc32.Compute(body);
    SpoolCodec.CopyInto(body + Le32(checksum), out, from);
    return Ok(AUTH_RECORD_LEN);
  }

  /** The fields of a record, laid out one behind the other. */
  method Body(r: AuthRecord) returns (body: seq<byte>)
    ensures body == RecordBody(r)
  {
    hide LeBytes;
    var head := LeBytes(AUTH_RECORD_MAGIC, 4) + LeBytes(AUTH_RECORD_FORMAT_VERSION, 2) + LeBytes(AUTH_RECORD_LEN, 2);
    var bondedFlag: byte := if r.bonded then AUTH_RECORD_FLAG_BONDED else 0;
    var irkFlag: byte := if r.identityResolvingKey.Some? then AUTH_RECORD_FLAG_IRK_PRESENT else 0;
    body := head + [KindCode(r.addressKind), LevelCode(r.securityLevel), bondedFlag | irkFlag, 0];
    body := body + r.identityAddress + r.longTermKey;
    match r.identityResolvingKey {
      case Some(irk) => body := body + irk;
      case None => body := body + Zeros(16);
    }
    body := body + Zeros(10);
  }

  // The header.

  function HeaderBody(recordsVersion: u32, recordCount: u16, recordsSum: bv32, compatibility: u32): (s: seq<byte>)
    ensures |s| == 28
  {
    LeBytes(AUTH_HEADER_MAGIC, 4) + LeBytes(AUTH_HEADER_FORMAT_VERSION, 2) + LeBytes(AUTH_HEADER_LEN, 2)
    + LeBytes(recordsVersion, 4) + LeBytes(recordCount, 2) + Zeros(2) + Le32(recordsSum) + LeBytes(compatibility, 4)
    + Zeros(4)
  }

  function HeaderBytes(recordsVersion: u32, recordCount: u16, recordsSum: bv32, compatibility: u32): (s: seq<byte>)
    ensures |s| == AUTH_HEADER_LEN
  {
    var body := HeaderBody(recordsVersion, recordCount, recordsSum, compatibility);
    body + Le32(Crc32.Checksum(body))
  }

  function InspectHeader(input: seq<byte>, expectedVersion: u32, expectedCompatibility: u32): Status {
    if |input| < AUTH_HEADER_LEN then BadHeaderLength(|input| % U16_LIMIT, AUTH_HEADER_LEN)
    else if AllErased(input[..AUTH_HEADER_LEN]) then Missing
    else if LeValue(input[0..4]) != AUTH_HEADER_MAGIC then BadMagic
    else if LeValue(input[4..6]) != AUTH_HEADER_FORMAT_VERSION
    then UnsupportedFormat(LeValue(input[4..6]), AUTH_HEADER_FORMAT_VERSION)
    else if LeValue(input[6..8]) != AUTH_HEADER_LEN then BadHeaderLength(LeValue(input[6..8]), AUTH_HEADER_LEN)
    else if FromLe32(input[28..32]) != Crc32.Checksum(input[..28])
    then ChecksumMismatch(FromLe32(input[28..32]), Crc32.Checksum(input[..28]))
    else if LeValue(input[8..12]) != expectedVersion
    then RecordsVersionMismatch(LeValue(input[8..12]), expectedVersion)
    else if LeValue(input[20..24]) != expectedCompatibility
    then CompatibilityChecksumMismatch(LeValue(input[20..24]), expectedCompatibility)
    else if LeValue(input[12..14]) == 0 then NoRecords
    else Valid(LeValue(input[8..12]), LeValue(input[12..14]))
  }

  lemma HeaderBodyFields(v: u32, n: u16, sum: bv32, c: u32)
    ensures var s := HeaderBody(v, n, sum, c);
            && s[0..4] == LeBytes(AUTH_HEADER_MAGIC, 4) && s[4..6] == LeBytes(AUTH_HEADER_FORMAT_VERSION, 2)
            && s[6..8] == LeBytes(AUTH_HEADER_LEN, 2) && s[8..12] == LeBytes(v, 4) && s[12..14] == LeBytes(n, 2)
            && s[16..20] == Le32(sum) && s[20..24] == LeBytes(c, 4)
  {
    hide LeBytes, Le32;
    var p4 := LeBytes(AUTH_HEADER_MAGIC, 4);
    var p6 := p4 + LeBytes(AUTH_HEADER_FORMAT_VERSION, 2);
    var p8 := p6 + LeBytes(AUTH_HEADER_LEN, 2);
    var p12 := p8 + LeBytes(v, 4);
    var p14 := p12 + LeBytes(n, 2);
    var p16 := p14 + Zeros(2);
    var p20 := p16 + Le32(sum);
    var p24 := p20 + LeBytes(c, 4);
    var s := HeaderBody(v, n, sum, c);
    assert s == p24 + Zeros(4);
    assert s[..24] == p24 && p24[..20] == p20 && p20[..16] == p16 && p16[..14] == p14;
    assert p14[..12] == p12 && p12[..8] == p8 && p8[..6] == p6 && p6[..4] == p4;
  }

  lemma HeaderFields(v: u32, n: u16, sum: bv32, c: u32)
    ensures var s := HeaderBytes(v, n, sum, c);
            && s[..28] == HeaderBody(v, n, sum, c)
            && FromLe32(s[28..32]) == Crc32.Checksum(HeaderBody(v, n, sum, c))
            && LeValue(s[0..4]) == AUTH_HEADER_MAGIC && LeValue(s[4..6]) == AUTH_HEADER_FORMAT_VERSION
            && LeValue(s[6..8]) == AUTH_HEADER_LEN && LeValue(s[8..12]) == v && LeValue(s[12..14]) == n
            && FromLe32(s[16..20]) == sum && LeValue(s[20..24]) == c
  {
    hide LeBytes, LeValue, Le32, FromLe32, HeaderBody, Crc32.Checksum;
    var s, body := HeaderBytes(v, n, sum, c), HeaderBody(v, n, sum, c);
    HeaderBodyFields(v, n, sum, c);
    assert s[..28] == body;
    assert s[28..32] == Le32(Crc32.Checksum(body));
    assert s[0..4] == body[0..4] && s[4..6] == body[4..6] && s[6..8] == body[6..8] && s[8..12] == body[8..12];
    assert s[12..14] == body[12..14] && s[16..20] == body[16..20] && s[20..24] == body[20..24];
    Le32RoundTrip(Crc32.Checksum(body));
    Le32RoundTrip(sum);
    HeaderNumbers(v, n, c);
  }

  lemma HeaderNumbers(v: u32, n: u16, c: u32)
    ensures LeValue(LeBytes(AUTH_HEADER_MAGIC, 4)) == AUTH_HEADER_MAGIC
    ensures LeValue(LeBytes(AUTH_HEADER_FORMAT_VERSION, 2)) == AUTH_HEADER_FORMAT_VERSION
    ensures LeValue(LeBytes(AUTH_HEADER_LEN, 2)) == AUTH_HEADER_LEN
    ensures LeValue(LeBytes(v, 4)) == v && LeValue(LeBytes(n, 2)) == n && LeValue(LeBytes(c, 4)) == c
  {
    hide LeBytes, LeValue;
    LeU32(AUTH_HEADER_MAGIC);
    LeU16(AUTH_HEADER_FORMAT_VERSION);
    LeU16(AUTH_HEADER_LEN);
    LeU32(v);
    LeU16(n);
    LeU32(c);
  }

  /** An erased header does not carry the magic. */
  lemma ErasedHasNoMagic(s: seq<byte>)
    requires |s| >= AUTH_HEADER_LEN
    ensures AllErased(s[..AUTH_HEADER_LEN]) ==> LeValue(s[0..4]) != AUTH_HEADER_MAGIC
  {
    if AllErased(s[..AUTH_HEADER_LEN]) {
      hide LeValue;
      ErasedValue();
      assert forall i :: 0 <= i < 4 ==> s[i] == s[..AUTH_HEADER_LEN][i];
      assert s[0..4] == [0xff, 0xff, 0xff, 0xff];
    }
  }

  lemma ErasedValue()
    ensures LeValue([0xff, 0xff, 0xff, 0xff]) != AUTH_HEADER_MAGIC
  {
    var top: seq<byte> := [0xff, 0xff, 0xff, 0xff];
    assert ValueOf(0xff) == 255;
    LeValueTopByte(top);
    assert Pow256(3) == 0x100_0000;
  }

  /** Inspecting a header that was encoded gives back what was encoded. */
  lemma {:induction false} HeaderRoundTrip(v: u32, n: u16, sum: bv32, c: u32, expectedVersion: u32,
                                           expectedCompatibility: u32)
    ensures InspectHeader(HeaderBytes(v, n, sum, c), expectedVersion, expectedCompatibility)
            == if v != expectedVersion then RecordsVersionMismatch(v, expectedVersion)
               else if c != expectedCompatibility then CompatibilityChecksumMismatch(c, expectedCompatibility)
               else if n == 0 then NoRecords
               else Valid(v, n)
  {
    hide HeaderBytes, HeaderBody, LeValue, FromLe32, Crc32.Checksum, AllErased;
    HeaderFields(v, n, sum, c);
    ErasedHasNoMagic(HeaderBytes(v, n, sum, c));
  }

  // The record set.

  function SetBytes(records: seq<AuthRecord>): (s: seq<byte>)
    ensures |s| == |records| * AUTH_RECORD_LEN
  {
    if records == [] then [] else SetBytes(records[..|records| - 1]) + RecordBytes(records[|records| - 1])
  }

  /** What a store leaves at the start of the region. */
  function Image(recordsVersion: u32, compatibility: u32, records: seq<AuthRecord>): (s: seq<byte>)
    requires |records| < U16_LIMIT
    ensures |s| == AUTH_HEADER_LEN + |records| * AUTH_RECORD_LEN
  {
    HeaderBytes(recordsVersion, |records|, Crc32.Checksum(SetBytes(records)), compatibility) + SetBytes(records)
  }

  /** Decodes the first `n` records; the first bad one decides the status. */
  function DecodeFirst(bytes: seq<byte>, n: nat): (r: Result<seq<AuthRecord>, Status>)
    requires |bytes| >= n * AUTH_RECORD_LEN
    ensures r.Ok? ==> |r.value| == n
  {
    if n == 0 then Ok([])
    else
      match DecodeFirst(bytes, n - 1)
      case Err(status) => Err(status)
      case Ok(records) =>
        match DecodeRecord(bytes[(n - 1) * AUTH_RECORD_LEN..n * AUTH_RECORD_LEN])
        case Err(status) => Err(WithRecordIndex(status, Min(n - 1, U16_LIMIT - 1)))
        case Ok(record) => Ok(records + [record])
  }

  lemma SetStep(front: seq<AuthRecord>, last: AuthRecord)
    ensures SetBytes(front + [last]) == SetBytes(front) + RecordBytes(last)
  {
    hide RecordBytes;
    assert (front + [last])[..|front|] == front;
  }

  lemma DecodeStep(bytes: seq<byte>, n: nat, front: seq<AuthRecord>, last: AuthRecord)
    requires |bytes| >= (n + 1) * AUTH_RECORD_LEN
    requires DecodeFirst(bytes, n) == Ok(front)
    requires bytes[n * AUTH_RECORD_LEN..(n + 1) * AUTH_RECORD_LEN] == RecordBytes(last)
    ensures DecodeFirst(bytes, n + 1) == Ok(front + [last])
  {
    hide RecordBytes, DecodeRecord;
    RecordRoundTrip(last);
  }

  lemma {:induction false} SetRoundTrip(records: seq<AuthRecord>, rest: seq<byte>)
    ensures DecodeFirst(SetBytes(records) + rest, |records|) == Ok(records)
    decreases |records|
  {
    hide RecordBytes, SetBytes, DecodeFirst;
    if records == [] {
      NothingDecoded(SetBytes(records) + rest);
    } else {
      var n := |records| - 1;
      var front, last := records[..n], records[n];
      SetRoundTrip(front, RecordBytes(last) + rest);
      assert records == front + [last];
      LastOfSet(front, last, rest);
      DecodeStep(SetBytes(records) + rest, n, front, last);
    }
  }

  lemma NothingDecoded(bytes: seq<byte>)
    ensures DecodeFirst(bytes, 0) == Ok([])
  {
  }

  lemma LastOfSet(front: seq<AuthRecord>, last: AuthRecord, rest: seq<byte>)
    ensures var n := |front|;
            var bytes := SetBytes(front + [last]) + rest;
            && bytes == SetBytes(front) + (RecordBytes(last) + rest)
            && |bytes| >= (n + 1) * AUTH_RECORD_LEN
            && bytes[n * AUTH_RECORD_LEN..(n + 1) * AUTH_RECORD_LEN] == RecordBytes(last)
  {
    SetStep(front, last);
    hide RecordBytes, SetBytes;
    MiddleOf(SetBytes(front), RecordBytes(last), rest, |front|);
  }

  lemma MiddleOf(a: seq<byte>, b: seq<byte>, c: seq<byte>, n: nat)
    requires |a| == n * AUTH_RECORD_LEN && |b| == AUTH_RECORD_LEN
    ensures a + b + c == a + (b + c)
    ensures (a + b + c)[n * AUTH_RECORD_LEN..(n + 1) * AUTH_RECORD_LEN] == b
  {
    SliceOfConcat(a, b, c);
  }

  // Loading.

  /** What loading the region's bytes gives. */
  function Load(flash: seq<byte>, expectedVersion: u32, expectedCompatibility: u32, capacity: nat, scratchLen: nat)
    : Result<(LoadResult, seq<AuthRecord>), AuthError>
  {
    if |flash| < AUTH_HEADER_LEN then Err(Flash(SpoolCodec.OutOfBounds))
    else
      var header := flash[..AUTH_HEADER_LEN];
      var status := InspectHeader(header, expectedVersion, expectedCompatibility);
      if !status.Valid? then Ok((LoadResult(status, 0), []))
      else
        var count := status.recordCount;
        var recordsLen := count * AUTH_RECORD_LEN;
        if count > capacity then Ok((LoadResult(RecordCountTooLarge(count, Min(capacity, U16_LIMIT - 1)), 0), []))
        else if AUTH_HEADER_LEN + recordsLen > |flash| then Ok((LoadResult(RecordRegionTooLarge, 0), []))
        else if scratchLen < recordsLen then Err(BufferTooSmall)
        else
          Ok(Checked(flash[AUTH_HEADER_LEN..AUTH_HEADER_LEN + recordsLen], FromLe32(header[16..20]), status))
  }

  /** What the record bytes behind a valid header load as. */
  function Checked(bytes: seq<byte>, storedSum: bv32, status: Status): (LoadResult, seq<AuthRecord>)
    requires status.Valid? && |bytes| == status.recordCount * AUTH_RECORD_LEN
  {
    var computedSum := Crc32.Checksum(bytes);
    if storedSum != computedSum then (LoadResult(RecordSetChecksumMismatch(storedSum, computedSum), 0), [])
    else
      match DecodeFirst(bytes, status.recordCount)
      case Err(bad) => (LoadResult(bad, 0), [])
      case Ok(records) => (LoadResult(status, status.recordCount), records)
  }

  method LoadChecked(bytes: seq<byte>, storedSum: bv32, status: Status, recordsOut: array<AuthRecord>)
    returns (r: LoadResult)
    requires status.Valid? && |bytes| == status.recordCount * AUTH_RECORD_LEN
    requires status.recordCount <= recordsOut.Length
    modifies recordsOut
    ensures var (result, records) := Checked(bytes, storedSum, status);
            && r == result && result.recordCount == |records| <= recordsOut.Length
            && recordsOut[..|records|] == records
            && (result.status.Valid? ==> recordsOut[|records|..] == old(recordsOut[|records|..]))
  {
    hide DecodeFirst, Crc32.Checksum;
    var computedSum := Crc32.Compute(bytes);
    if storedSum != computedSum {
      return LoadResult(RecordSetChecksumMismatch(storedSum, computedSum), 0);
    }
    NoValidFailure(bytes, status.recordCount);
    var bad := DecodeInto(bytes, status.recordCount, recordsOut);
    if bad.Some? {
      return LoadResult(bad.value, 0);
    }
    return LoadResult(status, status.recordCount);
  }

  /** No record fails with the status of a valid header. */
  lemma {:induction false} NoValidFailure(bytes: seq<byte>, n: nat)
    requires |bytes| >= n * AUTH_RECORD_LEN
    ensures DecodeFirst(bytes, n).Err? ==> !DecodeFirst(bytes, n).error.Valid?
  {
    hide LeValue, FromLe32, Crc32.Checksum;
    if n > 0 {
      NoValidFailure(bytes, n - 1);
    }
  }

  method LoadAuthRecords(flash: InMemoryFlash, expectedVersion: u32, expectedCompatibility: u32,
                         recordsOut: array<AuthRecord>, scratch: array<byte>)
    returns (r: Result<LoadResult, AuthError>)
    requires scratch != flash.data && (recordsOut as object) !in {flash.data as object, scratch as object}
    modifies recordsOut, scratch
    ensures var loaded :=
              Load(flash.data[..], expectedVersion, expectedCompatibility, recordsOut.Length, scratch.Length);
            match loaded
            case Err(error) => r == Err(error) && recordsOut[..] == old(recordsOut[..])
            case Ok((result, records)) =>
              r == Ok(result) && result.recordCount == |records| <= recordsOut.Length
              && recordsOut[..|records|] == records
              && (result.status.Valid? ==> recordsOut[|records|..] == old(recordsOut[|records|..]))
  {
    hide InspectHeader, Checked, FromLe32;
    ghost var image := flash.data[..];
    var header := flash.Read(0, AUTH_HEADER_LEN);
    if header.Err? {
      return Err(Flash(header.error));
    }
    assert header.value == image[..AUTH_HEADER_LEN];
    var status := InspectHeader(header.value, expectedVersion, expectedCompatibility);
    if !status.Valid? {
      return Ok(LoadResult(status, 0));
    }
    var count := status.recordCount;
    if count > recordsOut.Length {
      return Ok(LoadResult(RecordCountTooLarge(count, Min(recordsOut.Length, U16_LIMIT - 1)), 0));
    }
    var recordsLen := count * AUTH_RECORD_LEN;
    if AUTH_HEADER_LEN + recordsLen > flash.data.Length {
      return Ok(LoadResult(RecordRegionTooLarge, 0));
    }
    if scratch.Length < recordsLen {
      return Err(BufferTooSmall);
    }
    var read := flash.Read(AUTH_HEADER_LEN, recordsLen);
    assert read.value == image[AUTH_HEADER_LEN..AUTH_HEADER_LEN + recordsLen];
    SpoolCodec.CopyInto(read.value, scratch, 0);
    assert scratch[..recordsLen] == read.value;
    var loaded := LoadChecked(scratch[..recordsLen], FromLe32(header.value[16..20]), status, recordsOut);
    assert flash.data[..] == image;
    return Ok(loaded);
  }

  /** Decodes chunk after chunk into `recordsOut`, up to the first bad one. */
  method DecodeInto(bytes: seq<byte>, count: nat, recordsOut: array<AuthRecord>) returns (bad: Option<Status>)
    requires |bytes| == count * AUTH_RECORD_LEN && count <= recordsOut.Length
    modifies recordsOut
    ensures match DecodeFirst(bytes, count)
            case Err(status) => bad == Some(status)
            case Ok(records) =>
              bad == None && recordsOut[..count] == records && recordsOut[count..] == old(recordsOut[count..])
  {
    hide DecodeRecord;
    bad := None;
    var index := 0;
    while index < count
      invariant 0 <= index <= count
      invariant DecodeFirst(bytes, index) == Ok(recordsOut[..index])
      invariant recordsOut[index..] == old(recordsOut[index..])
    {
      var record := DecodeRecord(bytes[index * AUTH_RECORD_LEN..(index + 1) * AUTH_RECORD_LEN]);
      if record.Err? {
        BadStays(bytes, index + 1, count);
        return Some(WithRecordIndex(record.error, Min(index, U16_LIMIT - 1)));
      }
      recordsOut[index] := record.value;
      assert recordsOut[..index + 1] == recordsOut[..index] + [record.value];
      assert recordsOut[index + 1..] == old(recordsOut[index..])[1..];
      index := index + 1;
    }
  }

  lemma {:induction false} BadStays(bytes: seq<byte>, n: nat, count: nat)
    requires n <= count && |bytes| >= count * AUTH_RECORD_LEN && DecodeFirst(bytes, n).Err?
    ensures DecodeFirst(bytes, count) == DecodeFirst(bytes, n)
    decreases count - n
  {
    hide DecodeRecord;
    if n < count {
      BadStays(bytes, n + 1, count);
    }
  }

  // Storing.

  /** Why a store fails before it touches the flash, if it does. */
  function StoreError(flashLen: nat, sectorSize: nat, records: nat, scratchLen: nat): Option<AuthError> {
    var usedLen := AUTH_HEADER_LEN + records * AUTH_RECORD_LEN;
    if records > U16_LIMIT - 1 then Some(TooManyRecords)
    else if (if sectorSize == 0 then flashLen != 0 else flashLen % sectorSize != 0) then Some(UnalignedFlash)
    else if usedLen > flashLen then Some(RegionTooLarge)
    else if scratchLen < usedLen then Some(BufferTooSmall)
    else None
  }

  method StoreAuthRecords(flash: InMemoryFlash, recordsVersion: u32, compatibility: u32, records: seq<AuthRecord>,
                          scratch: array<byte>)
    returns (r: Result<(), AuthError>)
    requires scratch != flash.data
    modifies flash.data, scratch
    ensures var error := StoreError(flash.data.Length, flash.sectorSize, |records|, scratch.Length);
            match error
            case Some(e) => r == Err(e) && flash.data[..] == old(flash.data[..])
            case None =>
              && r == Ok(())
              && flash.data[..] == Image(recordsVersion, compatibility, records)
                                   + Erased(flash.data.Length - AUTH_HEADER_LEN - |records| * AUTH_RECORD_LEN)
  {
    hide Image, CanWrite, Written;
    if |records| > U16_LIMIT - 1 {
      return Err(TooManyRecords);
    }
    if if flash.sectorSize == 0 then flash.data.Length != 0 else flash.data.Length % flash.sectorSize != 0 {
      return Err(UnalignedFlash);
    }
    var usedLen := AUTH_HEADER_LEN + |records| * AUTH_RECORD_LEN;
    if usedLen > flash.data.Length {
      return Err(RegionTooLarge);
    }
    if scratch.Length < usedLen {
      return Err(BufferTooSmall);
    }
    EncodeSet(recordsVersion, compatibility, records, scratch);
    var image := scratch[..usedLen];
    var erased := flash.Erase(0, flash.data.Length);
    ErasedTakes(flash.data.Length, image);
    assert flash.data[..] == Erased(flash.data.Length);
    var written := flash.Write(0, image);
    return Ok(());
  }

  /** Erased flash takes any bytes and keeps its rest erased. */
  lemma ErasedTakes(len: nat, bytes: seq<byte>)
    requires |bytes| <= len
    ensures CanWrite(Erased(len), 0, bytes)
    ensures Written(Erased(len), 0, bytes) == bytes + Erased(len - |bytes|)
  {
    WritableWhereErasedOrSame(Erased(len), 0, bytes);
  }

  /** Fills the start of the scratch buffer with the whole image. */
  method EncodeSet(recordsVersion: u32, compatibility: u32, records: seq<AuthRecord>, scratch: array<byte>)
    requires |records| < U16_LIMIT && AUTH_HEADER_LEN + |records| * AUTH_RECORD_LEN <= scratch.Length
    modifies scratch
    ensures scratch[..AUTH_HEADER_LEN + |records| * AUTH_RECORD_LEN] == Image(recordsVersion, compatibility, records)
  {
    hide RecordBytes, HeaderBytes, Crc32.Checksum, SetBytes, Erased;
    var usedLen := AUTH_HEADER_LEN + |records| * AUTH_RECORD_LEN;
    SpoolCodec.CopyInto(Erased(usedLen), scratch, 0);
    EncodeRecords(records, scratch);
    ghost var rest := scratch[AUTH_HEADER_LEN..];
    var bytes := scratch[AUTH_HEADER_LEN..usedLen];
    assert bytes == SetBytes(records) && rest[..usedLen - AUTH_HEADER_LEN] == bytes;
    var checksum := Crc32.Compute(bytes);
    EncodeHeader(recordsVersion, |records|, checksum, compatibility, scratch);
    BehindHeader(scratch[..], HeaderBytes(recordsVersion, |records|, checksum, compatibility), rest, usedLen);
    assert scratch[..usedLen] == scratch[..][..usedLen];
  }

  lemma BehindHeader(out: seq<byte>, header: seq<byte>, rest: seq<byte>, usedLen: nat)
    requires out == header + rest && |header| <= usedLen <= |out|
    ensures out[..usedLen] == header + rest[..usedLen - |header|]
  {
  }

  method EncodeRecords(records: seq<AuthRecord>, scratch: array<byte>)
    requires AUTH_HEADER_LEN + |records| * AUTH_RECORD_LEN <= scratch.Length
    modifies scratch
    ensures scratch[AUTH_HEADER_LEN..AUTH_HEADER_LEN + |records| * AUTH_RECORD_LEN] == SetBytes(records)
  {
    hide RecordBytes;
    var index := 0;
    while index < |records|
      invariant 0 <= index <= |records|
      invariant scratch[AUTH_HEADER_LEN..AUTH_HEADER_LEN + index * AUTH_RECORD_LEN] == SetBytes(records[..index])
    {
      var offset := AUTH_HEADER_LEN + index * AUTH_RECORD_LEN;
      ghost var before := scratch[..];
      var encoded := EncodeRecord(records[index], scratch, offset, offset + AUTH_RECORD_LEN);
      assert records[..index + 1][..index] == records[..index];
      assert scratch[AUTH_HEADER_LEN..offset + AUTH_RECORD_LEN]
          == before[AUTH_HEADER_LEN..offset] + RecordBytes(records[index]);
      index := index + 1;
    }
    assert records[..index] == records;
  }

  method EncodeHeader(recordsVersion: u32, recordCount: u16, recordsSum: bv32, compatibility: u32, out: array<byte>)
    requires AUTH_HEADER_LEN <= out.Length
    modifies out
    ensures out[..] == HeaderBytes(recordsVersion, recordCount, recordsSum, compatibility) + old(out[AUTH_HEADER_LEN..])
  {
    hide LeBytes, Le32, Crc32.Checksum;
    var body := LeBytes(AUTH_HEADER_MAGIC, 4) + LeBytes(AUTH_HEADER_FORMAT_VERSION, 2) + LeBytes(AUTH_HEADER_LEN, 2)
                + LeBytes(recordsVersion, 4) + LeBytes(recordCount, 2) + Zeros(2) + Le32(recordsSum)
                + LeBytes(compatibility, 4) + Zeros(4);
    assert body == HeaderBody(recordsVersion, recordCount, recordsSum, compatibility);
    hide HeaderBody;
    var headerSum := Crc32.Compute(body);
    SpoolCodec.CopyInto(body + Le32(headerSum), out, 0);
  }

  method ClearAuthRecords(flash: InMemoryFlash) returns (r: Result<(), AuthError>)
    modifies flash.data
    ensures var error := EraseError(flash.data.Length, flash.sectorSize, 0, flash.data.Length);
            if error.Some? then r == Err(Flash(error.value)) && flash.data[..] == old(flash.data[..])
            else r == Ok(()) && flash.data[..] == Erased(flash.data.Length)
  {
    var erased := flash.Erase(0, flash.data.Length);
    if erased.Err? {
      return Err(Flash(erased.error));
    }
    assert flash.data[..] == Erased(flash.data.Length);
    return Ok(());
  }

  // Loading what was stored.

  lemma ImageParts(v: u32, c: u32, records: seq<AuthRecord>, rest: seq<byte>)
    requires |records| < U16_LIMIT
    ensures var s := Image(v, c, records) + rest;
            var end := AUTH_HEADER_LEN + |records| * AUTH_RECORD_LEN;
            && s[..AUTH_HEADER_LEN] == HeaderBytes(v, |records|, Crc32.Checksum(SetBytes(records)), c)
            && s[AUTH_HEADER_LEN..end] == SetBytes(records)
  {
    hide HeaderBytes, SetBytes, Crc32.Checksum;
  }

  /** For every record set that fits, loading what was stored gives the same records with a valid
      status and their number; an outdated version or foreign checksum is reported, and so is an
      empty set. */
  lemma {:induction false} LoadOfStored(v: u32, c: u32, records: seq<AuthRecord>, rest: seq<byte>, expectedVersion: u32,
                     expectedCompatibility: u32, capacity: nat, scratchLen: nat)
    requires |records| < U16_LIMIT && |records| <= capacity && |records| * AUTH_RECORD_LEN <= scratchLen
    ensures Load(Image(v, c, records) + rest, expectedVersion, expectedCompatibility, capacity, scratchLen)
            == if v != expectedVersion then Ok((LoadResult(RecordsVersionMismatch(v, expectedVersion), 0), []))
               else if c != expectedCompatibility
               then Ok((LoadResult(CompatibilityChecksumMismatch(c, expectedCompatibility), 0), []))
               else if records == [] then Ok((LoadResult(NoRecords, 0), []))
               else Ok((LoadResult(Valid(v, |records|), |records|), records))
  {
    hide Image, HeaderBytes, SetBytes, InspectHeader, DecodeFirst, Crc32.Checksum, FromLe32, LeValue;
    var sum := Crc32.Checksum(SetBytes(records));
    ImageParts(v, c, records, rest);
    HeaderRoundTrip(v, |records|, sum, c, expectedVersion, expectedCompatibility);
    HeaderFields(v, |records|, sum, c);
    SetRoundTrip(records, []);
    assert SetBytes(records) + [] == SetBytes(records);
  }

  /** The whole way through the flash, whatever was stored before. */
  method StoreThenLoad(flash: InMemoryFlash, v: u32, c: u32, records: seq<AuthRecord>, recordsOut: array<AuthRecord>,
                       scratch: array<byte>)
    returns (r: Result<LoadResult, AuthError>)
    requires scratch != flash.data && (recordsOut as object) !in {flash.data as object, scratch as object}
    requires 1 <= |records| <= recordsOut.Length
    requires StoreError(flash.data.Length, flash.sectorSize, |records|, scratch.Length).None?
    modifies flash.data, scratch, recordsOut
    ensures r == Ok(LoadResult(Valid(v, |records|), |records|)) && recordsOut[..|records|] == records
  {
    hide Image, Load;
    var stored := StoreAuthRecords(flash, v, c, records, scratch);
    ghost var rest := Erased(flash.data.Length - AUTH_HEADER_LEN - |records| * AUTH_RECORD_LEN);
    assert flash.data[..] == Image(v, c, records) + rest;
    LoadOfStored(v, c, records, rest, v, c, recordsOut.Length, scratch.Length);
    r := LoadAuthRecords(flash, v, c, recordsOut, scratch);
  }

  /** A cleared region loads as missing. */
  lemma LoadOfCleared(size: nat, v: u32, c: u32, capacity: nat, scratchLen: nat)
    requires size >= AUTH_HEADER_LEN
    ensures Load(Erased(size), v, c, capacity, scratchLen) == Ok((LoadResult(Missing, 0), []))
  {
    hide DecodeFirst, Crc32.Checksum, FromLe32, LeValue;
    var header := Erased(size)[..AUTH_HEADER_LEN];
    assert header[..AUTH_HEADER_LEN] == header;
    assert AllErased(header);
  }

  // The layouts on flash.

  lemma RecordFormatBytes()
    ensures LeBytes(AUTH_RECORD_MAGIC, 4) == [0x52, 0x42, 0x45, 0x53]
    ensures LeBytes(AUTH_RECORD_FORMAT_VERSION, 2) == [1, 0] && LeBytes(AUTH_RECORD_LEN, 2) == [64, 0]
  {
    assert LeBytes(0x53, 1) == [0x53] + LeBytes(0, 0);
    assert LeBytes(0x5345, 2) == [0x45] + LeBytes(0x53, 1);
    assert LeBytes(0x53_4542, 3) == [0x42] + LeBytes(0x5345, 2);
    SmallNumber(1);
    SmallNumber(64);
  }

  lemma HeaderFormatBytes()
    ensures LeBytes(AUTH_HEADER_MAGIC, 4) == [0x41, 0x42, 0x45, 0x53]
    ensures LeBytes(AUTH_HEADER_FORMAT_VERSION, 2) == [2, 0] && LeBytes(AUTH_HEADER_LEN, 2) == [32, 0]
  {
    assert LeBytes(0x53, 1) == [0x53] + LeBytes(0, 0);
    assert LeBytes(0x5345, 2) == [0x45] + LeBytes(0x53, 1);
    assert LeBytes(0x53_4542, 3) == [0x42] + LeBytes(0x5345, 2);
    SmallNumber(2);
    SmallNumber(32);
  }

  lemma SmallNumber(n: nat)
    requires n < 256
    ensures LeBytes(n, 2) == [ByteOf(n), 0]
  {
    assert LeBytes(0, 1) == [0] + LeBytes(0, 0);
    assert LeBytes(n, 2) == [ByteOf(n % 256)] + LeBytes(n / 256, 1);
  }

  /** Each field of an encoded record at its place. */
  lemma RecordIsLaidOut(r: AuthRecord)
    ensures var s := RecordBytes(r);
            && s[0..4] == [0x52, 0x42, 0x45, 0x53] && s[4..6] == [1, 0] && s[6..8] == [64, 0]
            && s[8] == (if r.addressKind == Public then 0 else 1)
            && s[9] == (if r.securityLevel == NoEncryption then 0 else if r.securityLevel == Encrypted then 1 else 2)
            && (s[10] & 1 == 1 <==> r.bonded) && (s[10] & 2 == 2 <==> r.identityResolvingKey.Some?)
            && s[12..18] == r.identityAddress && s[18..34] == r.longTermKey
            && (r.identityResolvingKey.Some? ==> s[34..50] == r.identityResolvingKey.value)
            && (r.identityResolvingKey.None? ==> forall i :: 34 <= i < 50 ==> s[i] == 0)
  {
    hide RecordBytes, RecordBody, RecordFixed, LeBytes, LeValue, FromLe32, Crc32.Checksum, FlagsOf;
    RecordFields(r);
    FixedFields(r);
    HeadSlices(RecordBytes(r));
    RecordFormatBytes();
    FlagValues(r);
    assert forall i :: 34 <= i < 50 ==> RecordBytes(r)[i] == RecordBytes(r)[34..50][i - 34];
  }

  lemma FlagValues(r: AuthRecord)
    ensures (FlagsOf(r) & 1 == 1 <==> r.bonded) && (FlagsOf(r) & 2 == 2 <==> r.identityResolvingKey.Some?)
  {
  }

  /** What is read as a record: exactly 64 bytes with a matching checksum, the record's magic, version and
      length, and known codes; and what is read from it. */
  lemma {:induction false} RecordAccepted(s: seq<byte>)
    ensures DecodeRecord(s).Ok? <==>
              && |s| >= 64 && FromLe32(s[60..64]) == Crc32.Checksum(s[..60])
              && s[0..4] == [0x52, 0x42, 0x45, 0x53] && s[4..6] == [1, 0] && s[6..8] == [64, 0]
              && s[8] <= 1 && s[9] <= 2
    ensures DecodeRecord(s).Ok? ==>
              var r := DecodeRecord(s).value;
              && (r.addressKind == Public <==> s[8] == 0)
              && (r.securityLevel == NoEncryption <==> s[9] == 0) && (r.securityLevel == Encrypted <==> s[9] == 1)
              && r.identityAddress == s[12..18] && r.longTermKey == s[18..34]
              && (r.bonded <==> s[10] & 1 == 1)
              && (s[10] & 2 == 2 ==> r.identityResolvingKey == Some(s[34..50]))
              && (s[10] & 2 == 0 ==> r.identityResolvingKey == None)
  {
    hide LeBytes, LeValue, FromLe32, Crc32.Checksum;
    RecordFormatBytes();
    LeU32(AUTH_RECORD_MAGIC);
    LeU16(AUTH_RECORD_FORMAT_VERSION);
    LeU16(AUTH_RECORD_LEN);
    if |s| >= 64 {
      LeBytesOfValue(s[0..4]);
      LeBytesOfValue(s[4..6]);
      LeBytesOfValue(s[6..8]);
      BitsOf(s[10]);
    }
  }

  lemma BitsOf(flags: byte)
    ensures flags & 1 != 0 <==> flags & 1 == 1
    ensures flags & 2 != 0 <==> flags & 2 == 2
  {
  }

  /** A record damaged within four bytes that its checksum covers is refused for its checksum. */
  lemma {:induction false} DamagedRecordRejected(r: AuthRecord, damaged: seq<byte>, lo: nat, hi: nat)
    requires |damaged| == 60 && damaged != RecordBody(r) && lo <= hi <= lo + 4
    requires forall i :: 0 <= i < 60 && !(lo <= i < hi) ==> damaged[i] == RecordBody(r)[i]
    ensures DecodeRecord(damaged + RecordBytes(r)[60..])
         == Err(RecordCrcMismatch(0, Crc32.Checksum(RecordBody(r)), Crc32.Checksum(damaged)))
  {
    hide RecordBody, LeValue, FromLe32, Le32, Crc32.Checksum;
    RecordFields(r);
    var s := damaged + RecordBytes(r)[60..];
    assert s[60..64] == RecordBytes(r)[60..64] && s[..60] == damaged;
    Crc32.BurstDetected(damaged, RecordBody(r), lo, hi);
  }

  /** Each field of an encoded header at its place. */
  lemma HeaderIsLaidOut(v: u32, n: u16, sum: bv32, c: u32)
    ensures var s := HeaderBytes(v, n, sum, c);
            && s[0..4] == [0x41, 0x42, 0x45, 0x53] && s[4..6] == [2, 0] && s[6..8] == [32, 0]
            && s[8..12] == LeBytes(v, 4) && s[12..14] == LeBytes(n, 2)
            && s[16..20] == Le32(sum) && s[20..24] == LeBytes(c, 4)
            && FromLe32(s[28..32]) == Crc32.Checksum(s[..28])
  {
    hide LeBytes, LeValue, Le32, FromLe32, HeaderBody, Crc32.Checksum;
    HeaderFields(v, n, sum, c);
    HeaderBodyFields(v, n, sum, c);
    HeaderFormatBytes();
    var s, body := HeaderBytes(v, n, sum, c), HeaderBody(v, n, sum, c);
    assert s[0..4] == s[..28][0..4] && s[4..6] == s[..28][4..6] && s[6..8] == s[..28][6..8];
    assert s[8..12] == s[..28][8..12];
    assert s[12..14] == s[..28][12..14] && s[16..20] == s[..28][16..20] && s[20..24] == s[..28][20..24];
  }

  /** What is read as a valid header, and what as none at all. */
  lemma {:induction false} HeaderAccepted(s: seq<byte>, version: u32, compatibility: u32)
    ensures InspectHeader(s, version, compatibility).Valid? <==>
              && |s| >= 32 && s[0..4] == [0x41, 0x42, 0x45, 0x53] && s[4..6] == [2, 0] && s[6..8] == [32, 0]
              && FromLe32(s[28..32]) == Crc32.Checksum(s[..28])
              && s[8..12] == LeBytes(version, 4) && s[20..24] == LeBytes(compatibility, 4) && s[12..14] != [0, 0]
    ensures InspectHeader(s, version, compatibility) == Missing <==>
              |s| >= 32 && forall i :: 0 <= i < 32 ==> s[i] == 0xff
  {
    hide LeBytes, LeValue, FromLe32, Crc32.Checksum;
    HeaderFormatBytes();
    LeU32(AUTH_HEADER_MAGIC);
    LeU16(AUTH_HEADER_FORMAT_VERSION);
    LeU16(AUTH_HEADER_LEN);
    LeU32(version);
    LeU32(compatibility);
    NoCount();
    if |s| >= 32 {
      LeBytesOfValue(s[0..4]);
      LeBytesOfValue(s[4..6]);
      LeBytesOfValue(s[6..8]);
      LeBytesOfValue(s[8..12]);
      LeBytesOfValue(s[12..14]);
      LeBytesOfValue(s[20..24]);
      ErasedHasNoMagic(s);
    }
  }

  lemma NoCount()
    ensures LeBytes(0, 2) == [0, 0] && LeValue([0, 0]) == 0
  {
    assert LeBytes(0, 2) == [0] + LeBytes(0, 1);
    assert LeBytes(0, 1) == [0] + LeBytes(0, 0);
    assert ValueOf(0) == 0;
    var zeros: seq<byte> := [0, 0];
    assert zeros[1..] == [0] && zeros[1..][1..] == [];
  }

  // Which failure is reported.

  /** The first record with a wrong checksum is named by its index, whatever follows it. */
  lemma {:induction false} FirstBadRecordNamed(bytes: seq<byte>, n: nat, i: nat, stored: bv32, computed: bv32)
    requires i < n && |bytes| >= n * AUTH_RECORD_LEN && DecodeFirst(bytes, i).Ok?
    requires DecodeRecord(bytes[i * AUTH_RECORD_LEN..(i + 1) * AUTH_RECORD_LEN])
          == Err(RecordCrcMismatch(0, stored, computed))
    ensures DecodeFirst(bytes, n) == Err(RecordCrcMismatch(Min(i, 0xffff), stored, computed))
  {
    hide DecodeRecord;
    assert DecodeFirst(bytes, i + 1) == Err(RecordCrcMismatch(Min(i, 0xffff), stored, computed));
    BadStays(bytes, i + 1, n);
  }

  /** A load delivers the counted records of a valid set, or none. */
  lemma {:induction false} LoadDeliversAllOrNothing(flash: seq<byte>, version: u32, compatibility: u32, capacity: nat,
                                                    scratchLen: nat)
    ensures |flash| < 32 ==>
              Load(flash, version, compatibility, capacity, scratchLen) == Err(Flash(SpoolCodec.OutOfBounds))
    ensures Load(flash, version, compatibility, capacity, scratchLen).Ok? ==>
              var (result, records) := Load(flash, version, compatibility, capacity, scratchLen).value;
              && result.recordCount == |records|
              && (!result.status.Valid? ==> records == [])
              && (result.status.Valid? ==>
                    && |records| <= capacity && 32 + 64 * |records| <= |flash| && 64 * |records| <= scratchLen
                    && FromLe32(flash[16..20]) == Crc32.Checksum(flash[32..32 + 64 * |records|]))
    ensures |flash| >= 32 ==>
              var status := InspectHeader(flash[..32], version, compatibility);
              && (!status.Valid? ==>
                    Load(flash, version, compatibility, capacity, scratchLen) == Ok((LoadResult(status, 0), [])))
              && (status.Valid? && status.recordCount > capacity ==>
                    Load(flash, version, compatibility, capacity, scratchLen)
                    == Ok((LoadResult(RecordCountTooLarge(status.recordCount, Min(capacity, 0xffff)), 0), [])))
              && (status.Valid? && status.recordCount <= capacity && 32 + 64 * status.recordCount > |flash| ==>
                    Load(flash, version, compatibility, capacity, scratchLen)
                    == Ok((LoadResult(RecordRegionTooLarge, 0), [])))
              && (status.Valid? && status.recordCount <= capacity && 32 + 64 * status.recordCount <= |flash|
                  && scratchLen < 64 * status.recordCount ==>
                    Load(flash, version, compatibility, capacity, scratchLen) == Err(BufferTooSmall))
  {
    hide InspectHeader, Checked, FromLe32, Crc32.Checksum;
    if |flash| >= 32 {
      var status := InspectHeader(flash[..32], version, compatibility);
      if status.Valid? && 32 + 64 * status.recordCount <= |flash| {
        assert flash[..32][16..20] == flash[16..20];
        CheckedDelivers(flash[32..32 + 64 * status.recordCount], FromLe32(flash[16..20]), status);
      }
    }
  }

  lemma CheckedDelivers(bytes: seq<byte>, storedSum: bv32, status: Status)
    requires status.Valid? && |bytes| == status.recordCount * AUTH_RECORD_LEN
    ensures var (result, records) := Checked(bytes, storedSum, status);
            && result.recordCount == |records| && (!result.status.Valid? ==> records == [])
            && (result.status.Valid? ==> |records| == status.recordCount && storedSum == Crc32.Checksum(bytes))
  {
    hide DecodeFirst, Crc32.Checksum;
    NoValidFailure(bytes, status.recordCount);
  }

  /** Why a set is not stored, in the order of the checks. */
  lemma StoreRefused(flashLen: nat, sectorSize: nat, records: nat, scratchLen: nat)
    ensures StoreError(flashLen, sectorSize, records, scratchLen) == Some(TooManyRecords) <==> records > 0xffff
    ensures records <= 0xffff && sectorSize > 0 && flashLen % sectorSize == 0 ==>
              StoreError(flashLen, sectorSize, records, scratchLen)
              == if 32 + 64 * records > flashLen then Some(RegionTooLarge)
                 else if scratchLen < 32 + 64 * records then Some(BufferTooSmall) else None
    ensures records <= 0xffff && sectorSize > 0 && flashLen % sectorSize != 0 ==>
              StoreError(flashLen, sectorSize, records, scratchLen) == Some(UnalignedFlash)
    ensures records <= 0xffff && sectorSize == 0 && flashLen > 0 ==>
              StoreError(flashLen, sectorSize, records, scratchLen) == Some(UnalignedFlash)
  {
  }
}
