/** The guard that keeps the flash regions apart, and the chunked word loops behind it. */
module FlashRegions {
  import opened Bytes

  type u32 = n: nat | n < U32_LIMIT

  const ROM_FLASH_WORD_CHUNK := 16

  datatype FlashRange = FlashRange(offset: u32, size: u32)

  datatype Layout = Layout(
    flashSize: u32,
    sectorSize: u32,
    bleAuth: FlashRange,
    spool: FlashRange,
    protectedRanges: seq<Option<FlashRange>>)

  datatype RegionError =
    | ZeroFlash
    | ZeroSector
    | ZeroBleAuth
    | ZeroSpool
    | OutsideFlash
    | UnalignedRegion
    | ProtectedOverlap
    | BleAuthSpoolOverlap

  datatype RomError =
    | Region(error: RegionError)
    | OutOfBounds
    | Unaligned
    | InvalidEraseRange
    | ReadFailed(code: int)
    | WriteFailed(code: int)
    | EraseFailed(code: int)

  // Ranges and layouts.

  function End(r: FlashRange): Option<nat> {
    if r.offset + r.size < U32_LIMIT then Some(r.offset + r.size) else None
  }

  predicate Overlaps(a: FlashRange, b: FlashRange) {
    if End(a).None? || End(b).None? then true
    else a.offset < End(b).value && b.offset < End(a).value
  }

  predicate Contains(r: FlashRange, address: nat) {
    r.offset <= address < r.offset + r.size
  }

  ghost predicate Apart(a: FlashRange, b: FlashRange) {
    forall address: nat :: !(Contains(a, address) && Contains(b, address))
  }

  /** For ranges with an end and some bytes, the overlap test means a shared address. */
  lemma OverlapMeansSharedAddress(a: FlashRange, b: FlashRange)
    requires End(a).Some? && End(b).Some? && a.size > 0 && b.size > 0
    ensures Overlaps(a, b) <==> !Apart(a, b)
  {
    if Overlaps(a, b) {
      var address := if a.offset < b.offset then b.offset else a.offset;
      assert Contains(a, address) && Contains(b, address);
    }
  }

  function DataRangeError(r: FlashRange, layout: Layout, zeroError: RegionError): Option<RegionError>
    requires layout.sectorSize > 0
  {
    if r.size == 0 then Some(zeroError)
    else if r.offset % layout.sectorSize != 0 || r.size % layout.sectorSize != 0 then Some(UnalignedRegion)
    else if End(r).None? || End(r).value > layout.flashSize then Some(OutsideFlash)
    else None
  }

  /** The first problem among the protected ranges from the `i`th on. */
  function ProtectedError(layout: Layout, i: nat): (r: Option<RegionError>)
    requires i <= |layout.protectedRanges|
    ensures r.Some? ==> r.value == OutsideFlash || r.value == ProtectedOverlap
    decreases |layout.protectedRanges| - i
  {
    if i == |layout.protectedRanges| then None
    else if layout.protectedRanges[i].None? then ProtectedError(layout, i + 1)
    else
      var p := layout.protectedRanges[i].value;
      if End(p).None? || End(p).value > layout.flashSize then Some(OutsideFlash)
      else if Overlaps(layout.bleAuth, p) || Overlaps(layout.spool, p) then Some(ProtectedOverlap)
      else ProtectedError(layout, i + 1)
  }

  function LayoutError(layout: Layout): Option<RegionError> {
    if layout.flashSize == 0 then Some(ZeroFlash)
    else if layout.sectorSize == 0 then Some(ZeroSector)
    else
      var bleAuth := DataRangeError(layout.bleAuth, layout, ZeroBleAuth);
      if bleAuth.Some? then bleAuth
      else
        var spool := DataRangeError(layout.spool, layout, ZeroSpool);
        if spool.Some? then spool
        else if Overlaps(layout.bleAuth, layout.spool) then Some(BleAuthSpoolOverlap)
        else ProtectedError(layout, 0)
  }

  predicate Inside(r: FlashRange, flashSize: nat) {
    r.offset + r.size <= flashSize
  }

  predicate Aligned(r: FlashRange, sectorSize: nat)
    requires sectorSize > 0
  {
    r.offset % sectorSize == 0 && r.size % sectorSize == 0
  }

  /** Both data regions lie on the flash in whole sectors, and share no byte with each other or with
      a protected range. */
  ghost predicate Separated(layout: Layout) {
    && layout.sectorSize > 0
    && layout.bleAuth.size > 0 && Inside(layout.bleAuth, layout.flashSize) && Aligned(layout.bleAuth, layout.sectorSize)
    && layout.spool.size > 0 && Inside(layout.spool, layout.flashSize) && Aligned(layout.spool, layout.sectorSize)
    && Apart(layout.bleAuth, layout.spool)
    && forall i :: 0 <= i < |layout.protectedRanges| && layout.protectedRanges[i].Some? ==>
         var p := layout.protectedRanges[i].value;
         Inside(p, layout.flashSize) && Apart(layout.bleAuth, p) && Apart(layout.spool, p)
  }

  lemma {:induction false} ProtectedChecked(layout: Layout, i: nat)
    requires i <= |layout.protectedRanges|
    ensures ProtectedError(layout, i).None? <==>
            forall j :: i <= j < |layout.protectedRanges| && layout.protectedRanges[j].Some? ==>
              var p := layout.protectedRanges[j].value;
              && End(p).Some? && End(p).value <= layout.flashSize
              && !Overlaps(layout.bleAuth, p) && !Overlaps(layout.spool, p)
    decreases |layout.protectedRanges| - i
  {
    hide Overlaps, End;
    if i < |layout.protectedRanges| {
      ProtectedChecked(layout, i + 1);
    }
  }

  lemma EmptyIsApart(a: FlashRange, b: FlashRange)
    requires b.size == 0
    ensures Apart(a, b)
  {
  }

  /** Every accepted layout keeps its regions apart. */
  lemma AcceptedIsSeparated(layout: Layout)
    requires LayoutError(layout).None?
    ensures Separated(layout)
  {
    ProtectedChecked(layout, 0);
    OverlapMeansSharedAddress(layout.bleAuth, layout.spool);
    hide Apart, Overlaps;
    forall i | 0 <= i < |layout.protectedRanges| && layout.protectedRanges[i].Some?
      ensures var p := layout.protectedRanges[i].value;
              Inside(p, layout.flashSize) && Apart(layout.bleAuth, p) && Apart(layout.spool, p)
    {
      var p := layout.protectedRanges[i].value;
      if p.size > 0 {
        OverlapMeansSharedAddress(layout.bleAuth, p);
        OverlapMeansSharedAddress(layout.spool, p);
      } else {
        EmptyIsApart(layout.bleAuth, p);
        EmptyIsApart(layout.spool, p);
      }
    }
  }

  /** Nothing else is refused: a separated layout of non-empty ranges is accepted. */
  lemma SeparatedIsAccepted(layout: Layout)
    requires Separated(layout)
    requires forall i :: 0 <= i < |layout.protectedRanges| && layout.protectedRanges[i].Some? ==>
               layout.protectedRanges[i].value.size > 0
    ensures LayoutError(layout).None?
  {
    ProtectedChecked(layout, 0);
    OverlapMeansSharedAddress(layout.bleAuth, layout.spool);
    hide Apart, Overlaps;
    forall i | 0 <= i < |layout.protectedRanges| && layout.protectedRanges[i].Some?
      ensures var p := layout.protectedRanges[i].value;
              && End(p).Some? && End(p).value <= layout.flashSize
              && !Overlaps(layout.bleAuth, p) && !Overlaps(layout.spool, p)
    {
      var p := layout.protectedRanges[i].value;
      assert Inside(p, layout.flashSize);
      OverlapMeansSharedAddress(layout.bleAuth, p);
      OverlapMeansSharedAddress(layout.spool, p);
    }
  }

  /** Why a layout is refused. A region that ends beyond 32 bits is outside any flash. */
  lemma RefusalReasons(layout: Layout)
    ensures LayoutError(layout) == Some(ZeroFlash) <==> layout.flashSize == 0
    ensures LayoutError(layout) == Some(ZeroSector) <==> layout.flashSize != 0 && layout.sectorSize == 0
    ensures LayoutError(layout) == Some(ZeroBleAuth) <==>
              layout.flashSize != 0 && layout.sectorSize != 0 && layout.bleAuth.size == 0
    ensures layout.flashSize != 0 && layout.sectorSize > 0 && layout.bleAuth.size > 0
            && Aligned(layout.bleAuth, layout.sectorSize)
            && layout.bleAuth.offset + layout.bleAuth.size >= 0x1_0000_0000 ==>
              LayoutError(layout) == Some(OutsideFlash)
    ensures LayoutError(layout) == Some(BleAuthSpoolOverlap) ==> !Apart(layout.bleAuth, layout.spool)
  {
    hide Apart;
    if LayoutError(layout) == Some(BleAuthSpoolOverlap) {
      OverlapMeansSharedAddress(layout.bleAuth, layout.spool);
    }
  }

  /** A range without an end in 32 bits counts as overlapping everything. */
  lemma EndlessOverlaps(a: FlashRange, b: FlashRange)
    requires a.offset + a.size >= 0x1_0000_0000
    ensures Overlaps(a, b) && Overlaps(b, a)
  {
  }

  const DEFAULT_LAYOUT := Layout(
    0x40_0000, 0x1000, FlashRange(0x3b_f000, 0x1000), FlashRange(0x3c_0000, 0x4_0000),
    [Some(FlashRange(0, 0x1_0000)), Some(FlashRange(0x1_0000, 0x3a_f000)), None, None])

  lemma DefaultLayoutAccepted()
    ensures LayoutError(DEFAULT_LAYOUT).None?
  {
    ProtectedChecked(DEFAULT_LAYOUT, 0);
  }

  // Absolute addresses.

  function CheckSubrange(r: FlashRange, offset: nat, len: nat): Result<nat, RomError> {
    if offset >= U32_LIMIT || len >= U32_LIMIT || offset + len >= U32_LIMIT then Err(OutOfBounds)
    else if offset + len > r.size then Err(OutOfBounds)
    else if r.offset + offset >= U32_LIMIT then Err(OutOfBounds)
    else Ok(r.offset + offset)
  }

  /** An accepted access of one region stays inside it, and off the other region and every protected
      range; on an accepted layout every access that fits the region is accepted. */
  lemma AccessStaysInRegion(layout: Layout, region: FlashRange, other: FlashRange, offset: nat, len: nat)
    requires LayoutError(layout).None?
    requires (region, other) == (layout.bleAuth, layout.spool) || (region, other) == (layout.spool, layout.bleAuth)
    ensures CheckSubrange(region, offset, len).Ok? <==> offset + len <= region.size
    ensures CheckSubrange(region, offset, len).Ok? ==>
              var absolute := CheckSubrange(region, offset, len).value;
              && absolute == region.offset + offset
              && forall address: nat :: absolute <= address < absolute + len ==>
                   && Contains(region, address) && !Contains(other, address)
                   && forall i :: 0 <= i < |layout.protectedRanges| && layout.protectedRanges[i].Some? ==>
                        !Contains(layout.protectedRanges[i].value, address)
  {
    AcceptedIsSeparated(layout);
  }

  // The chip, through the ROM routines.

  const ROM_OK := 0

  /** Every byte outside the `len` bytes at `at` is as before. */
  predicate UnchangedOutside(before: seq<byte>, after: seq<byte>, at: nat, len: nat) {
    |after| == |before| && forall i :: 0 <= i < |before| && !(at <= i < at + len) ==> after[i] == before[i]
  }

  function AndByte(a: byte, b: byte): byte {
    a & b
  }

  /** The `|bytes|` bytes at `at` have lost the bits that `bytes` does not have. */
  predicate Cleared(before: seq<byte>, after: seq<byte>, at: nat, bytes: seq<byte>) {
    && at + |bytes| <= |before| == |after|
    && forall j :: at <= j < at + |bytes| ==> after[j] == AndByte(before[j], bytes[j - at])
  }

  function WordBytes(words: seq<bv32>): (s: seq<byte>)
    ensures |s| == 4 * |words|
  {
    if words == [] then [] else WordBytes(words[..|words| - 1]) + Le32(words[|words| - 1])
  }

  function SectorStart(sector: nat, sectorSize: nat): nat {
    sector * sectorSize
  }

  class RomChip {
    const data: array<byte>
    const sectorSize: nat

    /** How many calls did not return `ROM_OK`. */
    ghost var failures: nat

    constructor (size: nat, sectorSize: nat)
      requires sectorSize > 0
      ensures data.Length == size && this.sectorSize == sectorSize && fresh(data)
    {
      data := new byte[size](_ => 0xff);
      this.sectorSize := sectorSize;
      failures := 0;
    }

    /** May fail after any part of the write. */
    method Write(absolute: nat, words: seq<bv32>) returns (code: int)
      requires absolute + 4 * |words| <= data.Length
      modifies data, this`failures
      ensures failures == old(failures) + if code == ROM_OK then 0 else 1
      ensures UnchangedOutside(old(data[..]), data[..], absolute, 4 * |words|)
      ensures code == ROM_OK ==> Cleared(old(data[..]), data[..], absolute, WordBytes(words))
    {
      hide AndByte, WordBytes;
      var bytes := WordBytes(words);
      var upTo :| 0 <= upTo <= |bytes|;
      code := *;
      if code == ROM_OK {
        upTo := |bytes|;
      }
      for i := 0 to upTo
        invariant forall j :: absolute <= j < absolute + i ==> data[j] == AndByte(old(data[j]), bytes[j - absolute])
        invariant forall j :: 0 <= j < data.Length && !(absolute <= j < absolute + i) ==> data[j] == old(data[j])
        invariant failures == old(failures)
      {
        data[absolute + i] := AndByte(data[absolute + i], bytes[i]);
      }
      if code != ROM_OK {
        failures := failures + 1;
      }
    }

    method EraseSector(sector: nat) returns (code: int)
      requires SectorStart(sector, sectorSize) + sectorSize <= data.Length
      modifies data, this`failures
      ensures failures == old(failures) + if code == ROM_OK then 0 else 1
      ensures UnchangedOutside(old(data[..]), data[..], SectorStart(sector, sectorSize), sectorSize)
      ensures code == ROM_OK ==>
                Blank(data[..], SectorStart(sector, sectorSize), SectorStart(sector, sectorSize) + sectorSize)
    {
      var upTo :| 0 <= upTo <= sectorSize;
      code := *;
      if code == ROM_OK {
        upTo := sectorSize;
      }
      Fill(SectorStart(sector, sectorSize), upTo);
      if code != ROM_OK {
        failures := failures + 1;
      }
    }

    method Fill(start: nat, len: nat)
      requires start + len <= data.Length
      modifies data
      ensures UnchangedOutside(old(data[..]), data[..], start, len)
      ensures Blank(data[..], start, start + len)
    {
      for i := 0 to len
        invariant forall j :: start <= j < start + i ==> data[j] == 0xff
        invariant forall j :: 0 <= j < data.Length && !(start <= j < start + i) ==> data[j] == old(data[j])
      {
        data[start + i] := 0xff;
      }
    }

    method Read(absolute: nat, count: nat) returns (code: int, words: seq<bv32>)
      requires absolute + 4 * count <= data.Length
      modifies this`failures
      ensures failures == old(failures) + if code == ROM_OK then 0 else 1
      ensures code == ROM_OK ==> WordBytes(words) == data[absolute..absolute + 4 * count]
    {
      words := ToWords(data[absolute..absolute + 4 * count]);
      WordsRoundTrip(data[absolute..absolute + 4 * count], count);
      code := *;
      if code != ROM_OK {
        failures := failures + 1;
      }
    }
  }

  function ToWords(bytes: seq<byte>): (words: seq<bv32>)
    requires |bytes| % 4 == 0
    ensures |words| == |bytes| / 4
  {
    if bytes == [] then []
    else ToWords(bytes[..|bytes| - 4]) + [FromLe32(bytes[|bytes| - 4..])]
  }

  lemma WordBytesAppend(words: seq<bv32>, word: bv32)
    ensures WordBytes(words + [word]) == WordBytes(words) + Le32(word)
  {
    hide Le32;
    assert (words + [word])[..|words|] == words;
  }

  lemma ToWordsAppend(bytes: seq<byte>, last: seq<byte>)
    requires |bytes| % 4 == 0 && |last| == 4
    ensures ToWords(bytes + last) == ToWords(bytes) + [FromLe32(last)]
  {
    hide FromLe32;
    assert (bytes + last)[..|bytes|] == bytes && (bytes + last)[|bytes|..] == last;
  }

  lemma {:induction false} WordsRoundTrip(bytes: seq<byte>, count: nat)
    requires |bytes| == 4 * count
    ensures |bytes| % 4 == 0 && WordBytes(ToWords(bytes)) == bytes
    decreases count
  {
    hide FromLe32, Le32, ToWords, WordBytes;
    if count == 0 {
      assert bytes == [];
      NoWords();
    } else {
      var front, last := bytes[..4 * (count - 1)], bytes[4 * (count - 1)..];
      assert bytes == front + last;
      WordsRoundTrip(front, count - 1);
      ToWordsAppend(front, last);
      WordBytesAppend(ToWords(front), FromLe32(last));
      assert Le32(FromLe32(last)) == last;
    }
  }

  lemma NoWords()
    ensures WordBytes(ToWords([])) == []
  {
  }

  /** A region that passed validation, on a chip that holds it. */
  ghost predicate OnChip(r: FlashRange, chip: RomChip) {
    && chip.sectorSize > 0 && Aligned(r, chip.sectorSize)
    && Inside(r, chip.data.Length) && chip.data.Length < U32_LIMIT
  }

  function WriteRefusal(r: FlashRange, offset: nat, len: nat): Option<RomError> {
    if offset % 4 != 0 || len % 4 != 0 then Some(Unaligned)
    else if CheckSubrange(r, offset, len).Err? then Some(CheckSubrange(r, offset, len).error)
    else None
  }

  lemma ClearedStep(before: seq<byte>, mid: seq<byte>, after: seq<byte>, at: nat, done: seq<byte>, chunk: seq<byte>)
    requires Cleared(before, mid, at, done) && UnchangedOutside(before, mid, at, |done|)
    requires Cleared(mid, after, at + |done|, chunk) && UnchangedOutside(mid, after, at + |done|, |chunk|)
    ensures Cleared(before, after, at, done + chunk)
    ensures UnchangedOutside(before, after, at, |done| + |chunk|)
  {
    hide AndByte;
    forall j | at <= j < at + |done| + |chunk|
      ensures after[j] == AndByte(before[j], (done + chunk)[j - at])
    {
      if j < at + |done| {
        assert mid[j] == AndByte(before[j], done[j - at]);
      } else {
        assert after[j] == AndByte(mid[j], chunk[j - at - |done|]);
      }
    }
  }

  lemma WiderUnchanged(before: seq<byte>, mid: seq<byte>, after: seq<byte>, at: nat, n: nat, chunk: nat, len: nat)
    requires UnchangedOutside(before, mid, at, n) && UnchangedOutside(mid, after, at + n, chunk) && n + chunk <= len
    ensures UnchangedOutside(before, after, at, len)
  {
  }

  /** The words of one chunk of what remains. */
  function ChunkWords(remaining: nat): (n: nat)
    requires remaining % 4 == 0 && remaining > 0
    ensures 0 < n <= ROM_FLASH_WORD_CHUNK && 4 * n <= remaining && (remaining - 4 * n) % 4 == 0
  {
    Min(remaining, ROM_FLASH_WORD_CHUNK * 4) / 4
  }

  /** Writes in chunks of at most 16 words. */
  method WriteChunks(chip: RomChip, start: nat, data: seq<byte>) returns (result: Result<(), RomError>)
    requires start + |data| <= chip.data.Length && |data| % 4 == 0
    modifies chip.data, chip`failures
    ensures UnchangedOutside(old(chip.data[..]), chip.data[..], start, |data|)
    ensures result.Ok? ==> Cleared(old(chip.data[..]), chip.data[..], start, data)
    ensures result.Err? ==> result.error.WriteFailed? && result.error.code != ROM_OK
    ensures result.Ok? <==> chip.failures == old(chip.failures)
  {
    hide Cleared, UnchangedOutside, ToWords, WordBytes, ChunkWords;
    var done := 0;
    ghost var before := chip.data[..];
    NothingCleared(before, start);
    assert data[..0] == [];
    while done < |data|
      invariant done <= |data| && (|data| - done) % 4 == 0
      invariant Cleared(before, chip.data[..], start, data[..done])
      invariant UnchangedOutside(before, chip.data[..], start, done)
      invariant chip.failures == old(chip.failures)
    {
      var byteLen := 4 * ChunkWords(|data| - done);
      var chunk := data[done..done + byteLen];
      ghost var mid := chip.data[..];
      WordsRoundTrip(chunk, |chunk| / 4);
      var code := chip.Write(start + done, ToWords(chunk));
      if code != ROM_OK {
        WiderUnchanged(before, mid, chip.data[..], start, done, byteLen, |data|);
        return Err(WriteFailed(code));
      }
      ClearedStep(before, mid, chip.data[..], start, data[..done], chunk);
      assert data[..done + byteLen] == data[..done] + chunk;
      done := done + byteLen;
    }
    assert data[..done] == data;
    return Ok(());
  }

  /** Whatever happens, only the requested bytes are touched. */
  method WriteRange(chip: RomChip, r: FlashRange, offset: nat, data: seq<byte>) returns (result: Result<(), RomError>)
    requires OnChip(r, chip)
    modifies chip.data, chip`failures
    ensures var refusal := WriteRefusal(r, offset, |data|);
            if refusal.Some? then result == Err(refusal.value) && chip.data[..] == old(chip.data[..])
            else
              && UnchangedOutside(old(chip.data[..]), chip.data[..], r.offset + offset, |data|)
              && (result.Ok? ==> Cleared(old(chip.data[..]), chip.data[..], r.offset + offset, data))
              && (result.Err? ==> result.error.WriteFailed? && result.error.code != ROM_OK)
              && (result.Ok? <==> chip.failures == old(chip.failures))
  {
    hide Cleared, UnchangedOutside;
    if offset % 4 != 0 || |data| % 4 != 0 {
      return Err(Unaligned);
    }
    var checked := CheckSubrange(r, offset, |data|);
    if checked.Err? {
      return Err(checked.error);
    }
    result := WriteChunks(chip, checked.value, data);
  }

  lemma NothingCleared(before: seq<byte>, at: nat)
    requires at <= |before|
    ensures Cleared(before, before, at, []) && UnchangedOutside(before, before, at, 0)
  {
  }

  /** Reads in chunks of at most 16 words. */
  method ReadChunks(chip: RomChip, start: nat, len: nat) returns (result: Result<seq<byte>, RomError>)
    requires start + len <= chip.data.Length && len % 4 == 0
    modifies chip`failures
    ensures result.Ok? ==> result.value == chip.data[start..start + len]
    ensures result.Err? ==> result.error.ReadFailed? && result.error.code != ROM_OK
    ensures result.Ok? <==> chip.failures == old(chip.failures)
  {
    hide WordBytes, ChunkWords;
    ghost var image := chip.data[..];
    var out: seq<byte> := [];
    var done := 0;
    while done < len
      invariant done <= len && (len - done) % 4 == 0 && chip.data[..] == image
      invariant chip.failures == old(chip.failures)
      invariant out == image[start..start + done]
    {
      var count := ChunkWords(len - done);
      var code, words := chip.Read(start + done, count);
      if code != ROM_OK {
        return Err(ReadFailed(code));
      }
      assert WordBytes(words) == image[start + done..start + done + 4 * count];
      JoinSlices(image, start, start + done, start + done + 4 * count);
      out := out + WordBytes(words);
      done := done + 4 * count;
    }
    return Ok(out);
  }

  lemma JoinSlices(s: seq<byte>, a: nat, b: nat, c: nat)
    requires a <= b <= c <= |s|
    ensures s[a..b] + s[b..c] == s[a..c]
  {
  }

  method ReadRange(chip: RomChip, r: FlashRange, offset: nat, len: nat) returns (result: Result<seq<byte>, RomError>)
    requires OnChip(r, chip)
    modifies chip`failures
    ensures var refusal := WriteRefusal(r, offset, len);
            if refusal.Some? then result == Err(refusal.value)
            else
              && (result.Ok? ==> result.value == chip.data[r.offset + offset..r.offset + offset + len])
              && (result.Err? ==> result.error.ReadFailed? && result.error.code != ROM_OK)
              && (result.Ok? <==> chip.failures == old(chip.failures))
  {
    if offset % 4 != 0 || len % 4 != 0 {
      return Err(Unaligned);
    }
    var checked := CheckSubrange(r, offset, len);
    if checked.Err? {
      return Err(checked.error);
    }
    result := ReadChunks(chip, checked.value, len);
  }

  function EraseRefusal(r: FlashRange, sectorSize: nat, offset: nat, len: nat): Option<RomError>
    requires sectorSize > 0
  {
    if len == 0 then Some(InvalidEraseRange)
    else if offset % sectorSize != 0 || len % sectorSize != 0 then Some(Unaligned)
    else if CheckSubrange(r, offset, len).Err? then Some(CheckSubrange(r, offset, len).error)
    else None
  }

  lemma WholeSectors(start: nat, len: nat, sectorSize: nat)
    requires sectorSize > 0 && start % sectorSize == 0 && len % sectorSize == 0
    ensures start / sectorSize * sectorSize == start && len / sectorSize * sectorSize == len
    ensures (start / sectorSize + len / sectorSize) * sectorSize == start + len
  {
    DivisionRule(start, sectorSize);
    DivisionRule(len, sectorSize);
    Distributes(start / sectorSize, len / sectorSize, sectorSize);
  }

  lemma Distributes(a: nat, b: nat, m: nat)
    ensures (a + b) * m == a * m + b * m
  {
  }

  lemma SumAligned(a: nat, b: nat, m: nat)
    requires m > 0 && a % m == 0 && b % m == 0
    ensures (a + b) % m == 0
  {
    WholeSectors(a, b, m);
    DivisionUnique(a + b, a / m + b / m, 0, m);
  }

  /** Erases sector by sector. Whatever happens, only the requested bytes are touched. */
  method EraseRange(chip: RomChip, r: FlashRange, offset: nat, len: nat) returns (result: Result<(), RomError>)
    requires OnChip(r, chip)
    modifies chip.data, chip`failures
    ensures var refusal := EraseRefusal(r, chip.sectorSize, offset, len);
            if refusal.Some? then result == Err(refusal.value) && chip.data[..] == old(chip.data[..])
            else
              && UnchangedOutside(old(chip.data[..]), chip.data[..], r.offset + offset, len)
              && (result.Ok? ==> AllErased(chip.data[r.offset + offset..r.offset + offset + len]))
              && (result.Err? ==> result.error.EraseFailed? && result.error.code != ROM_OK)
              && (result.Ok? <==> chip.failures == old(chip.failures))
  {
    if len == 0 {
      return Err(InvalidEraseRange);
    }
    if offset % chip.sectorSize != 0 || len % chip.sectorSize != 0 {
      return Err(Unaligned);
    }
    var checked := CheckSubrange(r, offset, len);
    if checked.Err? {
      return Err(checked.error);
    }
    result := EraseSectors(chip, checked.value, len, r, offset);
  }

  method EraseSectors(chip: RomChip, absolute: nat, len: nat, ghost r: FlashRange, ghost offset: nat)
    returns (result: Result<(), RomError>)
    requires OnChip(r, chip) && absolute == r.offset + offset && offset + len <= r.size
    requires offset % chip.sectorSize == 0 && len % chip.sectorSize == 0
    modifies chip.data, chip`failures
    ensures UnchangedOutside(old(chip.data[..]), chip.data[..], absolute, len)
    ensures result.Ok? ==> AllErased(chip.data[absolute..absolute + len])
    ensures result.Err? ==> result.error.EraseFailed? && result.error.code != ROM_OK
    ensures result.Ok? <==> chip.failures == old(chip.failures)
  {
    SumAligned(r.offset, offset, chip.sectorSize);
    WholeSectors(absolute, len, chip.sectorSize);
    result := EraseFrom(chip, absolute / chip.sectorSize, len / chip.sectorSize, absolute, len);
  }

  predicate Blank(data: seq<byte>, from: nat, to: nat) {
    to <= |data| && forall i :: from <= i < to ==> data[i] == 0xff
  }

  lemma BlankStep(before: seq<byte>, mid: seq<byte>, after: seq<byte>, absolute: nat, start: nat, size: nat, len: nat)
    requires absolute <= start && start + size <= absolute + len && absolute + len <= |before|
    requires UnchangedOutside(before, mid, absolute, len) && Blank(mid, absolute, start)
    requires UnchangedOutside(mid, after, start, size)
    ensures UnchangedOutside(before, after, absolute, len)
    ensures Blank(after, start, start + size) ==> Blank(after, absolute, start + size)
  {
  }

  method EraseFrom(chip: RomChip, firstSector: nat, sectors: nat, absolute: nat, len: nat)
    returns (result: Result<(), RomError>)
    requires chip.sectorSize > 0 && absolute + len <= chip.data.Length
    requires SectorStart(firstSector, chip.sectorSize) == absolute
    requires SectorStart(firstSector + sectors, chip.sectorSize) == absolute + len
    modifies chip.data, chip`failures
    ensures UnchangedOutside(old(chip.data[..]), chip.data[..], absolute, len)
    ensures result.Ok? ==> AllErased(chip.data[absolute..absolute + len])
    ensures result.Err? ==> result.error.EraseFailed? && result.error.code != ROM_OK
    ensures result.Ok? <==> chip.failures == old(chip.failures)
  {
    hide UnchangedOutside, Blank, SectorStart;
    ghost var before := chip.data[..];
    NothingBlank(before, absolute, len);
    var sector := firstSector;
    while sector < firstSector + sectors
      invariant firstSector <= sector <= firstSector + sectors
      invariant UnchangedOutside(before, chip.data[..], absolute, len)
      invariant chip.failures == old(chip.failures)
      invariant Blank(chip.data[..], absolute, SectorStart(sector, chip.sectorSize))
    {
      SectorInside(sector, firstSector, sectors, chip.sectorSize, absolute, len);
      ghost var mid := chip.data[..];
      var code := chip.EraseSector(sector);
      BlankStep(before, mid, chip.data[..], absolute, SectorStart(sector, chip.sectorSize), chip.sectorSize, len);
      if code != ROM_OK {
        return Err(EraseFailed(code));
      }
      sector := sector + 1;
    }
    BlankIsErased(chip.data[..], absolute, len);
    assert chip.data[..][absolute..absolute + len] == chip.data[absolute..absolute + len];
    return Ok(());
  }

  lemma NothingBlank(data: seq<byte>, at: nat, len: nat)
    requires at + len <= |data|
    ensures UnchangedOutside(data, data, at, len) && Blank(data, at, at)
  {
  }

  lemma BlankIsErased(data: seq<byte>, at: nat, len: nat)
    requires Blank(data, at, at + len)
    ensures AllErased(data[at..at + len])
  {
  }

  lemma SectorInside(sector: nat, first: nat, sectors: nat, size: nat, absolute: nat, len: nat)
    requires first <= sector < first + sectors
    requires SectorStart(first, size) == absolute && SectorStart(first + sectors, size) == absolute + len
    ensures absolute <= SectorStart(sector, size)
    ensures SectorStart(sector + 1, size) == SectorStart(sector, size) + size <= absolute + len
  {
    Scaled(first, sector, size);
    Scaled(sector + 1, first + sectors, size);
    NextMultiple(sector, size);
  }

  /** What is written to erased flash reads back as written. */
  lemma ErasedTakesBytes(before: seq<byte>, after: seq<byte>, at: nat, bytes: seq<byte>)
    requires Cleared(before, after, at, bytes) && AllErased(before[at..at + |bytes|])
    ensures after[at..at + |bytes|] == bytes
  {
    forall i | 0 <= i < |bytes|
      ensures after[at + i] == bytes[i]
    {
      assert before[at + i] == before[at..at + |bytes|][i];
      assert after[at + i] == AndByte(before[at + i], bytes[at + i - at]);
      AllOnes(bytes[i]);
    }
  }

  lemma AllOnes(b: byte)
    ensures AndByte(0xff, b) == b
  {
  }

  lemma UnchangedTwice(before: seq<byte>, mid: seq<byte>, after: seq<byte>, at: nat, len: nat, part: nat)
    requires UnchangedOutside(before, mid, at, len) && part <= len
    requires UnchangedOutside(mid, after, at, part) || after == mid
    ensures UnchangedOutside(before, after, at, len)
  {
  }

  /** Erase, write, read back: the chunked loops return the data. */
  method EraseWriteRead(chip: RomChip, r: FlashRange, offset: nat, len: nat, data: seq<byte>)
    returns (result: Result<seq<byte>, RomError>)
    requires OnChip(r, chip) && |data| <= len
    modifies chip.data, chip`failures
    ensures UnchangedOutside(old(chip.data[..]), chip.data[..], r.offset + offset, len)
    ensures result.Ok? ==> result.value == data
    ensures result.Ok? <==>
              && EraseRefusal(r, chip.sectorSize, offset, len) == None && |data| % 4 == 0 && offset % 4 == 0
              && chip.failures == old(chip.failures)
  {
    ghost var before := chip.data[..];
    var erased := EraseRange(chip, r, offset, len);
    if erased.Err? {
      return Err(erased.error);
    }
    ghost var mid := chip.data[..];
    ghost var at := r.offset + offset;
    assert mid[at..at + |data|] == chip.data[at..at + len][..|data|];
    var written := WriteRange(chip, r, offset, data);
    UnchangedTwice(before, mid, chip.data[..], at, len, |data|);
    if written.Err? {
      return Err(written.error);
    }
    ErasedTakesBytes(mid, chip.data[..], at, data);
    result := ReadRange(chip, r, offset, |data|);
  }

  /** Which accesses are refused: by alignment first, then by the range; erasing nothing is refused too. */
  lemma AccessRefused(r: FlashRange, sectorSize: nat, offset: nat, len: nat)
    requires sectorSize > 0 && r.offset + r.size < U32_LIMIT
    ensures WriteRefusal(r, offset, len)
         == if offset % 4 == 0 && len % 4 == 0
            then if offset + len <= r.size then None else Some(OutOfBounds) else Some(Unaligned)
    ensures EraseRefusal(r, sectorSize, offset, len)
         == if len == 0 then Some(InvalidEraseRange)
            else if offset % sectorSize == 0 && len % sectorSize == 0
            then if offset + len <= r.size then None else Some(OutOfBounds) else Some(Unaligned)
  {
  }
}
