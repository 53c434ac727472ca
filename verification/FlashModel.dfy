/** NOR flash: a write can only clear bits, an erase restores whole sectors to 0xff. */
module FlashModel {
  import opened Bytes
  import opened SpoolCodec

  /** Every bit that `new` needs set is still set in `existing`. */
  predicate Writable(existing: byte, new_: byte) {
    existing & new_ == new_
  }

  predicate CanWrite(data: seq<byte>, offset: nat, bytes: seq<byte>)
    requires offset + |bytes| <= |data|
  {
    forall i :: 0 <= i < |bytes| ==> Writable(data[offset + i], bytes[i])
  }

  /** `data` with `bytes` placed at `offset`; what a permitted write leaves. */
  function Written(data: seq<byte>, offset: nat, bytes: seq<byte>): (r: seq<byte>)
    requires offset + |bytes| <= |data|
    ensures |r| == |data|
    ensures forall i :: 0 <= i < |bytes| ==> r[offset + i] == bytes[i]
    ensures forall i :: 0 <= i < |data| && !(offset <= i < offset + |bytes|) ==> r[i] == data[i]
  {
    data[..offset] + bytes + data[offset + |bytes|..]
  }

  /** Why erasing `len` bytes at `offset` of a flash of `size` bytes fails, if it does. */
  function EraseError(size: nat, sectorSize: nat, offset: nat, len: nat): Option<FlashError> {
    if sectorSize == 0 || offset % sectorSize != 0 || len % sectorSize != 0 then Some(UnalignedErase)
    else if len == 0 then Some(InvalidEraseRange)
    else if offset + len > size then Some(OutOfBounds)
    else None
  }

  lemma ErasedIsWritable(b: byte)
    ensures Writable(0xff, b)
    ensures Writable(b, b)
    ensures 0xff & b == b && b & b == b
  {
  }

  lemma AndWhereWritable(data: seq<byte>, offset: nat, bytes: seq<byte>, i: nat)
    requires offset + |bytes| <= |data| && CanWrite(data, offset, bytes) && i < |bytes|
    ensures data[offset + i] & bytes[i] == bytes[i]
  {
    assert Writable(data[offset + i], bytes[i]);
  }

  /** Erased flash takes any bytes, and bytes already written can be written again. */
  lemma WritableWhereErasedOrSame(data: seq<byte>, offset: nat, bytes: seq<byte>)
    requires offset + |bytes| <= |data|
    requires forall i :: 0 <= i < |bytes| ==> data[offset + i] == 0xff || data[offset + i] == bytes[i]
    ensures CanWrite(data, offset, bytes)
  {
    forall i | 0 <= i < |bytes| ensures Writable(data[offset + i], bytes[i]) {
      ErasedIsWritable(bytes[i]);
    }
  }

  class InMemoryFlash {
    const data: array<byte>
    const sectorSize: nat

    constructor (size: nat, sectorSize: nat)
      ensures data.Length == size && this.sectorSize == sectorSize && fresh(data)
      ensures data[..] == Erased(size)
    {
      data := new byte[size](_ => 0xff);
      this.sectorSize := sectorSize;
      new;
      assert data[..] == Erased(size);
    }

    method Read(offset: nat, len: nat) returns (r: Result<seq<byte>, FlashError>)
      ensures r == if offset + len > data.Length then Err(OutOfBounds) else Ok(data[offset..offset + len])
    {
      if offset + len > data.Length {
        return Err(OutOfBounds);
      }
      return Ok(data[offset..offset + len]);
    }

    /** Fails without touching a byte when some bit would have to be set again. */
    method Write(offset: nat, bytes: seq<byte>) returns (r: Result<(), FlashError>)
      modifies data
      ensures offset + |bytes| > data.Length ==> r == Err(OutOfBounds) && data[..] == old(data[..])
      ensures offset + |bytes| <= data.Length ==>
                if CanWrite(old(data[..]), offset, bytes)
                then r == Ok(()) && data[..] == Written(old(data[..]), offset, bytes)
                else r == Err(WriteRequiresErase) && data[..] == old(data[..])
    {
      if offset + |bytes| > data.Length {
        return Err(OutOfBounds);
      }
      for i := 0 to |bytes|
        invariant forall j :: 0 <= j < i ==> Writable(data[offset + j], bytes[j])
      {
        if data[offset + i] & bytes[i] != bytes[i] {
          assert !Writable(data[..][offset + i], bytes[i]);
          return Err(WriteRequiresErase);
        }
      }
      Program(offset, bytes);
      return Ok(());
    }

    /** Clears bits, byte by byte. */
    method Program(offset: nat, bytes: seq<byte>)
      requires offset + |bytes| <= data.Length && CanWrite(data[..], offset, bytes)
      modifies data
      ensures data[..] == Written(old(data[..]), offset, bytes)
    {
      hide CanWrite;
      ghost var before := data[..];
      for i := 0 to |bytes|
        invariant forall j :: 0 <= j < i ==> data[offset + j] == bytes[j]
        invariant forall j :: 0 <= j < data.Length && !(offset <= j < offset + i) ==> data[j] == before[j]
      {
        AndWhereWritable(before, offset, bytes, i);
        data[offset + i] := data[offset + i] & bytes[i];
      }
      assert data[..] == Written(before, offset, bytes);
    }

    method Erase(offset: nat, len: nat) returns (r: Result<(), FlashError>)
      modifies data
      ensures var e := EraseError(data.Length, sectorSize, offset, len);
              if e.Some? then r == Err(e.value) && data[..] == old(data[..])
              else r == Ok(()) && data[..] == Written(old(data[..]), offset, Erased(len))
    {
      if sectorSize == 0 || offset % sectorSize != 0 || len % sectorSize != 0 {
        return Err(UnalignedErase);
      }
      if len == 0 {
        return Err(InvalidEraseRange);
      }
      if offset + len > data.Length {
        return Err(OutOfBounds);
      }
      forall i | offset <= i < offset + len {
        data[i] := 0xff;
      }
      assert data[..] == Written(old(data[..]), offset, Erased(len));
      return Ok(());
    }
  }
}
