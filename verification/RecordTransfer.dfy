/** A whole record transfer: the device's GATT request handlers on one side, the desktop tool's
    reassembly loop on the other, and nothing but bytes between them. */
module RecordTransfer {
  import opened Bytes
  import opened Backlog
  import opened BleProtocol
  import opened BleTransfer
  import Crc32
  import SpoolCodec

  datatype RequestError =
    | ProtocolFailure(protocolError: ProtocolError)
    | TransferFailure(transferError: TransferError)
    | ValueNotAllowed
    | AttributeNotFound
    | UnlikelyError
    | NotAuthorized

  /** What a control write leads to: an acknowledgement request is passed on to storage. */
  datatype ControlOutcome = Done | StorageAck(action: AckAction)

  /** The device's side of a transfer: the session, the loaded record, and what the metadata and
      fragment characteristics would read as. */
  datatype Device = Device(
    state: TransferState, payload: Option<StoredPayload>, metadataValue: seq<byte>, fragmentValue: seq<byte>)

  // What each request does to the device.

  function StartMetadata(d: Device, peeked: Option<StoredPayload>): (Device, Result<(), RequestError>)
    requires peeked.Some? ==> peeked.value.sequence < U64_LIMIT
  {
    if peeked.None? then (d.(state := Idle, payload := None), Err(AttributeNotFound))
    else
      var (state, metadata) := Start(d.state, peeked.value);
      if metadata.Err? then (d.(state := state), Err(TransferFailure(metadata.error)))
      else (d.(state := state, payload := peeked, metadataValue := MetadataBytes(metadata.value)), Ok(()))
  }

  function PrepareFragment(d: Device, request: ControlFrame): (Device, Result<(), RequestError>) {
    if d.payload.None? then (d, Err(ValueNotAllowed))
    else
      var (state, fragment) := Fragment(d.state, d.payload.value, request);
      if fragment.Err? then (d.(state := state), Err(TransferFailure(fragment.error)))
      else (d.(state := state, fragmentValue := PaddedFragment(fragment.value)), Ok(()))
  }

  /** The same when the characteristic may refuse its new value: the session has moved on all the same. */
  function StartMetadataOn(d: Device, peeked: Option<StoredPayload>, valueSet: bool): (Device, Result<(), RequestError>)
    requires peeked.Some? ==> peeked.value.sequence < U64_LIMIT
  {
    var (d', r) := StartMetadata(d, peeked);
    if r.Ok? && !valueSet then (d'.(payload := d.payload, metadataValue := d.metadataValue), Err(UnlikelyError))
    else (d', r)
  }

  function PrepareFragmentOn(d: Device, request: ControlFrame, valueSet: bool): (Device, Result<(), RequestError>) {
    var (d', r) := PrepareFragment(d, request);
    if r.Ok? && !valueSet then (d'.(fragmentValue := d.fragmentValue), Err(UnlikelyError)) else (d', r)
  }

  function PaddedFragment(f: RecordFragment): seq<byte> {
    if |f.payload| > MAX_FRAGMENT_PAYLOAD_LEN then []
    else FragmentBytes(f) + Zeros(MAX_FRAGMENT_PAYLOAD_LEN - |f.payload|)
  }

  function CompleteOn(d: Device, request: ControlFrame): (Device, Result<(), RequestError>) {
    if d.payload.None? then (d, Err(ValueNotAllowed))
    else
      var (state, completed) := Complete(d.state, d.payload.value, request);
      (d.(state := state), if completed.Err? then Err(TransferFailure(completed.error)) else Ok(()))
  }

  function AckOn(d: Device, request: ControlFrame, network: NetworkState, upload: UploadResult)
    : (Device, Result<ControlOutcome, RequestError>)
  {
    if d.payload.None? then (d, Err(ValueNotAllowed))
    else
      var (state, action) := Ack(d.state, d.payload.value, request, network, upload);
      (d.(state := state), if action.Err? then Err(TransferFailure(action.error)) else Ok(StorageAck(action.value)))
  }

  function AsOutcome(r: Result<(), RequestError>): Result<ControlOutcome, RequestError> {
    if r.Err? then Err(r.error) else Ok(Done)
  }

  /** A decoded control frame. `peeked` is what storage would answer to a peek now. */
  function Handle(d: Device, request: ControlFrame, peeked: Option<StoredPayload>, valueSet: bool,
                  network: NetworkState, upload: UploadResult)
    : (Device, Result<ControlOutcome, RequestError>)
    requires peeked.Some? ==> peeked.value.sequence < U64_LIMIT
  {
    match request.opcode
    case RequestMetadata => var (d', r) := StartMetadataOn(d, peeked, valueSet); (d', AsOutcome(r))
    case RequestFragment => var (d', r) := PrepareFragmentOn(d, request, valueSet); (d', AsOutcome(r))
    case CompleteRecord => var (d', r) := CompleteOn(d, request); (d', AsOutcome(r))
    case AckRecord => AckOn(d, request, network, upload)
  }

  class TransferRuntime {
    var payload: Option<StoredPayload>
    const session: BleTransferSession
    const lastFragment: array<byte>
    var lastFragmentLen: nat
    var metadataValue: seq<byte>
    var fragmentValue: seq<byte>

    ghost predicate Valid()
      reads this
    {
      && lastFragment.Length == FRAGMENT_VALUE_LEN
      && (payload.Some? ==> payload.value.sequence < U64_LIMIT && |payload.value.payload| < U16_LIMIT)
    }

    ghost function View(): Device
      reads this, session
    {
      Device(session.state, payload, metadataValue, fragmentValue)
    }

    constructor ()
      ensures Valid() && fresh(session) && fresh(lastFragment)
      ensures View() == Device(Idle, None, Zeros(METADATA_LEN), Zeros(FRAGMENT_VALUE_LEN))
    {
      payload := None;
      session := new BleTransferSession();
      lastFragment := new byte[FRAGMENT_VALUE_LEN](_ => 0);
      lastFragmentLen := 0;
      metadataValue := Zeros(METADATA_LEN);
      fragmentValue := Zeros(FRAGMENT_VALUE_LEN);
    }

    method ResetAfterDisconnect()
      requires Valid()
      modifies this, session, lastFragment
      ensures Valid() && lastFragmentLen == 0
      ensures View() == old(View()).(state := Idle, payload := None)
    {
      payload := None;
      session.ResetAfterDisconnect();
      ClearLastFragment();
    }

    method ClearLastFragment()
      requires Valid()
      modifies this`lastFragmentLen, lastFragment
      ensures Valid() && lastFragmentLen == 0 && lastFragment[..] == Zeros(FRAGMENT_VALUE_LEN)
    {
      forall i | 0 <= i < lastFragment.Length {
        lastFragment[i] := 0;
      }
      lastFragmentLen := 0;
    }

    /** `peeked` is storage's answer to the session's peek; `valueSet`, whether the characteristic takes
        its new value. */
    method StartMetadataRequest(peeked: Option<StoredPayload>, valueSet: bool) returns (r: Result<(), RequestError>)
      requires Valid() && (peeked.Some? ==> peeked.value.sequence < U64_LIMIT)
      modifies this, session, lastFragment
      ensures Valid() && (View(), r) == old(StartMetadataOn(View(), peeked, valueSet))
    {
      hide MetadataBytes;
      if peeked.None? {
        ResetAfterDisconnect();
        return Err(AttributeNotFound);
      }
      var metadata := session.StartRecord(peeked.value);
      if metadata.Err? {
        return Err(TransferFailure(metadata.error));
      }
      var encoded := new byte[METADATA_LEN];
      var encodedLen := EncodeMetadata(metadata.value, encoded);
      assert encoded[..] == MetadataBytes(metadata.value);
      if !valueSet {
        return Err(UnlikelyError);
      }
      metadataValue := encoded[..];
      payload := peeked;
      ClearLastFragment();
      return Ok(());
    }

    method PrepareFragmentRequest(request: ControlFrame, valueSet: bool) returns (r: Result<(), RequestError>)
      requires Valid()
      modifies this, session, lastFragment
      ensures Valid() && (View(), r) == old(PrepareFragmentOn(View(), request, valueSet))
      ensures r.Ok? || r.error.UnlikelyError? ==>
                lastFragment[..] == old(PrepareFragment(View(), request).0.fragmentValue)
    {
      hide FragmentBytes, FragmentRefusal;
      if payload.None? {
        return Err(ValueNotAllowed);
      }
      var fragment := session.FragmentForRequest(payload.value, request);
      if fragment.Err? {
        return Err(TransferFailure(fragment.error));
      }
      hide Fragment;
      var encoded := new byte[FRAGMENT_VALUE_LEN];
      var encodedLen := EncodeFragment(fragment.value, encoded);
      var len := encodedLen.value;
      ClearLastFragment();
      assert encoded[..len] == FragmentBytes(fragment.value);
      SpoolCodec.CopyInto(encoded[..len], lastFragment, 0);
      lastFragmentLen := len;
      assert lastFragment[..] == FragmentBytes(fragment.value) + Zeros(FRAGMENT_VALUE_LEN)[len..];
      assert Zeros(FRAGMENT_VALUE_LEN)[len..] == Zeros(MAX_FRAGMENT_PAYLOAD_LEN - |fragment.value.payload|);
      if !valueSet {
        return Err(UnlikelyError);
      }
      fragmentValue := lastFragment[..];
      return Ok(());
    }

    method CompleteRecordRequest(request: ControlFrame) returns (r: Result<(), RequestError>)
      requires Valid()
      modifies session
      ensures Valid() && (View(), r) == old(CompleteOn(View(), request))
    {
      hide Complete;
      if payload.None? {
        return Err(ValueNotAllowed);
      }
      var completed := session.CompleteTransfer(payload.value, request);
      return if completed.Err? then Err(TransferFailure(completed.error)) else Ok(());
    }

    method AckRecordRequest(request: ControlFrame, network: NetworkState, upload: UploadResult)
      returns (r: Result<ControlOutcome, RequestError>)
      requires Valid()
      modifies session
      ensures Valid() && (View(), r) == old(AckOn(View(), request, network, upload))
    {
      hide Ack;
      if payload.None? {
        return Err(ValueNotAllowed);
      }
      var action := session.AckActionFor(payload.value, request, network, upload);
      return if action.Err? then Err(TransferFailure(action.error)) else Ok(StorageAck(action.value));
    }

    /** A write to the control characteristic. */
    method HandleControlWrite(data: seq<byte>, authorized: bool, peeked: Option<StoredPayload>, valueSet: bool,
                              network: NetworkState, upload: UploadResult)
      returns (r: Result<ControlOutcome, RequestError>)
      requires Valid() && (peeked.Some? ==> peeked.value.sequence < U64_LIMIT)
      modifies this, session, lastFragment
      ensures Valid()
      ensures !authorized ==> r == Err(NotAuthorized) && View() == old(View())
      ensures authorized ==>
                match DecodeControl(data)
                case Err(error) => r == Err(ProtocolFailure(error)) && View() == old(View())
                case Ok(request) => (View(), r) == old(Handle(View(), request, peeked, valueSet, network, upload))
    {
      hide DecodeControl, StartMetadataOn, PrepareFragmentOn, PrepareFragment, CompleteOn, AckOn, View, Valid;
      if !authorized {
        return Err(NotAuthorized);
      }
      var decoded := DecodeControl(data);
      if decoded.Err? {
        return Err(ProtocolFailure(decoded.error));
      }
      var request := decoded.value;
      match request.opcode {
        case RequestMetadata =>
          var started := StartMetadataRequest(peeked, valueSet);
          return AsOutcome(started);
        case RequestFragment =>
          var prepared := PrepareFragmentRequest(request, valueSet);
          return AsOutcome(prepared);
        case CompleteRecord =>
          var completed := CompleteRecordRequest(request);
          return AsOutcome(completed);
        case AckRecord =>
          r := AckRecordRequest(request, network, upload);
      }
    }
  }

  predicate ValidateFragment(metadata: ToolMetadata, fragment: ToolFragment, offset: nat, requested: nat,
                             payloadLength: nat) {
    && fragment.sequence == metadata.sequence
    && fragment.offset == offset
    && |fragment.payload| > 0
    && |fragment.payload| <= requested
    && offset + |fragment.payload| <= payloadLength
  }

  /** What the device is in the middle of: `p` is being handed out and `offset` bytes are delivered. */
  ghost predicate Serving(device: TransferRuntime, p: StoredPayload, offset: nat)
    reads device, device.session
  {
    && device.payload == Some(p)
    && device.session.state.Active?
    && device.session.state.sequence == p.sequence
    && device.session.state.totalLen == |p.payload|
    && device.session.state.deliveredUntil == offset
    && !device.session.state.ackSent
  }

  /** The bytes of one fragment, as the tool gets them for a request at the delivery front. */
  lemma FragmentServed(state: TransferState, p: StoredPayload, offset: u16, requested: u16)
    requires state.Active? && state.sequence == p.sequence && state.totalLen == |p.payload|
    requires state.deliveredUntil == offset < |p.payload| && 0 < requested <= |p.payload| - offset
    ensures var len := Min(requested, MAX_FRAGMENT_PAYLOAD_LEN);
            var (state', fragment) := Fragment(state, p, ControlFrame(RequestFragment, p.sequence, offset, requested));
            && state' == state.(deliveredUntil := offset + len)
            && fragment == Ok(RecordFragment(p.sequence, offset, |p.payload|, p.payload[offset..offset + len]))
  {
  }

  /** The radio link and what else may go wrong under a GATT operation, one chance at a time. */
  class GattLink {
    /** How often something went wrong. */
    ghost var failures: nat

    constructor ()
    {
      failures := 0;
    }

    method Works() returns (ok: bool)
      modifies this
      ensures failures == old(failures) + if ok then 0 else 1
    {
      ok := *;
      if !ok {
        failures := failures + 1;
      }
    }
  }

  /** The tool asks for the pending record's metadata, again and again until a write succeeds, and
      decodes it. */
  method FetchMetadata(link: GattLink, device: TransferRuntime, p: StoredPayload, attempts: nat, network: NetworkState,
                       upload: UploadResult)
    returns (metadata: Option<ToolMetadata>)
    requires device.Valid() && p.sequence < U64_LIMIT
    modifies link, device, device.session, device.lastFragment
    ensures device.Valid() && link.failures >= old(link.failures)
    ensures metadata.Some? ==> |p.payload| < U16_LIMIT && attempts > 0
    ensures link.failures == old(link.failures) ==> (metadata.Some? <==> |p.payload| < U16_LIMIT && attempts > 0)
    ensures metadata.Some? ==>
              && metadata.value == ToolMetadata(1, p.sequence, |p.payload|, p.payloadFlags,
                                                Crc32.Checksum(p.payload), p.currentBoot)
              && Serving(device, p, 0) && device.session.state.complete == (p.payload == [])
  {
    hide MetadataBytes, TryDecodeMetadata, Crc32.Checksum;
    var granted := WaitForMetadataRequest(link, device, p, attempts, network, upload);
    if !granted {
      return None;
    }
    var read := link.Works();
    if !read {
      return None;
    }
    MetadataRoundTrip(MetadataOf(p).value);
    return TryDecodeMetadata(device.metadataValue);
  }

  /** What a metadata request for `p` leaves behind when it succeeds. */
  ghost predicate Announced(device: TransferRuntime, p: StoredPayload)
    reads device, device.session
    requires p.sequence < U64_LIMIT
  {
    && MetadataOf(p).Ok? && device.metadataValue == MetadataBytes(MetadataOf(p).value)
    && Serving(device, p, 0) && device.session.state.complete == (p.payload == [])
  }

  lemma RequestAnnounces(d: Device, p: StoredPayload, network: NetworkState, upload: UploadResult)
    requires p.sequence < U64_LIMIT
    ensures var (d', r) := Handle(d, ControlFrame(RequestMetadata, 0, 0, 0), Some(p), true, network, upload);
            && (r.Ok? <==> |p.payload| < U16_LIMIT)
            && (r.Ok? ==>
                 && d'.metadataValue == MetadataBytes(MetadataOf(p).value) && d'.payload == Some(p)
                 && d'.state == Active(p.sequence, |p.payload|, 0, p.payload == [], false))
  {
    hide MetadataBytes, Crc32.Checksum;
  }

  /** Asks until a write succeeds or the time is up, which bounds the attempts. */
  method WaitForMetadataRequest(link: GattLink, device: TransferRuntime, p: StoredPayload, attempts: nat,
                                network: NetworkState, upload: UploadResult)
    returns (granted: bool)
    requires device.Valid() && p.sequence < U64_LIMIT
    modifies link, device, device.session, device.lastFragment
    ensures device.Valid() && link.failures >= old(link.failures)
    ensures granted ==> attempts > 0 && Announced(device, p)
    ensures link.failures == old(link.failures) ==> (granted <==> |p.payload| < U16_LIMIT && attempts > 0)
  {
    hide MetadataBytes, Crc32.Checksum, Handle;
    ghost var before := link.failures;
    for attempt := 0 to attempts
      invariant device.Valid() && link.failures >= before
      invariant link.failures == before && attempt > 0 ==> |p.payload| >= U16_LIMIT
    {
      RequestAnnounces(device.View(), p, network, upload);
      var r := Request(link, device, RequestMetadata, 0, 0, 0, Some(p), network, upload);
      if r.Some? && r.value.Ok? {
        return true;
      }
    }
    return false;
  }

  /** The tool takes one fragment, whatever bytes it read: only a well-formed one of the announced record at
      the offset it asked for, not empty, not longer than asked and inside the payload; it is copied to its
      place and nothing else is touched. */
  method TakeFragment(metadata: ToolMetadata, bytes: seq<byte>, payload: array<byte>, offset: nat, requested: nat)
    returns (taken: Option<nat>)
    requires offset <= payload.Length
    modifies payload
    ensures taken.None? ==> payload[..] == old(payload[..])
    ensures taken.Some? ==>
              && 0 < taken.value <= requested && offset + taken.value <= payload.Length
              && TryDecodeFragment(bytes).Some? && |TryDecodeFragment(bytes).value.payload| == taken.value
              && payload[..] == old(payload[..offset]) + TryDecodeFragment(bytes).value.payload
                                + old(payload[offset + taken.value..])
    ensures taken.Some? <==>
              && TryDecodeFragment(bytes).Some?
              && var f := TryDecodeFragment(bytes).value;
                 && f.sequence == metadata.sequence && f.offset == offset && f.payload != []
                 && |f.payload| <= requested && offset + |f.payload| <= payload.Length
  {
    hide TryDecodeFragment;
    var fragment := TryDecodeFragment(bytes);
    if fragment.None? {
      return None;
    }
    if !ValidateFragment(metadata, fragment.value, offset, requested, payload.Length) {
      return None;
    }
    SpoolCodec.CopyInto(fragment.value.payload, payload, offset);
    return Some(|fragment.value.payload|);
  }

  /** The tool's reassembly loop. Whatever goes wrong on the way, the payload arrives byte for byte or not
      at all; if nothing does, it arrives in exactly ceil(length / min(fragmentLength, 128)) fragments. */
  method FetchPayload(link: GattLink, device: TransferRuntime, p: StoredPayload, metadata: ToolMetadata,
                      fragmentLength: u16, network: NetworkState, upload: UploadResult)
    returns (r: Option<array<byte>>, fragments: nat)
    requires device.Valid() && Serving(device, p, 0)
    requires device.session.state.complete == (p.payload == [])
    requires metadata.sequence == p.sequence && metadata.payloadLength == |p.payload|
    modifies link, device, device.session, device.lastFragment
    ensures device.Valid() && link.failures >= old(link.failures)
    ensures r.Some? ==> fragmentLength > 0 || p.payload == []
    ensures link.failures == old(link.failures) ==> (r.Some? <==> fragmentLength > 0 || p.payload == [])
    ensures r.Some? ==>
              && fresh(r.value) && r.value[..] == p.payload
              && Serving(device, p, |p.payload|)
              && Fragments(|p.payload|, Min(fragmentLength, MAX_FRAGMENT_PAYLOAD_LEN), fragments)
  {
    hide TryDecodeFragment, Fragments;
    var payload := new byte[metadata.payloadLength];
    var offset := 0;
    ghost var step := Min(fragmentLength, MAX_FRAGMENT_PAYLOAD_LEN);
    fragments := 0;
    FirstOffset(step, payload.Length);
    while offset < payload.Length
      invariant device.Valid() && fresh(payload) && payload.Length == |p.payload|
      invariant link.failures >= old(link.failures)
      invariant 0 <= offset <= payload.Length && Serving(device, p, offset)
      invariant payload[..offset] == p.payload[..offset]
      invariant Reached(payload.Length, step, fragments, offset)
      invariant fragments > 0 ==> fragmentLength > 0
      decreases payload.Length - offset
    {
      hide Reached;
      var requested := Min(fragmentLength, payload.Length - offset);
      var served := RequestFragmentAt(link, device, p, offset, requested, network, upload);
      if served.None? {
        return None, fragments;
      }
      var taken := TakeFragment(metadata, served.value, payload, offset, requested);
      if taken.None? {
        return None, fragments;
      }
      ghost var len := taken.value;
      assert payload[..offset + len] == payload[..offset] + payload[offset..offset + len];
      assert p.payload[..offset + len] == p.payload[..offset] + p.payload[offset..offset + len];
      NextOffset(payload.Length, step, fragments, offset);
      offset := offset + taken.value;
      fragments := fragments + 1;
    }
    assert payload[..] == payload[..offset] && p.payload == p.payload[..offset];
    LastOffset(payload.Length, step, fragments);
    return Some(payload), fragments;
  }

  /** The tool checks the CRC, completes the record and acknowledges it if asked to. */
  method FinishTransfer(link: GattLink, device: TransferRuntime, p: StoredPayload, metadata: ToolMetadata,
                        payload: seq<byte>, shouldAck: bool, network: NetworkState, upload: UploadResult)
    returns (finished: bool, action: Option<AckAction>)
    requires device.Valid() && Serving(device, p, |p.payload|)
    requires metadata.sequence == p.sequence && metadata.crc32 == Crc32.Checksum(p.payload)
    modifies link, device, device.session, device.lastFragment
    ensures device.Valid() && link.failures >= old(link.failures)
    ensures finished ==> Crc32.Checksum(payload) == Crc32.Checksum(p.payload)
    ensures link.failures == old(link.failures) ==>
              (finished <==> Crc32.Checksum(payload) == Crc32.Checksum(p.payload))
    ensures finished ==>
              && device.session.state.Active? && device.session.state.sequence == p.sequence
              && device.session.state.complete
              && action == (if !shouldAck then None
                            else if UploaderOwns(network, upload) then Some(Suppress)
                            else Some(SendStorageAck(p.sequence)))
  {
    hide Crc32.Checksum;
    action := None;
    var computedCrc := Crc32.Compute(payload);
    if computedCrc != metadata.crc32 {
      return false, None;
    }
    var completed := Request(link, device, CompleteRecord, metadata.sequence, 0, 0, None, network, upload);
    if completed.None? || completed.value.Err? {
      return false, None;
    }
    if shouldAck {
      var acked := Request(link, device, AckRecord, metadata.sequence, 0, 0, None, network, upload);
      if acked.None? || acked.value.Err? {
        return false, None;
      }
      action := if acked.value.value.StorageAck? then Some(acked.value.value.action) else None;
    }
    return true, action;
  }

  /** The whole transfer. Whatever goes wrong, what the tool gets is the record, byte for byte with a good
      CRC, and it is complete on the device; if nothing does, the tool gets every record the device can
      announce. */
  method TransferRecord(link: GattLink, device: TransferRuntime, p: StoredPayload, attempts: nat, fragmentLength: u16,
                        shouldAck: bool, network: NetworkState, upload: UploadResult)
    returns (r: Option<array<byte>>, fragments: nat, action: Option<AckAction>)
    requires device.Valid() && p.sequence < U64_LIMIT
    modifies link, device, device.session, device.lastFragment
    ensures device.Valid() && link.failures >= old(link.failures)
    ensures link.failures == old(link.failures) ==>
              (r.Some? <==> |p.payload| < U16_LIMIT && attempts > 0 && (fragmentLength > 0 || p.payload == []))
    ensures r.Some? ==>
              && r.value[..] == p.payload
              && Fragments(|p.payload|, Min(fragmentLength, MAX_FRAGMENT_PAYLOAD_LEN), fragments)
              && device.session.state.Active? && device.session.state.sequence == p.sequence
              && device.session.state.complete
              && action == (if !shouldAck then None
                            else if UploaderOwns(network, upload) then Some(Suppress)
                            else Some(SendStorageAck(p.sequence)))
  {
    hide Crc32.Checksum, Fragments;
    fragments, action := 0, None;
    var metadata := FetchMetadata(link, device, p, attempts, network, upload);
    if metadata.None? {
      return None, fragments, action;
    }
    r, fragments := FetchPayload(link, device, p, metadata.value, fragmentLength, network, upload);
    if r.None? {
      return None, fragments, action;
    }
    var finished: bool;
    finished, action := FinishTransfer(link, device, p, metadata.value, r.value[..], shouldAck, network, upload);
    if !finished {
      return None, fragments, action;
    }
  }

  /** `n` steps of at most `step` bytes cover `len` bytes, and `n - 1` do not. */
  predicate Fragments(len: nat, step: nat, n: nat) {
    if len == 0 then n == 0 else n > 0 && (n - 1) * step < len <= n * step
  }

  /** Where the loop stands after `n` fragments. */
  predicate Reached(len: nat, step: nat, n: nat, offset: nat) {
    offset == Min(n * step, len) && (n > 0 ==> 0 < len && (n - 1) * step < len)
  }

  lemma FirstOffset(step: nat, len: nat)
    ensures Reached(len, step, 0, 0)
  {
  }

  lemma NextOffset(len: nat, step: nat, n: nat, offset: nat)
    requires Reached(len, step, n, offset) && offset < len
    ensures Reached(len, step, n + 1, offset + Min(step, len - offset))
  {
    assert n * step == offset;
    assert (n + 1) * step == n * step + step;
  }

  lemma LastOffset(len: nat, step: nat, n: nat)
    requires Reached(len, step, n, len)
    ensures Fragments(len, step, n)
  {
  }

  /** The tool writes a control frame; the device handles its bytes. The write may get lost, be refused
      for want of authorization, meet a characteristic that cannot be set, or go unanswered. */
  method Request(link: GattLink, device: TransferRuntime, opcode: Opcode, sequence: u64, offset: u16, length: u16,
                 peeked: Option<StoredPayload>, network: NetworkState, upload: UploadResult)
    returns (r: Option<Result<ControlOutcome, RequestError>>)
    requires device.Valid() && (peeked.Some? ==> peeked.value.sequence < U64_LIMIT)
    modifies link, device, device.session, device.lastFragment
    ensures device.Valid() && link.failures >= old(link.failures)
    ensures link.failures == old(link.failures) ==> r.Some?
    ensures (r.Some? && r.value.Ok?) || link.failures == old(link.failures) ==>
              r.Some? && (device.View(), r.value)
              == old(Handle(device.View(), ControlFrame(opcode, sequence, offset, length), peeked, true,
                            network, upload))
  {
    hide Handle, DecodeControl, LeBytes;
    var frame := EncodeControlFrame(OpcodeByte(opcode), sequence, offset, length);
    var c := ControlFrame(opcode, sequence, offset, length);
    assert frame[..] == ControlBytes(c);
    ControlRoundTrip(c);
    var reached := link.Works();
    if !reached {
      return None;
    }
    var authorized := link.Works();
    var valueSet := link.Works();
    SetOrRefused(device.View(), c, peeked, network, upload);
    var outcome := device.HandleControlWrite(frame[..], authorized, peeked, valueSet, network, upload);
    var answered := link.Works();
    return if answered then Some(outcome) else None;
  }

  /** A request that succeeds although the characteristic could not be set did not need it. */
  lemma SetOrRefused(d: Device, c: ControlFrame, peeked: Option<StoredPayload>, network: NetworkState,
                     upload: UploadResult)
    requires peeked.Some? ==> peeked.value.sequence < U64_LIMIT
    ensures var (d', r) := Handle(d, c, peeked, false, network, upload);
            r.Ok? ==> (d', r) == Handle(d, c, peeked, true, network, upload)
  {
    hide StartMetadata, PrepareFragment, CompleteOn, AckOn;
  }

  /** One fragment request and the read of the fragment characteristic that follows it. */
  method RequestFragmentAt(link: GattLink, device: TransferRuntime, p: StoredPayload, offset: u16, requested: u16,
                           network: NetworkState, upload: UploadResult)
    returns (bytes: Option<seq<byte>>)
    requires device.Valid() && Serving(device, p, offset)
    requires offset < |p.payload| && requested <= |p.payload| - offset
    modifies link, device, device.session, device.lastFragment
    ensures device.Valid() && link.failures >= old(link.failures)
    ensures bytes.Some? ==> requested > 0
    ensures link.failures == old(link.failures) ==> (bytes.Some? <==> requested > 0)
    ensures var len := Min(requested, MAX_FRAGMENT_PAYLOAD_LEN);
            bytes.Some? ==>
              && Serving(device, p, offset + len)
              && TryDecodeFragment(bytes.value)
                 == Some(ToolFragment(1, p.sequence, offset, p.payload[offset..offset + len]))
  {
    hide Fragment, FragmentBytes, TryDecodeFragment, MetadataBytes;
    var r := Request(link, device, RequestFragment, p.sequence, offset, requested, None, network, upload);
    if requested > 0 {
      FragmentServed(old(device.session.state), p, offset, requested);
    } else {
      ZeroLengthRefused(old(device.session.state), p, offset);
    }
    if r.None? || r.value.Err? {
      return None;
    }
    var read := link.Works();
    if !read {
      return None;
    }
    ghost var c := ControlFrame(RequestFragment, p.sequence, offset, requested);
    ghost var f := Fragment(old(device.session.state), p, c).1.value;
    FragmentRoundTrip(f, Zeros(MAX_FRAGMENT_PAYLOAD_LEN - |f.payload|));
    return Some(device.fragmentValue);
  }

  lemma ZeroLengthRefused(state: TransferState, p: StoredPayload, offset: u16)
    requires p.sequence < U64_LIMIT
    ensures Fragment(state, p, ControlFrame(RequestFragment, p.sequence, offset, 0))
         == (state, Err(InvalidFragmentLength))
  {
  }
}
