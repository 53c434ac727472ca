/** The BLE transfer session: hands a record out in fragments, in order, and lets it be
    acknowledged only once every byte was handed out. */
module BleTransfer {
  import opened Bytes
  import opened Backlog
  import opened BleProtocol
  import Crc32

  datatype TransferState =
    | Idle
    | Active(sequence: u64, totalLen: u16, deliveredUntil: u16, complete: bool, ackSent: bool)

  datatype AckAction = Suppress | SendStorageAck(sequence: u64)

  datatype TransferError =
    | TransferPayloadTooLarge
    | NoActiveRecord
    | SequenceMismatch
    | UnexpectedOpcode
    | InvalidFragmentLength
    | FragmentOutOfBounds
    | FragmentOutOfOrder
    | TransferIncomplete

  datatype NetworkState = Disconnected | Connecting | Connected | IpReady

  datatype UploadResult = UploadIdle | Success | Failed | DiscoveryFailed | TimeFailed | TransportFailed | HttpFailed

  datatype AckPolicy = CopyOnly | CanAckOldestRecord

  function AckPolicyOf(networkState: NetworkState, uploadResult: UploadResult): AckPolicy {
    if (networkState == Connected || networkState == IpReady) && uploadResult == Success then CopyOnly
    else CanAckOldestRecord
  }

  function ErrorFromProtocol(error: ProtocolError): TransferError {
    match error
    case ProtocolOutOfBounds => FragmentOutOfBounds
    case _ => InvalidFragmentLength
  }

  function MetadataOf(p: StoredPayload): Result<RecordMetadata, TransferError>
    requires p.sequence < U64_LIMIT
  {
    if |p.payload| >= U16_LIMIT then Err(TransferPayloadTooLarge)
    else Ok(RecordMetadata(p.sequence, |p.payload|, p.payloadFlags, Crc32.Checksum(p.payload), p.currentBoot))
  }

  // What each request does to the session state.

  function Start(state: TransferState, p: StoredPayload): (TransferState, Result<RecordMetadata, TransferError>)
    requires p.sequence < U64_LIMIT
  {
    match MetadataOf(p)
    case Err(error) => (state, Err(error))
    case Ok(m) => (Active(m.sequence, m.payloadLen, 0, m.payloadLen == 0, false), Ok(m))
  }

  function FragmentLen(p: StoredPayload, request: ControlFrame): nat
    requires request.offset <= |p.payload|
  {
    Min(Min(|p.payload| - request.offset, request.length), MAX_FRAGMENT_PAYLOAD_LEN)
  }

  /** Why a fragment request is refused, if it is. */
  function FragmentRefusal(state: TransferState, p: StoredPayload, request: ControlFrame): Option<TransferError> {
    if request.opcode != RequestFragment then Some(UnexpectedOpcode)
    else if request.length == 0 then Some(InvalidFragmentLength)
    else if state.Idle? then Some(NoActiveRecord)
    else if request.sequence != state.sequence || p.sequence != state.sequence then Some(SequenceMismatch)
    else if request.offset > |p.payload| || request.offset > state.totalLen then Some(FragmentOutOfBounds)
    else if request.offset > state.deliveredUntil then Some(FragmentOutOfOrder)
    else if FragmentLen(p, request) == 0 && request.offset != |p.payload| then Some(InvalidFragmentLength)
    else None
  }

  function Fragment(state: TransferState, p: StoredPayload, request: ControlFrame)
    : (TransferState, Result<RecordFragment, TransferError>)
  {
    var refusal := FragmentRefusal(state, p, request);
    if refusal.Some? then (state, Err(refusal.value))
    else
      var len := FragmentLen(p, request);
      match NewFragment(state.sequence, request.offset, state.totalLen, p.payload[request.offset..request.offset + len])
      case Err(error) => (state, Err(ErrorFromProtocol(error)))
      case Ok(fragment) =>
        (state.(deliveredUntil := Max(state.deliveredUntil, Min(request.offset + len, U16_LIMIT - 1))), Ok(fragment))
  }

  function Max(a: nat, b: nat): nat {
    if a < b then b else a
  }

  function Complete(state: TransferState, p: StoredPayload, request: ControlFrame)
    : (TransferState, Result<(), TransferError>)
  {
    if request.opcode != CompleteRecord then (state, Err(UnexpectedOpcode))
    else if state.Idle? then (state, Err(NoActiveRecord))
    else if request.sequence != state.sequence || p.sequence != state.sequence then (state, Err(SequenceMismatch))
    else if state.deliveredUntil < state.totalLen || |p.payload| != state.totalLen then (state, Err(TransferIncomplete))
    else (state.(complete := true), Ok(()))
  }

  function Ack(state: TransferState, p: StoredPayload, request: ControlFrame, network: NetworkState,
               upload: UploadResult)
    : (TransferState, Result<AckAction, TransferError>)
  {
    if request.opcode != AckRecord then (state, Err(UnexpectedOpcode))
    else if state.Idle? then (state, Err(NoActiveRecord))
    else if request.sequence != state.sequence || p.sequence != state.sequence then (state, Err(SequenceMismatch))
    else if !state.complete then (state, Err(TransferIncomplete))
    else if AckPolicyOf(network, upload) == CopyOnly || state.ackSent then (state, Ok(Suppress))
    else (state.(ackSent := true), Ok(SendStorageAck(state.sequence)))
  }

  /** While the network is up and the last upload succeeded, the uploader acknowledges the records. */
  predicate UploaderOwns(network: NetworkState, upload: UploadResult) {
    network in {Connected, IpReady} && upload == Success
  }

  // What any run of requests keeps.

  /** A request with the payload loaded at that time. */
  datatype SessionOp =
    | RequestFragmentOf(p: StoredPayload, request: ControlFrame)
    | RequestComplete(p: StoredPayload, request: ControlFrame)
    | RequestAck(p: StoredPayload, request: ControlFrame, network: NetworkState, upload: UploadResult)

  /** The next state, and whether an acknowledgement goes to storage. */
  function SessionNext(state: TransferState, op: SessionOp): (TransferState, bool) {
    match op
    case RequestFragmentOf(p, request) => (Fragment(state, p, request).0, false)
    case RequestComplete(p, request) => (Complete(state, p, request).0, false)
    case RequestAck(p, request, network, upload) =>
      var (state', action) := Ack(state, p, request, network, upload);
      (state', action.Ok? && action.value.SendStorageAck?)
  }

  function SessionRun(state: TransferState, ops: seq<SessionOp>): (TransferState, nat) {
    if ops == [] then (state, 0)
    else
      var (before, acks) := SessionRun(state, ops[..|ops| - 1]);
      var (after, ack) := SessionNext(before, ops[|ops| - 1]);
      (after, if ack then acks + 1 else acks)
  }

  /** The session is on one record, complete only with all bytes delivered, acknowledged only complete. */
  predicate OnRecord(state: TransferState, acks: nat, sequence: nat, len: nat) {
    && state.Active? && state.sequence == sequence && state.totalLen == len
    && acks == (if state.ackSent then 1 else 0)
    && (state.ackSent ==> state.complete)
    && (state.complete ==> state.deliveredUntil >= state.totalLen)
  }

  lemma OnRecordStep(state: TransferState, acks: nat, sequence: nat, len: nat, op: SessionOp)
    requires OnRecord(state, acks, sequence, len)
    ensures var (after, ack) := SessionNext(state, op);
            OnRecord(after, if ack then acks + 1 else acks, sequence, len)
  {
    hide AckPolicyOf, FragmentRefusal;
  }

  lemma {:induction false} StaysOnRecord(start: TransferState, sequence: nat, len: nat, ops: seq<SessionOp>)
    requires OnRecord(start, 0, sequence, len)
    ensures OnRecord(SessionRun(start, ops).0, SessionRun(start, ops).1, sequence, len)
    decreases |ops|
  {
    if ops != [] {
      hide OnRecord, SessionNext;
      var (before, acks) := SessionRun(start, ops[..|ops| - 1]);
      StaysOnRecord(start, sequence, len, ops[..|ops| - 1]);
      OnRecordStep(before, acks, sequence, len, ops[|ops| - 1]);
    }
  }

  lemma StartedOnRecord(state: TransferState, p: StoredPayload)
    requires p.sequence < U64_LIMIT && Start(state, p).1.Ok?
    ensures OnRecord(Start(state, p).0, 0, p.sequence, |p.payload|)
  {
  }

  /** Once started, whatever is requested with whatever payload: the session stays on its record, a
      record is complete only with all its bytes delivered, and storage hears of it at most once: from an
      acknowledgement request that arrives when it is complete and no successful upload is connected. */
  lemma {:induction false} OneAckPerRecord(state: TransferState, p: StoredPayload, ops: seq<SessionOp>)
    requires p.sequence < U64_LIMIT && Start(state, p).1.Ok?
    ensures var (last, acks) := SessionRun(Start(state, p).0, ops);
            && last.Active? && last.sequence == p.sequence && last.totalLen == |p.payload|
            && acks == (if last.ackSent then 1 else 0)
            && (last.ackSent ==> last.complete)
            && (last.complete ==> last.deliveredUntil >= last.totalLen)
            && (forall i :: 0 <= i < |ops| && SendsAck(Start(state, p).0, ops, i) ==>
                  var before := SessionRun(Start(state, p).0, ops[..i]).0;
                  && ops[i].RequestAck? && !UploaderOwns(ops[i].network, ops[i].upload)
                  && before.Active? && before.complete && !before.ackSent && before.deliveredUntil >= before.totalLen)
  {
    var start := Start(state, p).0;
    StartedOnRecord(state, p);
    hide AckPolicyOf, Start, SessionRun, SessionNext;
    StaysOnRecord(start, p.sequence, |p.payload|, ops);
    forall i | 0 <= i < |ops| && SendsAck(start, ops, i)
      ensures var before := SessionRun(start, ops[..i]).0;
              && ops[i].RequestAck? && !UploaderOwns(ops[i].network, ops[i].upload)
              && before.Active? && before.complete && !before.ackSent && before.deliveredUntil >= before.totalLen
    {
      StaysOnRecord(start, p.sequence, |p.payload|, ops[..i]);
      AckedByPolicy(SessionRun(start, ops[..i]).0, ops[i]);
    }
  }

  /** The request at position `i` of the run sends an acknowledgement to storage. */
  predicate SendsAck(start: TransferState, ops: seq<SessionOp>, i: nat)
    requires i < |ops|
  {
    SessionNext(SessionRun(start, ops[..i]).0, ops[i]).1
  }

  lemma AckedByPolicy(state: TransferState, op: SessionOp)
    requires SessionNext(state, op).1
    ensures op.RequestAck? && !UploaderOwns(op.network, op.upload)
    ensures state.Active? && state.complete && !state.ackSent
  {
  }

  class BleTransferSession {
    var state: TransferState

    constructor ()
      ensures state == Idle
    {
      state := Idle;
    }

    method ResetAfterDisconnect()
      modifies this
      ensures state == Idle
    {
      state := Idle;
    }

    method StartRecord(p: StoredPayload) returns (r: Result<RecordMetadata, TransferError>)
      requires p.sequence < U64_LIMIT
      modifies this
      ensures (state, r) == Start(old(state), p)
      ensures r.Ok? <==> |p.payload| < U16_LIMIT
      ensures r.Err? ==> state == old(state)
      ensures r.Ok? ==>
                && r.value.sequence == p.sequence && r.value.payloadLen == |p.payload|
                && r.value.payloadCrc32 == Crc32.Checksum(p.payload)
                && state.Active? && state.sequence == p.sequence && state.totalLen == |p.payload|
                && state.deliveredUntil == 0 && !state.ackSent && (state.complete <==> p.payload == [])
    {
      if |p.payload| >= U16_LIMIT {
        return Err(TransferPayloadTooLarge);
      }
      var sum := Crc32.Compute(p.payload);
      var m := RecordMetadata(p.sequence, |p.payload|, p.payloadFlags, sum, p.currentBoot);
      state := Active(m.sequence, m.payloadLen, 0, m.payloadLen == 0, false);
      return Ok(m);
    }

    method FragmentForRequest(p: StoredPayload, request: ControlFrame)
      returns (r: Result<RecordFragment, TransferError>)
      modifies this
      ensures (state, r) == Fragment(old(state), p, request)
      ensures r.Err? ==> state == old(state)
      ensures r.Ok? ==>
                && old(state).Active? && p.sequence == old(state).sequence == r.value.sequence
                && r.value.offset == request.offset <= old(state).deliveredUntil
                && |r.value.payload| <= MAX_FRAGMENT_PAYLOAD_LEN && |r.value.payload| <= request.length
                && request.offset + |r.value.payload| <= |p.payload|
                && r.value.payload == p.payload[request.offset..request.offset + |r.value.payload|]
                && (r.value.payload == [] ==> request.offset == |p.payload|)
                && state.Active? && state.deliveredUntil >= request.offset + |r.value.payload|
                && state.deliveredUntil >= old(state).deliveredUntil
                && (state.deliveredUntil == old(state).deliveredUntil
                    || state.deliveredUntil == request.offset + |r.value.payload|)
                && state == old(state).(deliveredUntil := state.deliveredUntil)
      ensures old(state).Active? && old(state).totalLen == |p.payload| ==>
                (r.Ok? <==>
                   && request.opcode == RequestFragment && request.length > 0
                   && request.sequence == p.sequence == old(state).sequence
                   && request.offset <= old(state).deliveredUntil && request.offset <= |p.payload|)
      ensures r.Ok? ==>
                |r.value.payload| == Min(Min(|p.payload| - request.offset, request.length), MAX_FRAGMENT_PAYLOAD_LEN)
    {
      if request.opcode != RequestFragment {
        return Err(UnexpectedOpcode);
      }
      if request.length == 0 {
        return Err(InvalidFragmentLength);
      }
      if state.Idle? {
        return Err(NoActiveRecord);
      }
      if request.sequence != state.sequence || p.sequence != state.sequence {
        return Err(SequenceMismatch);
      }
      var offset := request.offset;
      if offset > |p.payload| || offset > state.totalLen {
        return Err(FragmentOutOfBounds);
      }
      if offset > state.deliveredUntil {
        return Err(FragmentOutOfOrder);
      }
      var len := Min(Min(|p.payload| - offset, request.length), MAX_FRAGMENT_PAYLOAD_LEN);
      if len == 0 && offset != |p.payload| {
        return Err(InvalidFragmentLength);
      }
      var fragment := NewFragment(state.sequence, offset, state.totalLen, p.payload[offset..offset + len]);
      if fragment.Err? {
        return Err(ErrorFromProtocol(fragment.error));
      }
      MarkDelivered(Min(offset + len, U16_LIMIT - 1));
      return Ok(fragment.value);
    }

    method MarkDelivered(delivered: u16)
      modifies this
      ensures old(state).Idle? ==> state == old(state)
      ensures old(state).Active? ==> state == old(state).(deliveredUntil := Max(old(state).deliveredUntil, delivered))
    {
      if state.Active? {
        state := state.(deliveredUntil := Max(state.deliveredUntil, delivered));
      }
    }

    method CompleteTransfer(p: StoredPayload, request: ControlFrame) returns (r: Result<(), TransferError>)
      modifies this
      ensures (state, r) == Complete(old(state), p, request)
      ensures r.Err? ==> state == old(state)
      ensures r.Ok? ==>
                && old(state).Active? && p.sequence == old(state).sequence
                && old(state).deliveredUntil >= old(state).totalLen == |p.payload|
                && state == old(state).(complete := true)
      ensures r.Ok? <==>
                && request.opcode == CompleteRecord && old(state).Active?
                && request.sequence == p.sequence == old(state).sequence
                && old(state).deliveredUntil >= old(state).totalLen == |p.payload|
    {
      if request.opcode != CompleteRecord {
        return Err(UnexpectedOpcode);
      }
      if state.Idle? {
        return Err(NoActiveRecord);
      }
      if request.sequence != state.sequence || p.sequence != state.sequence {
        return Err(SequenceMismatch);
      }
      if state.deliveredUntil < state.totalLen || |p.payload| != state.totalLen {
        return Err(TransferIncomplete);
      }
      state := state.(complete := true);
      return Ok(());
    }

    method AckActionFor(p: StoredPayload, request: ControlFrame, network: NetworkState, upload: UploadResult)
      returns (r: Result<AckAction, TransferError>)
      modifies this
      ensures (state, r) == Ack(old(state), p, request, network, upload)
      ensures r.Ok? ==> old(state).Active? && old(state).complete && p.sequence == old(state).sequence
      ensures r.Ok? && r.value.SendStorageAck? ==>
                && r.value.sequence == p.sequence
                && state == old(state).(ackSent := true)
      ensures !(r.Ok? && r.value.SendStorageAck?) ==> state == old(state)
      ensures r.Ok? <==>
                && request.opcode == AckRecord && old(state).Active? && old(state).complete
                && request.sequence == p.sequence == old(state).sequence
      ensures r.Ok? ==>
                (r.value.SendStorageAck? <==>
                   !old(state).ackSent && !((network == Connected || network == IpReady) && upload == Success))
    {
      if request.opcode != AckRecord {
        return Err(UnexpectedOpcode);
      }
      if state.Idle? {
        return Err(NoActiveRecord);
      }
      if request.sequence != state.sequence || p.sequence != state.sequence {
        return Err(SequenceMismatch);
      }
      if !state.complete {
        return Err(TransferIncomplete);
      }
      if AckPolicyOf(network, upload) == CopyOnly || state.ackSent {
        return Ok(Suppress);
      }
      state := state.(ackSent := true);
      return Ok(SendStorageAck(state.sequence));
    }
  }
}
