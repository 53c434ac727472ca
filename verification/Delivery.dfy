/** The delivery protocol around the spool: one storage task serves a shared command channel, the
    Wi-Fi uploader and the BLE session both peek records and later acknowledge them by sequence.
    A state machine over every interleaving of their steps. */
module Delivery {
  import opened Bytes
  import opened Backlog
  import opened BleProtocol
  import opened BleTransfer
  import opened RecordTransfer

  const CHANNEL_CAPACITY := 8

  // Messages.

  datatype Client = Wifi | Ble

  datatype Ask = Peek | AckOf(sequence: nat)

  /** Every request carries a fresh ticket, which the program does not have: it names the request. */
  datatype Command = Append(payload: seq<byte>) | Request(client: Client, ticket: nat, ask: Ask)

  datatype Answer = Peeked(record: Option<StoredPayload>) | Acked(removed: bool) | StorageFailed

  datatype Reply = Reply(ticket: nat, answer: Answer)

  predicate Fits(ask: Ask, answer: Answer) {
    match ask
    case Peek => !answer.Acked?
    case AckOf(_) => !answer.Peeked?
  }

  // The three actors: storage, the uploader, the BLE session.

  datatype Wait = NotWaiting | Waiting(ticket: nat, ask: Ask)

  datatype WifiPc =
    | WifiIdle
    | WifiPeeking(ticket: nat)
    | WifiPosting(record: StoredPayload)
    | WifiAckSend(record: StoredPayload)
    | WifiAcking(ticket: nat, record: StoredPayload)

  datatype BlePc =
    | BleIdle
    | BlePeekSend
    | BlePeeking(ticket: nat)
    | BleAckSend(sequence: nat)
    | BleAcking(ticket: nat, sequence: nat)

  /** `busy` is the answer storage has worked out but not signalled yet. `history` holds every record
      that was ever pending. `handed` are the fragments handed out since the session's record was
      started. `posted`, `served` and `overwritten` say how records left. */
  datatype State = State(
    channel: seq<Command>,
    busy: Option<(Client, Reply)>,
    wifiSlot: Option<Reply>,
    bleSlot: Option<Reply>,
    available: bool,
    queue: seq<StoredPayload>,
    nextSequence: nat,
    wifi: WifiPc,
    ble: BlePc,
    bleStopped: bool,
    device: Device,
    tickets: nat,
    history: map<nat, StoredPayload>,
    handed: seq<RecordFragment>,
    posted: set<StoredPayload>,
    served: set<StoredPayload>,
    overwritten: set<StoredPayload>)

  function WifiWait(pc: WifiPc): Wait {
    match pc
    case WifiPeeking(t) => Waiting(t, Peek)
    case WifiAcking(t, record) => Waiting(t, AckOf(record.sequence))
    case _ => NotWaiting
  }

  function BleWait(pc: BlePc): Wait {
    match pc
    case BlePeeking(t) => Waiting(t, Peek)
    case BleAcking(t, sequence) => Waiting(t, AckOf(sequence))
    case _ => NotWaiting
  }

  /** What the world decides: which task moves, what the flash, the network and the central do. */
  datatype Step =
    | Measure(payload: seq<byte>)
    | StorageReceive(outcome: Outcome)
    | StorageSignal
    | WifiSend
    | WifiReceive
    | WifiPosted(success: bool)
    | BleFrame(request: ControlFrame, network: NetworkState, upload: UploadResult)
    | BleMetadataRead
    | BleSend
    | BleReceive(valueSet: bool)
    | BleDisconnect
    | BleHostStops

  /** How the spool operation behind a command ends: an append may fail, or succeed and drop the
      oldest `dropped` records; an acknowledgement may fail before or after it popped the record. */
  datatype Outcome = Succeeds(dropped: nat, currentBoot: bool) | Fails(popped: bool)

  // Storage.

  function FrontOf(queue: seq<StoredPayload>): Option<StoredPayload> {
    if queue == [] then None else Some(queue[0])
  }

  function AppendedRecord(s: State, payload: seq<byte>, outcome: Outcome): StoredPayload
    requires outcome.Succeeds?
  {
    StoredPayload(s.nextSequence, payload, PAYLOAD_FLAG_JSON_FIELDS, outcome.currentBoot)
  }

  function StorageAppend(s: State, payload: seq<byte>, outcome: Outcome): State {
    if !s.available || outcome.Fails? then s
    else
      var record := AppendedRecord(s, payload, outcome);
      var all := s.queue + [record];
      var k := Min(outcome.dropped, |all|);
      s.(queue := all[k..],
         nextSequence := s.nextSequence + 1,
         history := s.history[record.sequence := record],
         overwritten := s.overwritten + (set p | p in all[..k]))
  }

  /** What an acknowledgement request does to the queue, and its answer. */
  function AckQueue(s: State, sequence: nat, outcome: Outcome): (seq<StoredPayload>, Answer) {
    if !s.available then (s.queue, StorageFailed)
    else if s.queue == [] || s.queue[0].sequence != sequence then (s.queue, Acked(false))
    else if outcome.Succeeds? then (s.queue[1..], Acked(true))
    else (if outcome.popped then s.queue[1..] else s.queue, StorageFailed)
  }

  function StorageWork(s: State, outcome: Outcome): State
    requires s.channel != []
  {
    var rest := s.(channel := s.channel[1..]);
    match s.channel[0]
    case Append(payload) => StorageAppend(rest, payload, outcome)
    case Request(client, ticket, Peek) =>
      rest.(busy := Some((client, Reply(ticket, if s.available then Peeked(FrontOf(s.queue)) else StorageFailed))))
    case Request(client, ticket, AckOf(sequence)) =>
      var (queue, answer) := AckQueue(s, sequence, outcome);
      rest.(queue := queue, busy := Some((client, Reply(ticket, answer))))
  }

  function Signalled(s: State): State
    requires s.busy.Some?
  {
    var (client, reply) := s.busy.value;
    match client
    case Wifi => s.(busy := None, wifiSlot := Some(reply))
    case Ble => s.(busy := None, bleSlot := Some(reply))
  }

  // The uploader.

  function WifiSends(s: State): State {
    match s.wifi
    case WifiIdle =>
      s.(channel := s.channel + [Request(Wifi, s.tickets, Peek)],
         wifi := WifiPeeking(s.tickets), tickets := s.tickets + 1)
    case WifiAckSend(record) =>
      s.(channel := s.channel + [Request(Wifi, s.tickets, AckOf(record.sequence))],
         wifi := WifiAcking(s.tickets, record), tickets := s.tickets + 1)
    case _ => s
  }

  function WifiReceives(s: State): State
    requires s.wifiSlot.Some?
  {
    var taken := s.(wifiSlot := None);
    match s.wifi
    case WifiPeeking(_) =>
      (match s.wifiSlot.value.answer
       case Peeked(Some(record)) => taken.(wifi := WifiPosting(record))
       case _ => taken.(wifi := WifiIdle))
    case WifiAcking(_, _) => taken.(wifi := WifiIdle)
    case _ => s
  }

  function WifiPosts(s: State, success: bool): State {
    match s.wifi
    case WifiPosting(record) =>
      if success then s.(wifi := WifiAckSend(record), posted := s.posted + {record}) else s.(wifi := WifiIdle)
    case _ => s
  }

  // The BLE session.

  function BleHandles(s: State, request: ControlFrame, network: NetworkState, upload: UploadResult): State {
    match request.opcode
    case RequestMetadata => s.(ble := BlePeekSend)
    case RequestFragment =>
      var (device, r) := PrepareFragment(s.device, request);
      s.(device := device,
         handed := if r.Ok? then s.handed + [Fragment(s.device.state, s.device.payload.value, request).1.value]
           else s.handed)
    case CompleteRecord =>
      var (device, r) := CompleteOn(s.device, request);
      s.(device := device, served := if r.Ok? then s.served + {s.device.payload.value} else s.served)
    case AckRecord =>
      var (device, r) := AckOn(s.device, request, network, upload);
      s.(device := device,
         ble := if r.Ok? && r.value.StorageAck? && r.value.action.SendStorageAck?
                then BleAckSend(r.value.action.sequence) else s.ble)
  }

  function BleSends(s: State): State {
    match s.ble
    case BlePeekSend =>
      s.(channel := s.channel + [Request(Ble, s.tickets, Peek)], ble := BlePeeking(s.tickets), tickets := s.tickets + 1)
    case BleAckSend(sequence) =>
      s.(channel := s.channel + [Request(Ble, s.tickets, AckOf(sequence))],
         ble := BleAcking(s.tickets, sequence), tickets := s.tickets + 1)
    case _ => s
  }

  /** The peeked record, if the answer holds one that the transport can number. */
  function PeekResult(answer: Answer): (r: Option<StoredPayload>)
    ensures r.Some? ==> r.value.sequence < U64_LIMIT
  {
    match answer
    case Peeked(Some(record)) => if record.sequence < U64_LIMIT then Some(record) else None
    case _ => None
  }

  /** A record of no bytes is complete as soon as it is started. */
  function ServedAtStart(peeked: Option<StoredPayload>): set<StoredPayload> {
    if peeked.Some? && peeked.value.payload == [] then {peeked.value} else {}
  }

  function BleReceives(s: State, valueSet: bool): State
    requires s.bleSlot.Some?
  {
    var taken := s.(bleSlot := None);
    match s.ble
    case BlePeeking(_) =>
      var peeked := PeekResult(s.bleSlot.value.answer);
      taken.(ble := BleIdle,
             device := StartMetadataOn(s.device, peeked, valueSet).0,
             handed := if peeked.Some? && StartMetadata(s.device, peeked).1.Err? then s.handed else [],
             served := s.served + ServedAtStart(peeked))
    case BleAcking(_, _) => taken.(ble := BleIdle)
    case _ => s
  }

  // Steps and runs.

  predicate Enabled(s: State, step: Step) {
    match step
    case Measure(_) => true
    case StorageReceive(_) => s.busy.None? && s.channel != [] && s.nextSequence < U64_LIMIT - 1
    case StorageSignal => s.busy.Some?
    case WifiSend => |s.channel| < CHANNEL_CAPACITY
    case WifiReceive => s.wifiSlot.Some?
    case WifiPosted(_) => true
    case BleFrame(_, _, _) => !s.bleStopped && s.ble == BleIdle
    case BleMetadataRead => !s.bleStopped && s.ble == BleIdle
    case BleSend => !s.bleStopped && |s.channel| < CHANNEL_CAPACITY
    case BleReceive(_) => !s.bleStopped && s.bleSlot.Some?
    case BleDisconnect => !s.bleStopped && s.ble == BleIdle
    case BleHostStops => true
  }

  function Next(s: State, step: Step): State
    requires Enabled(s, step)
  {
    match step
    case Measure(payload) =>
      if |s.channel| < CHANNEL_CAPACITY then s.(channel := s.channel + [Append(payload)]) else s
    case StorageReceive(outcome) => StorageWork(s, outcome)
    case StorageSignal => Signalled(s)
    case WifiSend => WifiSends(s)
    case WifiReceive => WifiReceives(s)
    case WifiPosted(success) => WifiPosts(s, success)
    case BleFrame(request, network, upload) => BleHandles(s, request, network, upload)
    case BleMetadataRead => if s.device.payload.None? then s.(ble := BlePeekSend) else s
    case BleSend => BleSends(s)
    case BleReceive(valueSet) => BleReceives(s, valueSet)
    case BleDisconnect => s.(device := s.device.(state := TransferState.Idle, payload := None), handed := [])
    case BleHostStops => s.(bleStopped := true)
  }

  /** After recovery: any pending records with distinct sequences below the next one. */
  ghost predicate Init(s: State) {
    && s.channel == [] && s.busy == None && s.wifiSlot == None && s.bleSlot == None
    && s.wifi == WifiIdle && s.ble == BleIdle && !s.bleStopped
    && s.device.state == TransferState.Idle && s.device.payload == None
    && s.handed == [] && s.posted == {} && s.served == {} && s.overwritten == {}
    && s.nextSequence < U64_LIMIT
    && (forall k :: k in s.history ==> s.history[k].sequence == k < s.nextSequence)
    && (forall p :: p in s.queue ==> Known(s.history, p))
    && (forall k :: k in s.history ==> s.history[k] in s.queue)
  }

  ghost function Run(s: State, steps: seq<Step>): State {
    if steps == [] then s
    else
      var before := Run(s, steps[..|steps| - 1]);
      var step := steps[|steps| - 1];
      if Enabled(before, step) then Next(before, step) else before
  }

  // The invariant.

  predicate Known(history: map<nat, StoredPayload>, p: StoredPayload) {
    p.sequence in history && history[p.sequence] == p
  }

  function CountOf(channel: seq<Command>, c: Client): nat {
    if channel == [] then 0
    else (if channel[0].Request? && channel[0].client == c then 1 else 0) + CountOf(channel[1..], c)
  }

  predicate IsFor(busy: Option<(Client, Reply)>, c: Client) {
    busy.Some? && busy.value.0 == c
  }

  /** Everything in flight for one client: nothing, or exactly the one message it waits for. */
  ghost predicate LaneOk(channel: seq<Command>, busy: Option<(Client, Reply)>, slot: Option<Reply>, wait: Wait,
                         c: Client) {
    && (forall i :: 0 <= i < |channel| && channel[i].Request? && channel[i].client == c ==>
          wait.Waiting? && channel[i].ticket == wait.ticket && channel[i].ask == wait.ask)
    && (IsFor(busy, c) ==> Answers(busy.value.1, wait))
    && (slot.Some? ==> Answers(slot.value, wait))
    && CountOf(channel, c) + (if IsFor(busy, c) then 1 else 0) + (if slot.Some? then 1 else 0)
       == if wait.Waiting? then 1 else 0
  }

  predicate Answers(reply: Reply, wait: Wait) {
    wait.Waiting? && reply.ticket == wait.ticket && Fits(wait.ask, reply.answer)
  }

  ghost predicate Lanes(s: State) {
    && |s.channel| <= CHANNEL_CAPACITY
    && LaneOk(s.channel, s.busy, s.wifiSlot, WifiWait(s.wifi), Wifi)
    && LaneOk(s.channel, s.busy, s.bleSlot, BleWait(s.ble), Ble)
  }

  predicate ReplyKnown(history: map<nat, StoredPayload>, reply: Reply) {
    reply.answer.Peeked? && reply.answer.record.Some? ==> Known(history, reply.answer.record.value)
  }

  /** Every copy of a record anywhere is the record that was appended under its sequence. */
  ghost predicate Copies(s: State) {
    && s.nextSequence < U64_LIMIT
    && (forall k :: k in s.history ==> s.history[k].sequence == k < s.nextSequence)
    && (forall p :: p in s.queue ==> Known(s.history, p))
    && (s.busy.Some? ==> ReplyKnown(s.history, s.busy.value.1))
    && (s.wifiSlot.Some? ==> ReplyKnown(s.history, s.wifiSlot.value))
    && (s.bleSlot.Some? ==> ReplyKnown(s.history, s.bleSlot.value))
    && (s.wifi.WifiPosting? ==> Known(s.history, s.wifi.record))
    && (s.device.payload.Some? ==> Known(s.history, s.device.payload.value))
  }

  /** What the uploader acknowledges, it has posted. */
  ghost predicate WifiPaid(s: State) {
    (s.wifi.WifiAckSend? || s.wifi.WifiAcking?) ==> Known(s.history, s.wifi.record) && s.wifi.record in s.posted
  }

  /** Byte `i` of `p` is in a fragment that was handed out. */
  ghost predicate HandedOut(handed: seq<RecordFragment>, p: StoredPayload, i: nat)
    requires i < |p.payload|
  {
    exists f :: f in handed && f.sequence == p.sequence && f.offset <= i < f.offset + |f.payload|
                && f.payload[i - f.offset] == p.payload[i]
  }

  ghost predicate AllHandedOut(handed: seq<RecordFragment>, p: StoredPayload, upTo: nat)
    requires upTo <= |p.payload|
  {
    forall i :: 0 <= i < upTo ==> HandedOut(handed, p, i)
  }

  /** The session is about a known record, and what it counts as delivered was handed out. */
  ghost predicate SessionOk(history: map<nat, StoredPayload>, d: Device, handed: seq<RecordFragment>,
                            served: set<StoredPayload>) {
    d.state.Active? ==>
      && d.state.sequence in history
      && var p := history[d.state.sequence];
         && p.sequence == d.state.sequence
         && d.state.deliveredUntil <= d.state.totalLen == |p.payload|
         && AllHandedOut(handed, p, d.state.deliveredUntil)
         && (d.state.complete ==> d.state.deliveredUntil == |p.payload| && p in served)
  }

  /** What the BLE session acknowledges, it has completed. */
  ghost predicate BlePaid(s: State) {
    && SessionOk(s.history, s.device, s.handed, s.served)
    && (s.ble.BleAckSend? || s.ble.BleAcking? ==>
          s.device.state.Active? && s.device.state.complete && s.device.state.sequence == s.ble.sequence)
  }

  /** Every record that was ever pending still is, or was posted, handed out, or overwritten. */
  ghost predicate NothingLost(s: State) {
    forall k :: k in s.history ==>
      || s.history[k] in s.queue || s.history[k] in s.posted || s.history[k] in s.served
      || s.history[k] in s.overwritten
  }

  ghost predicate Inv(s: State) {
    Lanes(s) && Copies(s) && WifiPaid(s) && BlePaid(s) && NothingLost(s)
  }

  // Messages in flight.

  lemma {:induction false} CountAppend(channel: seq<Command>, x: Command, c: Client)
    ensures CountOf(channel + [x], c) == CountOf(channel, c) + CountOf([x], c)
  {
    if channel == [] {
      assert channel + [x] == [x];
    } else {
      assert (channel + [x])[1..] == channel[1..] + [x];
      CountAppend(channel[1..], x, c);
    }
  }

  lemma {:induction false} CountZero(channel: seq<Command>, c: Client)
    requires CountOf(channel, c) == 0
    ensures forall i :: 0 <= i < |channel| ==> !(channel[i].Request? && channel[i].client == c)
  {
    if channel != [] {
      CountZero(channel[1..], c);
      assert forall i :: 1 <= i < |channel| ==> channel[i] == channel[1..][i - 1];
    }
  }

  lemma LaneEnqueueOther(channel: seq<Command>, busy: Option<(Client, Reply)>, slot: Option<Reply>, wait: Wait,
                         c: Client, x: Command)
    requires LaneOk(channel, busy, slot, wait, c) && !(x.Request? && x.client == c)
    ensures LaneOk(channel + [x], busy, slot, wait, c)
  {
    CountAppend(channel, x, c);
  }

  lemma LaneSend(channel: seq<Command>, busy: Option<(Client, Reply)>, slot: Option<Reply>, c: Client, ticket: nat,
                 ask: Ask)
    requires LaneOk(channel, busy, slot, NotWaiting, c)
    ensures LaneOk(channel + [Request(c, ticket, ask)], busy, slot, Waiting(ticket, ask), c)
  {
    var x := Request(c, ticket, ask);
    CountAppend(channel, x, c);
    CountZero(channel, c);
    assert forall i :: 0 <= i < |channel| ==> (channel + [x])[i] == channel[i];
  }

  lemma LaneTakeOther(channel: seq<Command>, slot: Option<Reply>, wait: Wait, c: Client, busy: Option<(Client, Reply)>)
    requires channel != [] && LaneOk(channel, None, slot, wait, c)
    requires !(channel[0].Request? && channel[0].client == c) && !IsFor(busy, c)
    ensures LaneOk(channel[1..], busy, slot, wait, c)
  {
  }

  /** Storage takes a client's request and works out an answer to it. */
  lemma LaneTake(channel: seq<Command>, slot: Option<Reply>, wait: Wait, c: Client, answer: Answer)
    requires channel != [] && LaneOk(channel, None, slot, wait, c)
    requires channel[0].Request? && channel[0].client == c && Fits(channel[0].ask, answer)
    ensures LaneOk(channel[1..], Some((c, Reply(channel[0].ticket, answer))), slot, wait, c)
    ensures slot == None && wait == Waiting(channel[0].ticket, channel[0].ask)
  {
    CountZero(channel[1..], c);
    assert forall i :: 0 <= i < |channel| - 1 ==> channel[1..][i] == channel[i + 1];
  }

  /** No answer is ever signalled over one that was not read. */
  lemma LaneSignal(channel: seq<Command>, busy: Option<(Client, Reply)>, slot: Option<Reply>, wait: Wait, c: Client)
    requires LaneOk(channel, busy, slot, wait, c) && IsFor(busy, c)
    ensures slot == None
    ensures LaneOk(channel, None, Some(busy.value.1), wait, c)
  {
  }

  lemma LaneReceive(channel: seq<Command>, busy: Option<(Client, Reply)>, slot: Option<Reply>, wait: Wait, c: Client)
    requires LaneOk(channel, busy, slot, wait, c) && slot.Some?
    ensures wait.Waiting? && Answers(slot.value, wait)
    ensures LaneOk(channel, busy, None, NotWaiting, c)
  {
    CountZero(channel, c);
  }

  lemma LanesKept(s: State, step: Step)
    requires Inv(s) && Enabled(s, step)
    ensures Lanes(Next(s, step))
  {
    hide LaneOk, Copies, WifiPaid, BlePaid, NothingLost, StorageWork;
    hide StartMetadata, StartMetadataOn, PrepareFragment, CompleteOn, AckOn, Fragment;
    match step {
      case Measure(payload) =>
        LaneEnqueueOther(s.channel, s.busy, s.wifiSlot, WifiWait(s.wifi), Wifi, Append(payload));
        LaneEnqueueOther(s.channel, s.busy, s.bleSlot, BleWait(s.ble), Ble, Append(payload));
      case StorageReceive(outcome) => StorageLanes(s, outcome);
      case StorageSignal =>
        if s.busy.value.0 == Wifi {
          LaneSignal(s.channel, s.busy, s.wifiSlot, WifiWait(s.wifi), Wifi);
          LaneNotBusy(s.channel, s.busy, s.bleSlot, BleWait(s.ble), Ble);
        } else {
          LaneSignal(s.channel, s.busy, s.bleSlot, BleWait(s.ble), Ble);
          LaneNotBusy(s.channel, s.busy, s.wifiSlot, WifiWait(s.wifi), Wifi);
        }
      case WifiSend =>
        if s.wifi.WifiIdle? || s.wifi.WifiAckSend? {
          var ask := if s.wifi.WifiIdle? then Peek else AckOf(s.wifi.record.sequence);
          LaneSend(s.channel, s.busy, s.wifiSlot, Wifi, s.tickets, ask);
          LaneEnqueueOther(s.channel, s.busy, s.bleSlot, BleWait(s.ble), Ble, Request(Wifi, s.tickets, ask));
        }
      case WifiReceive => LaneReceive(s.channel, s.busy, s.wifiSlot, WifiWait(s.wifi), Wifi);
      case BleSend =>
        if s.ble.BlePeekSend? || s.ble.BleAckSend? {
          var ask := if s.ble.BlePeekSend? then Peek else AckOf(s.ble.sequence);
          LaneSend(s.channel, s.busy, s.bleSlot, Ble, s.tickets, ask);
          LaneEnqueueOther(s.channel, s.busy, s.wifiSlot, WifiWait(s.wifi), Wifi, Request(Ble, s.tickets, ask));
        }
      case BleReceive(valueSet) => LaneReceive(s.channel, s.busy, s.bleSlot, BleWait(s.ble), Ble);
      case _ =>
    }
  }

  lemma LaneNotBusy(channel: seq<Command>, busy: Option<(Client, Reply)>, slot: Option<Reply>, wait: Wait, c: Client)
    requires LaneOk(channel, busy, slot, wait, c) && !IsFor(busy, c)
    ensures LaneOk(channel, None, slot, wait, c)
  {
  }

  lemma StorageLanes(s: State, outcome: Outcome)
    requires Lanes(s) && s.busy.None? && s.channel != []
    ensures Lanes(StorageWork(s, outcome))
  {
    hide LaneOk;
    var head := s.channel[0];
    var busy := StorageWork(s, outcome).busy;
    if head.Request? && head.client == Wifi {
      LaneTake(s.channel, s.wifiSlot, WifiWait(s.wifi), Wifi, busy.value.1.answer);
      LaneTakeOther(s.channel, s.bleSlot, BleWait(s.ble), Ble, busy);
    } else if head.Request? {
      LaneTake(s.channel, s.bleSlot, BleWait(s.ble), Ble, busy.value.1.answer);
      LaneTakeOther(s.channel, s.wifiSlot, WifiWait(s.wifi), Wifi, busy);
    } else {
      LaneTakeOther(s.channel, s.wifiSlot, WifiWait(s.wifi), Wifi, busy);
      LaneTakeOther(s.channel, s.bleSlot, BleWait(s.ble), Ble, busy);
    }
  }

  // Copies of records.

  lemma AppendKept(s: State, payload: seq<byte>, outcome: Outcome)
    requires Inv(s) && s.nextSequence < U64_LIMIT - 1
    ensures var s' := StorageAppend(s, payload, outcome);
            Copies(s') && WifiPaid(s') && BlePaid(s') && NothingLost(s')
  {
    hide Lanes;
    if s.available && outcome.Succeeds? {
      var record := AppendedRecord(s, payload, outcome);
      var s' := StorageAppend(s, payload, outcome);
      var all := s.queue + [record];
      var k := Min(outcome.dropped, |all|);
      assert forall p :: Known(s.history, p) ==> Known(s'.history, p);
      forall p | p in s'.queue
        ensures Known(s'.history, p)
      {
        assert p in s.queue || p == record;
      }
      forall p | p in all
        ensures p in s'.queue || p in s'.overwritten
      {
        assert p in all[..k] || p in all[k..];
      }
      assert forall q :: q in s.queue ==> q in all;
    }
  }

  /** Removing a front record that was posted or completed keeps everything else. */
  lemma FrontRemoved(s: State)
    requires Copies(s) && WifiPaid(s) && BlePaid(s) && NothingLost(s)
    requires s.queue != [] && (s.queue[0] in s.posted || s.queue[0] in s.served)
    ensures var s' := s.(queue := s.queue[1..]);
            Copies(s') && WifiPaid(s') && BlePaid(s') && NothingLost(s')
  {
    hide SessionOk, Known;
    assert forall p :: p in s.queue ==> p == s.queue[0] || p in s.queue[1..];
  }

  lemma Answered(s: State, client: Client, reply: Reply)
    requires Copies(s) && WifiPaid(s) && BlePaid(s) && NothingLost(s) && s.channel != []
    requires ReplyKnown(s.history, reply)
    ensures var s' := s.(channel := s.channel[1..], busy := Some((client, reply)));
            Copies(s') && WifiPaid(s') && BlePaid(s') && NothingLost(s')
  {
    hide SessionOk, Known, ReplyKnown;
  }

  lemma AckKept(s: State, sequence: nat, outcome: Outcome)
    requires Inv(s) && s.busy.None? && s.channel != [] && s.channel[0].Request? && s.channel[0].ask == AckOf(sequence)
    ensures var s' := StorageWork(s, outcome);
            Copies(s') && WifiPaid(s') && BlePaid(s') && NothingLost(s')
  {
    var client := s.channel[0].client;
    var (queue, answer) := AckQueue(s, sequence, outcome);
    if queue != s.queue {
      FrontWasDelivered(s);
    }
    hide Inv, Lanes, Copies, WifiPaid, BlePaid, NothingLost;
    Parts(s);
    var popped := s.(queue := queue);
    if queue != s.queue {
      FrontRemoved(s);
    } else {
      assert popped == s;
    }
    Answered(popped, client, Reply(s.channel[0].ticket, answer));
  }

  lemma Parts(s: State)
    requires Inv(s)
    ensures Copies(s) && WifiPaid(s) && BlePaid(s) && NothingLost(s)
    ensures SessionOk(s.history, s.device, s.handed, s.served)
  {
  }

  /** The request storage takes next is the one its client waits on. */
  lemma RequestIsAwaited(s: State)
    requires Lanes(s) && s.channel != [] && s.channel[0].Request?
    ensures var wait := if s.channel[0].client == Wifi then WifiWait(s.wifi) else BleWait(s.ble);
            wait == Waiting(s.channel[0].ticket, s.channel[0].ask)
  {
  }

  /** A record whose acknowledgement storage takes next was posted, or handed out and completed. */
  lemma FrontWasDelivered(s: State)
    requires Inv(s) && s.channel != [] && s.channel[0].Request? && s.queue != []
    requires s.channel[0].ask == AckOf(s.queue[0].sequence)
    ensures s.channel[0].client == Wifi ==> s.queue[0] in s.posted
    ensures s.channel[0].client == Ble ==>
              && s.queue[0] in s.served
              && s.device.state.Active? && s.device.state.sequence == s.queue[0].sequence && s.device.state.complete
              && AllHandedOut(s.handed, s.queue[0], |s.queue[0].payload|)
  {
    RequestIsAwaited(s);
    hide Lanes, AllHandedOut;
    assert Known(s.history, s.queue[0]);
  }

  lemma StorageKept(s: State, outcome: Outcome)
    requires Inv(s) && s.busy.None? && s.channel != [] && s.nextSequence < U64_LIMIT - 1
    ensures var s' := StorageWork(s, outcome);
            Copies(s') && WifiPaid(s') && BlePaid(s') && NothingLost(s')
  {
    match s.channel[0]
    case Append(payload) =>
      hide Copies, WifiPaid, BlePaid, NothingLost, LaneOk, StorageAppend;
      AppendedElsewhere(s, payload, outcome);
    case Request(_, _, Peek) =>
      hide SessionOk, LaneOk;
    case Request(_, _, AckOf(sequence)) =>
      AckKept(s, sequence, outcome);
  }

  lemma AppendedElsewhere(s: State, payload: seq<byte>, outcome: Outcome)
    requires Inv(s) && s.channel != [] && s.nextSequence < U64_LIMIT - 1
    ensures var s' := StorageAppend(s.(channel := s.channel[1..]), payload, outcome);
            Copies(s') && WifiPaid(s') && BlePaid(s') && NothingLost(s')
  {
    hide LaneOk, SessionOk;
    AppendKept(s, payload, outcome);
    var t := StorageAppend(s, payload, outcome);
    var s' := StorageAppend(s.(channel := s.channel[1..]), payload, outcome);
    assert s' == t.(channel := s.channel[1..]);
  }

  // The uploader's and the session's steps.

  lemma MessageKept(s: State, step: Step)
    requires Inv(s) && Enabled(s, step) && (step.WifiSend? || step.Measure?)
    ensures var s' := Next(s, step);
            Copies(s') && WifiPaid(s') && BlePaid(s') && NothingLost(s')
  {
    hide Lanes, SessionOk, Known;
  }

  lemma SignalKept(s: State)
    requires Inv(s) && s.busy.Some?
    ensures var s' := Signalled(s);
            Copies(s') && WifiPaid(s') && BlePaid(s') && NothingLost(s')
  {
    hide Lanes, SessionOk, Known;
  }

  lemma WifiReceiveKept(s: State)
    requires Inv(s) && s.wifiSlot.Some?
    ensures var s' := WifiReceives(s);
            Copies(s') && WifiPaid(s') && BlePaid(s') && NothingLost(s')
  {
    hide Lanes, SessionOk, Known;
  }

  lemma WifiPostedKept(s: State, success: bool)
    requires Inv(s)
    ensures var s' := WifiPosts(s, success);
            Copies(s') && WifiPaid(s') && BlePaid(s') && NothingLost(s')
  {
    hide Lanes, SessionOk, Known;
  }

  /** One fragment extends what was handed out. */
  lemma FragmentExtends(d: Device, request: ControlFrame, history: map<nat, StoredPayload>,
                        handed: seq<RecordFragment>, served: set<StoredPayload>)
    requires SessionOk(history, d, handed, served)
    requires d.payload.Some? && Known(history, d.payload.value)
    requires PrepareFragment(d, request).1.Ok?
    ensures var f := Fragment(d.state, d.payload.value, request).1.value;
            SessionOk(history, PrepareFragment(d, request).0, handed + [f], served)
  {
    hide FragmentBytes;
    var p := d.payload.value;
    var (state', fragment) := Fragment(d.state, p, request);
    var f := fragment.value;
    var handed' := handed + [f];
    assert p == history[d.state.sequence];
    forall i | 0 <= i < state'.deliveredUntil
      ensures HandedOut(handed', p, i)
    {
      if i < d.state.deliveredUntil {
        assert HandedOut(handed, p, i);
        var g :| g in handed && g.sequence == p.sequence && g.offset <= i < g.offset + |g.payload|
          && g.payload[i - g.offset] == p.payload[i];
        assert g in handed';
      } else {
        assert f in handed';
        assert f.payload[i - f.offset] == p.payload[i];
      }
    }
  }

  lemma CompleteKeeps(d: Device, request: ControlFrame, history: map<nat, StoredPayload>,
                      handed: seq<RecordFragment>, served: set<StoredPayload>)
    requires SessionOk(history, d, handed, served)
    requires d.payload.Some? && Known(history, d.payload.value)
    requires CompleteOn(d, request).1.Ok?
    ensures SessionOk(history, CompleteOn(d, request).0, handed, served + {d.payload.value})
  {
    hide AllHandedOut;
  }

  lemma StartKeeps(d: Device, peeked: Option<StoredPayload>, valueSet: bool, history: map<nat, StoredPayload>,
                   handed: seq<RecordFragment>, served: set<StoredPayload>)
    requires SessionOk(history, d, handed, served)
    requires peeked.Some? ==> Known(history, peeked.value) && peeked.value.sequence < U64_LIMIT
    ensures var d' := StartMetadataOn(d, peeked, valueSet).0;
            && SessionOk(history, d', if peeked.Some? && StartMetadata(d, peeked).1.Err? then handed else [],
                         served + ServedAtStart(peeked))
            && (d'.payload.Some? ==> d'.payload == d.payload || d'.payload == peeked)
  {
    hide MetadataBytes, HandedOut;
  }

  lemma RequestsKeepPayload(d: Device, request: ControlFrame, network: NetworkState, upload: UploadResult)
    ensures PrepareFragment(d, request).0.payload == d.payload
    ensures PrepareFragment(d, request).1.Err? ==> PrepareFragment(d, request).0.state == d.state
    ensures PrepareFragment(d, request).1.Ok? ==> d.payload.Some?
    ensures CompleteOn(d, request).0.payload == d.payload
    ensures CompleteOn(d, request).1.Err? ==> CompleteOn(d, request).0.state == d.state
    ensures CompleteOn(d, request).1.Ok? ==> d.payload.Some?
    ensures var (d', r) := AckOn(d, request, network, upload);
            && d'.payload == d.payload
            && (d'.state == d.state
                || (d.state.Active? && d.state.complete && d'.state == d.state.(ackSent := true)))
            && (r.Ok? && r.value.StorageAck? && r.value.action.SendStorageAck? ==>
                 d.state.Active? && d.state.complete && r.value.action.sequence == d.state.sequence)
  {
    hide FragmentRefusal, PaddedFragment;
  }

  lemma SessionOkOf(d: Device, d': Device, history: map<nat, StoredPayload>, handed: seq<RecordFragment>,
                    served: set<StoredPayload>)
    requires SessionOk(history, d, handed, served)
    requires d'.state == d.state || (d.state.Active? && d.state.complete && d'.state == d.state.(ackSent := true))
    ensures SessionOk(history, d', handed, served)
  {
    hide AllHandedOut;
  }

  /** The session's parts of the state change to values that fit together. */
  lemma SessionMoves(s: State, ble: BlePc, device: Device, handed: seq<RecordFragment>, served: set<StoredPayload>)
    requires Copies(s) && WifiPaid(s) && NothingLost(s) && s.served <= served
    requires SessionOk(s.history, device, handed, served)
    requires device.payload.Some? ==> Known(s.history, device.payload.value)
    requires ble.BleAckSend? || ble.BleAcking? ==>
               device.state.Active? && device.state.complete && device.state.sequence == ble.sequence
    ensures var s' := s.(ble := ble, device := device, handed := handed, served := served);
            Copies(s') && WifiPaid(s') && BlePaid(s') && NothingLost(s')
  {
    hide SessionOk, Known;
  }

  lemma FragmentKept(s: State, request: ControlFrame, network: NetworkState, upload: UploadResult)
    requires Inv(s) && s.ble == BleIdle && request.opcode == RequestFragment
    ensures var s' := BleHandles(s, request, network, upload);
            Copies(s') && WifiPaid(s') && BlePaid(s') && NothingLost(s')
  {
    RequestsKeepPayload(s.device, request, network, upload);
    PayloadKnown(s);
    Parts(s);
    hide Inv, Copies, WifiPaid, NothingLost, SessionOk, PrepareFragment, CompleteOn, AckOn, Fragment, Known;
    var (device, r) := PrepareFragment(s.device, request);
    if r.Ok? {
      FragmentExtends(s.device, request, s.history, s.handed, s.served);
      var f := Fragment(s.device.state, s.device.payload.value, request).1.value;
      SessionMoves(s, s.ble, device, s.handed + [f], s.served);
    } else {
      SessionOkOf(s.device, device, s.history, s.handed, s.served);
      SessionMoves(s, s.ble, device, s.handed, s.served);
    }
  }

  lemma CompleteKept(s: State, request: ControlFrame, network: NetworkState, upload: UploadResult)
    requires Inv(s) && s.ble == BleIdle && request.opcode == CompleteRecord
    ensures var s' := BleHandles(s, request, network, upload);
            Copies(s') && WifiPaid(s') && BlePaid(s') && NothingLost(s')
  {
    RequestsKeepPayload(s.device, request, network, upload);
    PayloadKnown(s);
    Parts(s);
    hide Inv, Copies, WifiPaid, NothingLost, SessionOk, PrepareFragment, CompleteOn, AckOn, Fragment, Known;
    var (device, r) := CompleteOn(s.device, request);
    if r.Ok? {
      CompleteKeeps(s.device, request, s.history, s.handed, s.served);
      SessionMoves(s, s.ble, device, s.handed, s.served + {s.device.payload.value});
    } else {
      SessionOkOf(s.device, device, s.history, s.handed, s.served);
      SessionMoves(s, s.ble, device, s.handed, s.served);
    }
  }

  lemma AckRequestKept(s: State, request: ControlFrame, network: NetworkState, upload: UploadResult)
    requires Inv(s) && s.ble == BleIdle && request.opcode == AckRecord
    ensures var s' := BleHandles(s, request, network, upload);
            Copies(s') && WifiPaid(s') && BlePaid(s') && NothingLost(s')
  {
    hide Inv, Copies, WifiPaid, BlePaid, NothingLost, SessionOk, AckOn, Known, BleHandles;
    RequestsKeepPayload(s.device, request, network, upload);
    Parts(s);
    PayloadKnown(s);
    AckHandled(s, request, network, upload);
    var (device, r) := AckOn(s.device, request, network, upload);
    SessionOkOf(s.device, device, s.history, s.handed, s.served);
    SessionMoves(s, BleHandles(s, request, network, upload).ble, device, s.handed, s.served);
  }

  lemma AckHandled(s: State, request: ControlFrame, network: NetworkState, upload: UploadResult)
    requires request.opcode == AckRecord
    ensures var (device, r) := AckOn(s.device, request, network, upload);
            var ble := if r.Ok? && r.value.StorageAck? && r.value.action.SendStorageAck?
                       then BleAckSend(r.value.action.sequence) else s.ble;
            BleHandles(s, request, network, upload)
              == s.(ble := ble, device := device, handed := s.handed, served := s.served)
  {
    hide AckOn;
  }

  lemma BleFrameKept(s: State, request: ControlFrame, network: NetworkState, upload: UploadResult)
    requires Inv(s) && s.ble == BleIdle
    ensures var s' := BleHandles(s, request, network, upload);
            Copies(s') && WifiPaid(s') && BlePaid(s') && NothingLost(s')
  {
    if request.opcode == RequestMetadata {
      Parts(s);
      PayloadKnown(s);
      SessionMoves(s, BlePeekSend, s.device, s.handed, s.served);
    } else {
      hide Inv, Copies, WifiPaid, BlePaid, NothingLost, BleHandles;
      match request.opcode {
        case RequestFragment => FragmentKept(s, request, network, upload);
        case CompleteRecord => CompleteKept(s, request, network, upload);
        case AckRecord => AckRequestKept(s, request, network, upload);
      }
    }
  }

  lemma PayloadKnown(s: State)
    requires Copies(s)
    ensures s.device.payload.Some? ==> Known(s.history, s.device.payload.value)
    ensures s.bleSlot.Some? ==> ReplyKnown(s.history, s.bleSlot.value)
  {
  }

  lemma SlotTaken(s: State)
    requires Copies(s) && WifiPaid(s) && BlePaid(s) && NothingLost(s)
    ensures var s' := s.(bleSlot := None);
            Copies(s') && WifiPaid(s') && BlePaid(s') && NothingLost(s')
  {
    hide SessionOk, Known, ReplyKnown;
  }

  lemma BleReceiveKept(s: State, valueSet: bool)
    requires Inv(s) && s.bleSlot.Some?
    ensures var s' := BleReceives(s, valueSet);
            Copies(s') && WifiPaid(s') && BlePaid(s') && NothingLost(s')
  {
    PayloadKnown(s);
    Parts(s);
    hide Inv, Copies, WifiPaid, NothingLost, SessionOk, StartMetadata, StartMetadataOn, Known;
    SlotTaken(s);
    var taken := s.(bleSlot := None);
    match s.ble {
      case BlePeeking(_) =>
        var peeked := PeekResult(s.bleSlot.value.answer);
        StartKeeps(s.device, peeked, valueSet, s.history, s.handed, s.served);
        SessionMoves(taken, BleIdle, StartMetadataOn(s.device, peeked, valueSet).0,
                     if peeked.Some? && StartMetadata(s.device, peeked).1.Err? then s.handed else [],
                     s.served + ServedAtStart(peeked));
      case BleAcking(_, _) =>
        SessionMoves(taken, BleIdle, s.device, s.handed, s.served);
        assert taken.(ble := BleIdle, device := s.device, handed := s.handed, served := s.served)
               == taken.(ble := BleIdle);
      case _ =>
    }
  }

  lemma BleSendKept(s: State)
    requires Copies(s) && WifiPaid(s) && BlePaid(s) && NothingLost(s)
    ensures var s' := BleSends(s);
            Copies(s') && WifiPaid(s') && BlePaid(s') && NothingLost(s')
  {
    hide SessionOk, Known, ReplyKnown;
  }

  lemma BleRestKept(s: State, step: Step)
    requires Copies(s) && WifiPaid(s) && BlePaid(s) && NothingLost(s) && Enabled(s, step)
    requires step.BleMetadataRead? || step.BleDisconnect? || step.BleHostStops?
    ensures var s' := Next(s, step);
            Copies(s') && WifiPaid(s') && BlePaid(s') && NothingLost(s')
  {
    hide AllHandedOut, Known, ReplyKnown;
  }

  lemma BleKept(s: State, step: Step)
    requires Inv(s) && Enabled(s, step)
    requires step.BleFrame? || step.BleMetadataRead? || step.BleSend? || step.BleReceive? || step.BleDisconnect?
             || step.BleHostStops?
    ensures var s' := Next(s, step);
            Copies(s') && WifiPaid(s') && BlePaid(s') && NothingLost(s')
  {
    Parts(s);
    hide Inv, Copies, WifiPaid, BlePaid, NothingLost, BleHandles, BleSends, BleReceives;
    match step
    case BleFrame(request, network, upload) => BleFrameKept(s, request, network, upload);
    case BleReceive(valueSet) => BleReceiveKept(s, valueSet);
    case BleSend => BleSendKept(s);
    case _ => BleRestKept(s, step);
  }

  /** Every step of every task keeps the protocol's invariant. */
  lemma StepKeepsInv(s: State, step: Step)
    requires Inv(s) && Enabled(s, step)
    ensures Inv(Next(s, step))
  {
    LanesKept(s, step);
    hide Lanes, Copies, WifiPaid, BlePaid, NothingLost;
    match step
    case StorageReceive(outcome) => StorageKept(s, outcome);
    case Measure(_) => MessageKept(s, step);
    case StorageSignal => SignalKept(s);
    case WifiSend => MessageKept(s, step);
    case WifiReceive => WifiReceiveKept(s);
    case WifiPosted(success) => WifiPostedKept(s, success);
    case _ => BleKept(s, step);
  }

  lemma {:induction false} InvOverRun(s: State, steps: seq<Step>)
    requires Inv(s)
    ensures Inv(Run(s, steps))
    decreases |steps|
  {
    if steps != [] {
      hide Inv;
      InvOverRun(s, steps[..|steps| - 1]);
      var before := Run(s, steps[..|steps| - 1]);
      if Enabled(before, steps[|steps| - 1]) {
        StepKeepsInv(before, steps[|steps| - 1]);
      }
    }
  }

  lemma RunKeepsInv(s: State, steps: seq<Step>)
    requires Init(s)
    ensures Inv(Run(s, steps))
  {
    InvOverRun(s, steps);
  }

  // How far a waiting client is from its answer.

  function WaitOf(s: State, c: Client): Wait {
    match c
    case Wifi => WifiWait(s.wifi)
    case Ble => BleWait(s.ble)
  }

  function SlotOf(s: State, c: Client): Option<Reply> {
    match c
    case Wifi => s.wifiSlot
    case Ble => s.bleSlot
  }

  predicate IsRequestOf(command: Command, c: Client) {
    command.Request? && command.client == c
  }

  /** How many commands are queued before the client's first request. */
  function Position(channel: seq<Command>, c: Client): nat {
    if channel == [] || IsRequestOf(channel[0], c) then 0 else 1 + Position(channel[1..], c)
  }

  /** An upper bound on the moves storage still makes before the client's slot is filled: two for each
      command up to its request, one for an answer not yet signalled. */
  function Distance(s: State, c: Client): nat {
    if SlotOf(s, c).Some? then 0
    else if IsFor(s.busy, c) then 1
    else 2 * (Position(s.channel, c) + 1) + if s.busy.Some? then 1 else 0
  }

  predicate StorageMove(step: Step) {
    step.StorageReceive? || step.StorageSignal?
  }

  lemma {:induction false} PositionOfCounted(channel: seq<Command>, c: Client)
    requires CountOf(channel, c) > 0
    ensures Position(channel, c) < |channel| && IsRequestOf(channel[Position(channel, c)], c)
  {
    if !IsRequestOf(channel[0], c) {
      PositionOfCounted(channel[1..], c);
    }
  }

  lemma {:induction false} PositionKept(channel: seq<Command>, x: Command, c: Client)
    requires CountOf(channel, c) > 0
    ensures Position(channel + [x], c) == Position(channel, c)
  {
    if !IsRequestOf(channel[0], c) {
      assert (channel + [x])[1..] == channel[1..] + [x];
      PositionKept(channel[1..], x, c);
    }
  }

  ghost predicate LaneOf(s: State, c: Client) {
    LaneOk(s.channel, s.busy, SlotOf(s, c), WaitOf(s, c), c)
  }

  /** Exactly where a waiting client's one message is. */
  lemma LanePlaces(s: State, c: Client)
    requires LaneOf(s, c) && WaitOf(s, c).Waiting?
    ensures SlotOf(s, c).Some? ==> Answers(SlotOf(s, c).value, WaitOf(s, c))
    ensures IsFor(s.busy, c) ==> Answers(s.busy.value.1, WaitOf(s, c))
    ensures SlotOf(s, c).None? && !IsFor(s.busy, c) ==>
              && CountOf(s.channel, c) > 0
              && Position(s.channel, c) < |s.channel|
              && s.channel[Position(s.channel, c)] == Request(c, WaitOf(s, c).ticket, WaitOf(s, c).ask)
  {
    if SlotOf(s, c).None? && !IsFor(s.busy, c) {
      PositionOfCounted(s.channel, c);
    }
  }

  lemma LanesOf(s: State, c: Client)
    requires Inv(s)
    ensures LaneOf(s, c) && |s.channel| <= CHANNEL_CAPACITY
  {
  }

  /** Only storage answers: any other step leaves a waiting client's lane alone, up to a new command
      behind its own. */
  lemma OthersOnlyEnqueue(s: State, step: Step, c: Client)
    requires Enabled(s, step) && !StorageMove(step) && WaitOf(s, c).Waiting? && SlotOf(s, c).None?
    ensures var t := Next(s, step);
            && WaitOf(t, c) == WaitOf(s, c) && SlotOf(t, c).None? && t.busy == s.busy
            && (t.channel == s.channel || t.channel == s.channel + [t.channel[|t.channel| - 1]])
  {
    hide StartMetadata, StartMetadataOn, PrepareFragment, CompleteOn, AckOn, Fragment;
  }

  /** Until its slot is filled, a waiting client keeps waiting on the same request, no step of anyone
      takes it further from its answer, and every move of storage takes it nearer. */
  lemma EveryMoveServes(s: State, step: Step, c: Client)
    requires LaneOf(s, c) && Enabled(s, step) && WaitOf(s, c).Waiting? && SlotOf(s, c).None?
    ensures WaitOf(Next(s, step), c) == WaitOf(s, c)
    ensures Distance(Next(s, step), c) + (if StorageMove(step) then 1 else 0) <= Distance(s, c)
  {
    LanePlaces(s, c);
    hide LaneOk, StorageWork;
    if step.StorageReceive? {
      StorageTakesHead(s, step.outcome);
    } else if !step.StorageSignal? {
      OthersOnlyEnqueue(s, step, c);
      var t := Next(s, step);
      hide Next;
      if t.channel != s.channel && !IsFor(s.busy, c) {
        PositionKept(s.channel, t.channel[|t.channel| - 1], c);
      }
    }
  }

  lemma StorageTakesHead(s: State, outcome: Outcome)
    requires s.channel != []
    ensures var t := StorageWork(s, outcome);
            && t.channel == s.channel[1..] && t.wifi == s.wifi && t.ble == s.ble
            && t.wifiSlot == s.wifiSlot && t.bleSlot == s.bleSlot
            && (s.channel[0].Append? ==> t.busy == s.busy)
            && (s.channel[0].Request? ==> t.busy.Some? && t.busy.value.0 == s.channel[0].client)
  {
  }

  /** How many moves storage makes in a run. */
  ghost function StorageMoves(s: State, steps: seq<Step>): nat {
    if steps == [] then 0
    else
      var front := steps[..|steps| - 1];
      var step := steps[|steps| - 1];
      StorageMoves(s, front) + if Enabled(Run(s, front), step) && StorageMove(step) then 1 else 0
  }

  /** At some point of the run the client's slot holds the answer it waits for. */
  ghost predicate IsAnswered(s: State, steps: seq<Step>, c: Client, wait: Wait) {
    exists k :: 0 <= k <= |steps| && WaitOf(Run(s, steps[..k]), c) == wait
                && SlotOf(Run(s, steps[..k]), c).Some? && Answers(SlotOf(Run(s, steps[..k]), c).value, wait)
  }

  lemma {:induction false} AnsweredOrNearer(s: State, steps: seq<Step>, c: Client)
    requires Inv(s) && WaitOf(s, c).Waiting?
    ensures
      || IsAnswered(s, steps, c, WaitOf(s, c))
      || (var t := Run(s, steps);
          && WaitOf(t, c) == WaitOf(s, c) && SlotOf(t, c).None?
          && Distance(t, c) + StorageMoves(s, steps) <= Distance(s, c))
    decreases |steps|
  {
    hide Inv, LaneOk, Answers, Distance, Next, Enabled;
    var wait := WaitOf(s, c);
    var t := Run(s, steps);
    InvOverRun(s, steps);
    LanesOf(t, c);
    if steps != [] {
      var front := steps[..|steps| - 1];
      var before := Run(s, front);
      AnsweredOrNearer(s, front, c);
      if IsAnswered(s, front, c, wait) {
        var k :| 0 <= k <= |front| && WaitOf(Run(s, front[..k]), c) == wait
                 && SlotOf(Run(s, front[..k]), c).Some? && Answers(SlotOf(Run(s, front[..k]), c).value, wait);
        assert front[..k] == steps[..k];
      } else if Enabled(before, steps[|steps| - 1]) {
        InvOverRun(s, front);
        LanesOf(before, c);
        EveryMoveServes(before, steps[|steps| - 1], c);
      }
    }
    if WaitOf(t, c) == wait && SlotOf(t, c).Some? {
      LanePlaces(t, c);
      assert steps[..|steps|] == steps;
    }
  }

  // What the protocol guarantees.

  /** In every interleaving a waiting client reads only the answer to its own latest request, of the
      right kind, and no answer is lost by being signalled over. */
  lemma OwnAnswersOnly(init: State, steps: seq<Step>)
    requires Init(init)
    ensures var s := Run(init, steps);
            && (s.wifiSlot.Some? ==> Answers(s.wifiSlot.value, WifiWait(s.wifi)))
            && (s.bleSlot.Some? ==> Answers(s.bleSlot.value, BleWait(s.ble)))
            && (IsFor(s.busy, Wifi) ==> s.wifiSlot == None)
            && (IsFor(s.busy, Ble) ==> s.bleSlot == None)
  {
    RunKeepsInv(init, steps);
  }

  /** In every interleaving a waiting client's own message is in exactly one place: its request is
      queued under its ticket, the answer with that ticket is worked out, or it is in the slot. */
  lemma WaitingIsNotForgotten(init: State, steps: seq<Step>, c: Client)
    requires Init(init) && WaitOf(Run(init, steps), c).Waiting?
    ensures var s := Run(init, steps);
            var wait := WaitOf(s, c);
            var queued := exists i :: 0 <= i < |s.channel| && s.channel[i] == Request(c, wait.ticket, wait.ask);
            && (SlotOf(s, c).Some? ==> Answers(SlotOf(s, c).value, wait) && !IsFor(s.busy, c) && !queued)
            && (IsFor(s.busy, c) ==> Answers(s.busy.value.1, wait) && !queued)
            && (SlotOf(s, c).Some? || IsFor(s.busy, c) || queued)
  {
    RunKeepsInv(init, steps);
    var s := Run(init, steps);
    LanesOf(s, c);
    LanePlaces(s, c);
    if SlotOf(s, c).Some? || IsFor(s.busy, c) {
      CountZero(s.channel, c);
    }
  }

  /** Bounded progress: whatever everyone else does meanwhile, once storage has made 17 moves (8
      commands taken and signalled, and one answer in hand) the client has had the answer to that very
      request in its slot. Until then storage can always move, short of the end of the numbers. */
  lemma WaitingIsServed(init: State, steps: seq<Step>, more: seq<Step>, c: Client)
    requires Init(init) && WaitOf(Run(init, steps), c).Waiting?
    ensures var s := Run(init, steps);
            var t := Run(s, more);
            && (StorageMoves(s, more) >= 17 ==> IsAnswered(s, more, c, WaitOf(s, c)))
            && (!IsAnswered(s, more, c, WaitOf(s, c)) && t.nextSequence < U64_LIMIT - 1 ==>
                  Enabled(t, StorageSignal) || forall outcome :: Enabled(t, StorageReceive(outcome)))
  {
    RunKeepsInv(init, steps);
    var s := Run(init, steps);
    LanesOf(s, c);
    LanePlaces(s, c);
    AnsweredOrNearer(s, more, c);
    hide Inv, LaneOk;
    if !IsAnswered(s, more, c, WaitOf(s, c)) {
      assert Distance(Run(s, more), c) + StorageMoves(s, more) <= Distance(s, c);
      InvOverRun(s, more);
      LanesOf(Run(s, more), c);
      LanePlaces(Run(s, more), c);
    }
  }

  /** In every interleaving an acknowledgement removes at most the oldest record, only the one it
      names, and only one that was posted with a 2xx or handed out to its last byte in the session
      that acknowledges it; a stale sequence removes nothing. */
  lemma OnlyDeliveredRecordsLeave(init: State, steps: seq<Step>, outcome: Outcome)
    requires Init(init)
    requires var s := Run(init, steps); Enabled(s, StorageReceive(outcome)) && s.channel[0].Request?
    ensures var s := Run(init, steps);
            var s' := Next(s, StorageReceive(outcome));
            var head := s.channel[0];
            s'.queue != s.queue ==>
              && head.ask == AckOf(s.queue[0].sequence) && s'.queue == s.queue[1..]
              && (head.client == Wifi ==> s.queue[0] in s.posted)
              && (head.client == Ble ==>
                   && s.device.state.Active? && s.device.state.complete
                   && s.device.state.sequence == s.queue[0].sequence
                   && AllHandedOut(s.handed, s.queue[0], |s.queue[0].payload|))
  {
    RunKeepsInv(init, steps);
    var s := Run(init, steps);
    hide Inv, Run, AllHandedOut;
    if Next(s, StorageReceive(outcome)).queue != s.queue {
      FrontWasDelivered(s);
    }
  }

  /** Nothing but storage taking a command from the channel changes the queue. */
  lemma OnlyStorageTouchesTheQueue(s: State, step: Step)
    requires Enabled(s, step) && Next(s, step).queue != s.queue
    ensures step.StorageReceive?
    ensures s.channel[0].Append? || s.channel[0].ask.AckOf?
  {
    if step.StorageReceive? {
      hide StorageAppend, AckQueue;
    } else {
      hide Enabled, StorageWork, PrepareFragment, CompleteOn, AckOn, Fragment, StartMetadata, StartMetadataOn;
      hide ServedAtStart, PeekResult;
    }
  }

  /** Every record that was ever pending is still pending, or was posted with a 2xx, or was completed
      by a BLE central, or was overwritten by newer records. */
  lemma NoRecordIsLost(init: State, steps: seq<Step>, sequence: nat)
    requires Init(init)
    ensures var s := Run(init, steps);
            sequence in s.history ==>
              var p := s.history[sequence];
              p in s.queue || p in s.posted || p in s.served || p in s.overwritten
  {
    RunKeepsInv(init, steps);
  }

  // What a peeked record's acknowledgement does.

  /** A client that peeked a record and names it in an acknowledgement, with the queue the same when
      storage takes both: the acknowledgement is granted and exactly that record is gone. */
  lemma {:induction false} PeekedRecordLeaves(init: State, steps: seq<Step>, i: nat, j: nat, dropped: nat,
                                              currentBoot: bool)
    requires i < j < |steps|
    requires var s := Run(init, steps[..i]);
             && steps[i].StorageReceive? && Enabled(s, steps[i]) && s.available
             && s.channel[0].Request? && s.channel[0].ask == Peek && s.queue != []
    requires var p := Next(Run(init, steps[..i]), steps[i]).busy.value.1.answer;
             var s := Run(init, steps[..j]);
             && steps[j] == StorageReceive(Succeeds(dropped, currentBoot)) && Enabled(s, steps[j]) && s.available
             && s.channel[0].Request? && p.Peeked? && p.record.Some?
             && s.channel[0].ask == AckOf(p.record.value.sequence)
             && s.queue == Run(init, steps[..i]).queue
    ensures var p := Next(Run(init, steps[..i]), steps[i]).busy.value.1.answer.record.value;
            var s := Run(init, steps[..j]);
            var s' := Next(s, steps[j]);
            && s.queue == [p] + s'.queue
            && s'.busy == Some((s.channel[0].client, Reply(s.channel[0].ticket, Acked(true))))
  {
    hide Run;
  }

  /** One undisturbed turn of the uploader: peek, post, acknowledge. */
  const UPLOAD_TURN: seq<Step> := [
    WifiSend, StorageReceive(Succeeds(0, false)), StorageSignal, WifiReceive, WifiPosted(true),
    WifiSend, StorageReceive(Succeeds(0, false)), StorageSignal, WifiReceive]

  lemma RunThen(s: State, steps: seq<Step>, n: nat)
    requires n < |steps|
    ensures Run(s, steps[..n + 1])
         == var before := Run(s, steps[..n]); if Enabled(before, steps[n]) then Next(before, steps[n]) else before
  {
    hide Next, Enabled;
    assert steps[..n + 1][..n] == steps[..n];
  }

  ghost predicate Quiet(s: State) {
    && s.channel == [] && s.busy == None && s.wifiSlot == None && s.wifi == WifiIdle && s.available
    && s.nextSequence < U64_LIMIT - 1
  }

  lemma {:induction false} RecordIsPeeked(s: State)
    requires Quiet(s) && s.queue != []
    ensures Run(s, UPLOAD_TURN[..3])
         == s.(wifi := WifiPeeking(s.tickets), tickets := s.tickets + 1,
               wifiSlot := Some(Reply(s.tickets, Peeked(Some(s.queue[0])))))
  {
    hide Run;
    NothingRun(s);
    RunThen(s, UPLOAD_TURN, 0);
    RunThen(s, UPLOAD_TURN, 1);
    RunThen(s, UPLOAD_TURN, 2);
    assert UPLOAD_TURN[..0] == [];
  }

  lemma {:induction false} RecordIsPosted(s: State)
    requires Quiet(s) && s.queue != []
    ensures Run(s, UPLOAD_TURN[..5])
         == s.(wifi := WifiAckSend(s.queue[0]), tickets := s.tickets + 1, posted := s.posted + {s.queue[0]})
  {
    hide Run;
    RecordIsPeeked(s);
    RunThen(s, UPLOAD_TURN, 3);
    RunThen(s, UPLOAD_TURN, 4);
  }

  lemma NothingRun(s: State)
    ensures Run(s, []) == s
  {
  }

  /** The turn uploads the oldest record and takes it out of the spool. */
  lemma {:induction false} UploadTurn(s: State)
    requires Quiet(s) && s.queue != []
    ensures Run(s, UPLOAD_TURN)
         == s.(queue := s.queue[1..], posted := s.posted + {s.queue[0]}, tickets := s.tickets + 2)
  {
    hide Run;
    RecordIsPosted(s);
    RunThen(s, UPLOAD_TURN, 5);
    RunThen(s, UPLOAD_TURN, 6);
    RunThen(s, UPLOAD_TURN, 7);
    RunThen(s, UPLOAD_TURN, 8);
    assert UPLOAD_TURN[..9] == UPLOAD_TURN;
  }

  function Turns(n: nat): seq<Step> {
    if n == 0 then [] else UPLOAD_TURN + Turns(n - 1)
  }

  lemma {:induction false} RunConcat(s: State, a: seq<Step>, b: seq<Step>)
    ensures Run(s, a + b) == Run(Run(s, a), b)
    decreases |b|
  {
    if b == [] {
      assert a + b == a;
    } else {
      hide Next, Enabled;
      RunConcat(s, a, b[..|b| - 1]);
      assert (a + b)[..|a + b| - 1] == a + b[..|b| - 1];
    }
  }

  /** As many turns as there are records upload every one of them, oldest first, and empty the spool. */
  lemma {:induction false} UploadsDrainTheSpool(s: State)
    requires Quiet(s)
    ensures var t := Run(s, Turns(|s.queue|));
            && t.queue == [] && Quiet(t)
            && t.posted == s.posted + set p | p in s.queue
    decreases |s.queue|
  {
    hide Run;
    if s.queue == [] {
      NothingRun(s);
    } else {
      UploadTurn(s);
      var t := s.(queue := s.queue[1..], posted := s.posted + {s.queue[0]}, tickets := s.tickets + 2);
      UploadsDrainTheSpool(t);
      RunConcat(s, UPLOAD_TURN, Turns(|s.queue| - 1));
      HeadAndTail(s.queue);
    }
  }

  lemma HeadAndTail(queue: seq<StoredPayload>)
    requires queue != []
    ensures (set p | p in queue) == {queue[0]} + set p | p in queue[1..]
  {
    assert queue == [queue[0]] + queue[1..];
  }

  // The BLE session's turn.

  ghost predicate BleQuiet(s: State) {
    && s.channel == [] && s.busy == None && s.bleSlot == None && s.ble == BleIdle && !s.bleStopped && s.available
    && s.nextSequence < U64_LIMIT - 1
  }

  /** The tool asks for metadata: the session peeks and starts the oldest record. */
  ghost function AnnounceSteps(network: NetworkState, upload: UploadResult): seq<Step> {
    [BleFrame(ControlFrame(RequestMetadata, 0, 0, 0), network, upload),
     BleSend, StorageReceive(Succeeds(0, false)), StorageSignal, BleReceive(true)]
  }

  lemma {:induction false} RecordIsAnnounced(s: State, network: NetworkState, upload: UploadResult)
    requires BleQuiet(s) && s.queue != [] && 0 < |s.queue[0].payload| < U16_LIMIT && s.queue[0].sequence < U64_LIMIT
    ensures var p := s.queue[0];
            Run(s, AnnounceSteps(network, upload))
            == s.(tickets := s.tickets + 1, handed := [],
                  device := s.device.(state := Active(p.sequence, |p.payload|, 0, false, false), payload := Some(p),
                                      metadataValue := MetadataBytes(MetadataOf(p).value)))
  {
    hide Run, MetadataBytes, Next;
    var steps := AnnounceSteps(network, upload);
    PeekedForBle(s, network, upload);
    RecordIsLoaded(Run(s, steps[..4]), s.queue[0]);
    RunThen(s, steps, 4);
    assert steps[..5] == steps;
  }

  lemma {:induction false} PeekedForBle(s: State, network: NetworkState, upload: UploadResult)
    requires BleQuiet(s) && s.queue != []
    ensures Run(s, AnnounceSteps(network, upload)[..4])
         == s.(ble := BlePeeking(s.tickets), tickets := s.tickets + 1,
               bleSlot := Some(Reply(s.tickets, Peeked(Some(s.queue[0])))))
  {
    hide Run;
    var steps := AnnounceSteps(network, upload);
    NothingRun(s);
    RunThen(s, steps, 0);
    RunThen(s, steps, 1);
    RunThen(s, steps, 2);
    RunThen(s, steps, 3);
    assert steps[..0] == [];
  }

  lemma RecordIsLoaded(s: State, p: StoredPayload)
    requires !s.bleStopped && s.ble.BlePeeking? && 0 < |p.payload| < U16_LIMIT && p.sequence < U64_LIMIT
    requires s.bleSlot.Some? && s.bleSlot.value.answer == Peeked(Some(p))
    ensures Next(s, BleReceive(true))
         == s.(bleSlot := None, ble := BleIdle, handed := [],
               device := s.device.(state := Active(p.sequence, |p.payload|, 0, false, false), payload := Some(p),
                                   metadataValue := MetadataBytes(MetadataOf(p).value)))
  {
    hide MetadataBytes;
  }

  /** It then fetches the one fragment, completes the record and acknowledges it. */
  ghost function FetchSteps(p: StoredPayload, network: NetworkState, upload: UploadResult): seq<Step>
    requires |p.payload| < U16_LIMIT && p.sequence < U64_LIMIT
  {
    [BleFrame(ControlFrame(RequestFragment, p.sequence, 0, |p.payload|), network, upload),
     BleFrame(ControlFrame(CompleteRecord, p.sequence, 0, 0), network, upload),
     BleFrame(ControlFrame(AckRecord, p.sequence, 0, 0), network, upload)]
  }

  lemma FetchedAndCompleted(s: State, p: StoredPayload, network: NetworkState, upload: UploadResult)
    requires !s.bleStopped && s.ble == BleIdle && 0 < |p.payload| <= MAX_FRAGMENT_PAYLOAD_LEN && p.sequence < U64_LIMIT
    requires s.device.payload == Some(p) && s.device.state == Active(p.sequence, |p.payload|, 0, false, false)
    ensures var t := Run(s, FetchSteps(p, network, upload));
            && t.queue == s.queue && t.channel == s.channel && t.busy == s.busy && t.bleSlot == s.bleSlot
            && t.available == s.available && t.nextSequence == s.nextSequence && !t.bleStopped
            && t.handed == s.handed + [RecordFragment(p.sequence, 0, |p.payload|, p.payload)]
            && t.served == s.served + {p}
            && t.ble == if network in {Connected, IpReady} && upload == Success then BleIdle else BleAckSend(p.sequence)
  {
    hide Run, Next;
    var steps := FetchSteps(p, network, upload);
    NothingRun(s);
    RunThen(s, steps, 0);
    FragmentStep(s, p, network, upload);
    RunThen(s, steps, 1);
    CompleteStep(Run(s, steps[..1]), p, network, upload);
    RunThen(s, steps, 2);
    AckStep(Run(s, steps[..2]), p, network, upload);
    assert steps[..0] == [] && steps[..3] == steps;
  }

  lemma FragmentStep(s: State, p: StoredPayload, network: NetworkState, upload: UploadResult)
    requires !s.bleStopped && s.ble == BleIdle && 0 < |p.payload| <= MAX_FRAGMENT_PAYLOAD_LEN && p.sequence < U64_LIMIT
    requires s.device.payload == Some(p) && s.device.state == Active(p.sequence, |p.payload|, 0, false, false)
    ensures var t := Next(s, BleFrame(ControlFrame(RequestFragment, p.sequence, 0, |p.payload|), network, upload));
            && t.device.state == s.device.state.(deliveredUntil := |p.payload|) && t.device.payload == Some(p)
            && t == s.(device := t.device, handed := s.handed + [RecordFragment(p.sequence, 0, |p.payload|, p.payload)])
  {
    hide PaddedFragment;
    WholeFragment(s.device.state, p);
    hide Fragment;
  }

  lemma CompleteStep(s: State, p: StoredPayload, network: NetworkState, upload: UploadResult)
    requires !s.bleStopped && s.ble == BleIdle && p.sequence < U64_LIMIT && |p.payload| < U16_LIMIT
    requires s.device.payload == Some(p)
    requires s.device.state == Active(p.sequence, |p.payload|, |p.payload|, false, false)
    ensures var t := Next(s, BleFrame(ControlFrame(CompleteRecord, p.sequence, 0, 0), network, upload));
            && t.device.state == s.device.state.(complete := true) && t.device.payload == Some(p)
            && t == s.(device := t.device, served := s.served + {p})
  {
  }

  lemma AckStep(s: State, p: StoredPayload, network: NetworkState, upload: UploadResult)
    requires !s.bleStopped && s.ble == BleIdle && p.sequence < U64_LIMIT && |p.payload| < U16_LIMIT
    requires s.device.payload == Some(p)
    requires s.device.state == Active(p.sequence, |p.payload|, |p.payload|, true, false)
    ensures var t := Next(s, BleFrame(ControlFrame(AckRecord, p.sequence, 0, 0), network, upload));
            && t == s.(device := t.device, ble := t.ble)
            && t.ble == if network in {Connected, IpReady} && upload == Success then BleIdle else BleAckSend(p.sequence)
  {
  }

  lemma WholeFragment(state: TransferState, p: StoredPayload)
    requires 0 < |p.payload| <= MAX_FRAGMENT_PAYLOAD_LEN && p.sequence < U64_LIMIT
    requires state == Active(p.sequence, |p.payload|, 0, false, false)
    ensures Fragment(state, p, ControlFrame(RequestFragment, p.sequence, 0, |p.payload|))
         == (state.(deliveredUntil := |p.payload|), Ok(RecordFragment(p.sequence, 0, |p.payload|, p.payload)))
  {
    assert p.payload[0..|p.payload|] == p.payload;
  }

  const ACK_TURN: seq<Step> := [BleSend, StorageReceive(Succeeds(0, false)), StorageSignal, BleReceive(true)]

  /** One undisturbed transfer over BLE of a record that fits one fragment: it is handed out whole, and
      leaves the spool unless the uploader owns the acknowledgements. */
  lemma {:induction false} BleTurn(s: State, network: NetworkState, upload: UploadResult)
    requires BleQuiet(s) && s.queue != []
    requires 0 < |s.queue[0].payload| <= MAX_FRAGMENT_PAYLOAD_LEN && s.queue[0].sequence < U64_LIMIT
    ensures var p := s.queue[0];
            var t := Run(s, AnnounceSteps(network, upload) + FetchSteps(p, network, upload) + ACK_TURN);
            && t.handed == [RecordFragment(p.sequence, 0, |p.payload|, p.payload)] && p in t.served
            && t.queue == if network in {Connected, IpReady} && upload == Success then s.queue else s.queue[1..]
  {
    hide Run;
    var p := s.queue[0];
    var a, b := AnnounceSteps(network, upload), FetchSteps(p, network, upload);
    RecordIsAnnounced(s, network, upload);
    FetchedAndCompleted(Run(s, a), p, network, upload);
    RunConcat(s, a, b);
    RunConcat(s, a + b, ACK_TURN);
    AckTaken(Run(s, a + b), p.sequence);
  }

  lemma AckTaken(s: State, sequence: nat)
    requires s.channel == [] && s.busy == None && s.bleSlot == None && s.available && !s.bleStopped
    requires s.nextSequence < U64_LIMIT - 1 && s.ble in {BleIdle, BleAckSend(sequence)}
    requires s.queue != [] && s.queue[0].sequence == sequence
    ensures var t := Run(s, ACK_TURN);
            && t.handed == s.handed && t.served == s.served
            && t.queue == if s.ble == BleIdle then s.queue else s.queue[1..]
  {
    hide Run;
    NothingRun(s);
    RunThen(s, ACK_TURN, 0);
    RunThen(s, ACK_TURN, 1);
    RunThen(s, ACK_TURN, 2);
    RunThen(s, ACK_TURN, 3);
    assert ACK_TURN[..0] == [] && ACK_TURN[..4] == ACK_TURN;
  }

  /** Reading the metadata peeks if and only if no record is loaded; and once the host stopped, the session
      makes no step at all. */
  lemma ReadsAndStops(s: State, step: Step)
    ensures Enabled(s, BleMetadataRead) ==>
              var t := Next(s, BleMetadataRead);
              && (s.device.payload.None? ==> t == s.(ble := BlePeekSend))
              && (s.device.payload.Some? ==> t == s)
    ensures step.BleFrame? || step.BleMetadataRead? || step.BleSend? || step.BleReceive? || step.BleDisconnect? ==>
              !Enabled(Next(s, BleHostStops), step)
    ensures Enabled(s, BleDisconnect) ==>
              var t := Next(s, BleDisconnect);
              t.device.state == TransferState.Idle && t.device.payload == None && t.queue == s.queue
  {
  }
}
