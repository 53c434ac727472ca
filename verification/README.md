# Verified model of the sleep environment recorder

The system is a sensor device, a desktop tool and a server. The device spools measurements on NOR
flash and hands them to a Wi-Fi uploader and to BLE centrals; the tool reassembles records over BLE;
the server keeps them in an SQLite table and in a JSONL log. This project models the parts where a
record can be lost, damaged, duplicated or delivered to the wrong place, and proves that it is not, or
says exactly when it is.

`dafny verify dfyconfig.toml` checks everything.

How the files build on each other:

| layer | files |
|---|---|
| bytes and integrity | `Bytes`, `Crc32` |
| the spool's parts | `SpoolCodec`, `DropOldestQueue`, `FlashModel` |
| the spool as classes over flash, and the pure steps they are proved equal to | `FlashSpool`, `SpoolSpec`, `SpoolLog` |
| what every run, reboot and power loss keeps | `SpoolRuns`, `SpoolGuarantees`, `SpoolCrash`, `SpoolNoise`, and from a caller's view `SpoolTheorems` |
| the backlog around the spool, and what a boot keeps | `Backlog`, `BootTheorems` |
| the BLE record transfer, both ends | `BleProtocol`, `BleTransfer`, `RecordTransfer` |
| the delivery protocol, all interleavings, and its link to the spool | `Delivery`, `DeliveryRefinement` |
| the server | `Measurements`, `ServerStores`, `Reconcile`, `Retention`, `PolicyProfiles` |
| from the device's spool to the server's listing | `EndToEnd` |
| the other flash users | `BleAuth`, `FlashRegions` |

The central invariant is `SpoolRuns.Inv`: a list of log entries lies on flash byte for byte, everything
behind it is erased, and the RAM queue, the sequence counter and the write offset are the replay of that
list. Appending, acknowledging, compacting and rebooting keep it. The classes in `FlashSpool` are proved
equal to the steps of `SpoolSpec`, so it holds of them as well.

What the proofs found at the edges, stated as lemmas with both directions:

- An acknowledgement written into the last 23 bytes of flash cannot be read at boot, because recovery
  asks for a whole record header (spool/flash.rs:47) while the write only asks for 16 bytes (spool/flash.rs:178).
  A reboot then brings exactly that one record back to the front
  (`AcknowledgeThenReboot`, `RebootAnywhere`; `ForgottenAcknowledgement` reaches it in three steps).
- When an acknowledgement compacts the log to nothing, recovery restarts the sequence at 0
  (`RestartedSequence`). In every other state that completed writes leave, it recovers the counter
  (`RecoveryReplaysState`). So a run issues a sequence twice if and only if an append succeeds after such
  a restart (`SequencesUnique`; `SequenceIssuedTwice` is such a run).
- The server keys a record by its device and its sequence. What it accepted of a device is listed in the
  end if and only if no two accepted writes carry different records under one key (`ListedExactly`), and
  so whenever the sequences are unique (`AcceptedUploadsAreListed`). Under a repeated sequence every
  strategy but `reject` accepts both records and lists one (`SecondRecordIsLost`).
- Acknowledgements carry no CRC (spool/codec.rs:105-139). When power fails between the version byte and
  the last sequence byte of one, the missing sequence bytes read as ones: the queue survives, the counter
  does not. It comes back as 0 after five or six bytes, and as 0 or more than 2^63 after seven to
  thirteen; with any other number of bytes, or without a header window, it survives
  (`TornAcknowledge`; `CounterLost` reaches it from a fresh spool). With a counter of 0 behind a pending
  record the delivery protocol starts outside its guarantees (`TornAckNumbered`,
  `BootStartsProtocolExactly`): a late acknowledgement can then remove a record that was never delivered
  (`StaleAcknowledgement`).
- The `FlashFull` exit for an emptied queue in the compaction's drop loop (spool/flash.rs:218-220) is never
  taken: a record that passed the earlier size check always fits alone (`TooLongHasMore`, used in
  `DropUntilFits`).
- An interrupted in-place append can leave a record that is neither absent nor whole; this happens
  exactly when the damaged payload matches the CRC field on flash (`TornAppend`), and never when at most
  the last four payload bytes are missing (`TornAppendTail`). For four-byte payloads it always happens
  at 18 bytes: four ones come back in place of the payload, with a good CRC (`PayloadReplaced`).
- Retention lists at most 1,000,000 records. In a bigger store whatever was not listed, the newest, is gone
  as soon as retention removes anything (`UnlistedIsLost`).

Modelling choices: 64-bit sequences, 32-bit addresses and 16-bit lengths are bounded naturals with the
program's wrap-around, saturation and overflow checks written out; words whose bits matter are
bit-vectors; a fixed buffer with a length is the sequence of its used part; `with_timeout`, sockets,
clocks and GATT calls are parameters or steps chosen by the environment. In `Delivery` every request
carries a ticket, which the program does not have: it only names the request, so that "the answer to
its own request" can be said. C# reads integers in host order; the tool runs on little-endian hosts.

## Model

| member | source | states |
|---|---|---|
| Crc32.Compute | firmware/src/storage/spool/flash.rs:380-392 | The two nested loops compute the reflected CRC-32 (IEEE 802.3, section 3.2.9) given as a function on bytes |
| Crc32.BurstDetected | firmware/src/storage/spool/codec.rs:82-91 | Two equal-length payloads that differ only within four consecutive bytes never have the same checksum |
| Crc32.CheckValue | firmware/src/storage/spool/flash.rs:380-392 | The digits 1 to 9 have the standard's check value 0xcbf43926 |
| SpoolCodec.RecordRoundTrip | firmware/src/storage/spool/codec.rs:13-98 | Decoding an encoded record gives it back whatever bytes follow it, and the length reader cuts it at its exact end |
| SpoolCodec.AckRoundTrip | firmware/src/storage/spool/codec.rs:13-139 | The same for acknowledgement entries |
| SpoolCodec.DamagedPayloadRejected | firmware/src/storage/spool/codec.rs:56-98 | An encoded record whose payload changed anywhere within four consecutive bytes is refused as a CRC mismatch |
| SpoolCodec.RecordIsLaidOut | firmware/src/storage/spool/codec.rs:32-54 | The encoded record field by field, each byte at its place, erased padding behind the payload |
| SpoolCodec.DecodedAsLaidOut | firmware/src/storage/spool/codec.rs:56-98 | Bytes are decoded to a record if and only if they begin with exactly that layout of it |
| SpoolCodec.AckIsLaidOut | firmware/src/storage/spool/codec.rs:105-118 | The encoded acknowledgement field by field |
| SpoolCodec.AckDecodedAsLaidOut | firmware/src/storage/spool/codec.rs:120-139 | Bytes are decoded to a sequence if and only if they begin with that layout; the reserved byte is not looked at |
| SpoolCodec.EntryLen | firmware/src/storage/spool/codec.rs:1-11 | An entry covers header and payload, wastes less than one write unit, and its length is a multiple of it |
| SpoolCodec.EncodeRecord | firmware/src/storage/spool/codec.rs:32-54 | Fills exactly the entry's bytes of the caller's buffer, erased padding included, or refuses and leaves the buffer alone |
| SpoolCodec.EncodeAck | firmware/src/storage/spool/codec.rs:105-118 | The same for acknowledgements |
| DropOldestQueue.Queue.Push | firmware/src/util/queue.rs:32-47 | On the ring of slots: appends, or drops and returns the oldest when full, or returns the item when the capacity is zero |
| DropOldestQueue.Queue.Pop | firmware/src/util/queue.rs:49-58 | Removes and returns the oldest item, and only that |
| DropOldestQueue.Queue.Get | firmware/src/util/queue.rs:68-74 | Returns the item at a queue position across the wrap of the ring |
| DropOldestQueue.PushAllKeepsNewest | firmware/src/util/queue.rs:32-47 | After any run of pushes the queue is exactly the newest `capacity` items of everything ever queued |
| FlashModel.InMemoryFlash.Write | firmware/src/storage/flash_model.rs:75-89 | Writes all bytes, or refuses without touching one when some bit would have to be set again |
| FlashModel.InMemoryFlash.Erase | firmware/src/storage/flash_model.rs:91-106 | Restores exactly the requested sectors to 0xff, or refuses by the alignment, emptiness and range rules in that order |
| FlashSpool.PersistentSpool.Append | firmware/src/storage/spool/memory.rs:109-124 | Pushes a record under the next sequence, wrapping at 64 bits, and reports what was dropped |
| FlashSpool.PersistentSpool.FromRecords | firmware/src/storage/spool/memory.rs:134-158 | Rebuilds the queue from the newest records, with the given next sequence |
| FlashSpool.PushStoredRecord | firmware/src/storage/spool/flash.rs:286-301 | On the slot array, shifted in place: the pending records after one more push |
| FlashSpool.RemoveStoredRecordBySequence | firmware/src/storage/spool/flash.rs:307-318 | On the slot array: removes the first record with the sequence and closes the gap, order kept |
| FlashSpool.RecoverWithReport | firmware/src/storage/spool/flash.rs:25-128 | The cursor loop over slots and flash gives exactly the spool and report of the pure scan, on any bytes |
| FlashSpool.FlashBackedSpool.Append | firmware/src/storage/spool/flash.rs:146-165 | New queue, counter, offset and flash bytes, and the result, equal the specified step for every flash content |
| FlashSpool.FlashBackedSpool.AppendWithCompaction | firmware/src/storage/spool/flash.rs:189-232 | The same for the compacting append: drop until it fits, erase, rewrite |
| FlashSpool.FlashBackedSpool.Acknowledge | firmware/src/storage/spool/flash.rs:167-187 | The same for the acknowledgement, in place or by compaction |
| FlashSpool.FlashBackedSpool.RewriteRecords | firmware/src/storage/spool/flash.rs:240-261 | Erases the region and writes the records one behind the other; the flash is exactly those bytes and then erased |
| FlashSpool.FlashBackedSpool.DropUntilFits | firmware/src/storage/spool/flash.rs:212-221 | The drop loop leaves the longest fitting suffix, names the first record lost and counts them, and never empties the queue |
| FlashSpool.FlashBackedSpool.QueueEncodedLen | firmware/src/storage/spool/flash.rs:320-333 | The loop sums the entry lengths of the queue |
| SpoolLog.ScanReadsLog | firmware/src/storage/spool/flash.rs:39-116 | Recovery over the bytes of a log of readable entries does what applying the entries one by one does, and stops behind the last |
| SpoolNoise.RecoverySkipsNoise | firmware/src/storage/spool/flash.rs:39-116 | Entries and words of noise in any order: recovery finds the queue and counter of the entries alone, stands behind the last piece, and counts every noise word as one corrupt entry |
| SpoolNoise.RecordBehindNoise | firmware/src/storage/spool/codec.rs:13-30 | A record behind an acknowledgement that was torn after three bytes is recovered |
| SpoolNoise.RecordDecides | firmware/src/storage/spool/flash.rs:64-116 | Behind readable entries, a good record too large for the payload size makes recovery fail, and one with a wrong checksum ends it in front of the record with one corrupt entry |
| SpoolNoise.RecoverRefusesConfig | firmware/src/storage/spool/flash.rs:25-38 | A payload size the entry buffer cannot hold is refused |
| SpoolRuns.AppendKeepsInv | firmware/src/storage/spool/flash.rs:146-232 | From every reachable state an append fails if and only if the payload exceeds the payload size or its entry the flash, and then nothing changes; otherwise the new state is again the replay of its log and no write needed an erase |
| SpoolRuns.AcknowledgeKeepsInv | firmware/src/storage/spool/flash.rs:167-187 | From every reachable state no acknowledgement fails; it returns and removes exactly the oldest record, and the new state is again the replay of its log |
| SpoolRuns.InvFacts | firmware/src/storage/spool/flash.rs:146-260 | In every reachable state the pending entries fit in front of the write offset, the offset is a multiple of four, and the newest pending record carries the last sequence used |
| SpoolRuns.RecoveryReplaysState | firmware/src/storage/spool/flash.rs:25-128 | Replaying the flash of every reachable state gives the RAM queue and offset with no corrupt entry; only after an acknowledgement too close to the end is the acknowledged record back in front; the counter is recovered unless the log is empty |
| SpoolGuarantees.CompactionKeepsLongestSuffix | firmware/src/storage/spool/flash.rs:189-232 | Compaction keeps the longest suffix of old queue plus new record that meets record capacity and flash size, and reports the oldest record lost and the exact number |
| SpoolGuarantees.AppendKeepsLongestSuffix | firmware/src/storage/spool/flash.rs:146-232 | The same for every append in every reachable state, compacting or not |
| SpoolGuarantees.RunKeepsInv | firmware/src/storage/spool/flash.rs:25-261 | Every run of appends, acknowledgements and reboots from a fresh spool stays a replay of the log on flash, and every record appended or brought back is pending, acknowledged or dropped |
| SpoolGuarantees.Conservation | firmware/src/storage/spool/flash.rs:146-232 | Within one boot: appended = pending + acknowledged + dropped |
| SpoolGuarantees.FailedAppendChangesNothing | firmware/src/storage/spool/flash.rs:146-232 | In any state a failing append changes nothing; in place it fails exactly when a bit would have to be set again |
| SpoolGuarantees.FailedAcknowledgeKeepsFlash | firmware/src/storage/spool/flash.rs:167-187 | In any state a failing acknowledgement leaves flash, offset and counter alone, and the queue unless a compaction failed; in place it fails exactly when a bit would have to be set again |
| SpoolGuarantees.RebootAnywhere | firmware/src/storage/spool/flash.rs:25-128 | A reboot at any point of any run recovers the RAM state, except that the record named by a last acknowledgement without a header window comes back |
| SpoolGuarantees.AppendThenReboot | firmware/src/storage/spool/flash.rs:25-165 | A reboot right after a successful append finds exactly the state the append left, nothing corrupt |
| SpoolGuarantees.AcknowledgeThenReboot | firmware/src/storage/spool/flash.rs:47-178 | A reboot forgets an acknowledgement if and only if its 16 bytes were written with fewer than 24 bytes of flash left |
| SpoolGuarantees.ForgottenAcknowledgement | firmware/src/storage/spool/flash.rs:47-178 | A concrete run in which an acknowledged record comes back |
| SpoolGuarantees.RestartedSequence | firmware/src/storage/spool/flash.rs:118-186 | A concrete run after which the recovered sequence counter is 0 although one record was appended |
| SpoolCrash.TornAckReplayed | firmware/src/storage/spool/codec.rs:105-139 | Whatever the sequences: after any byte prefix of an acknowledgement recovery applies the sequence whose missing bytes are ones, to queue and counter, once the version byte and a header window are there |
| SpoolCrash.TornAcknowledge | firmware/src/storage/spool/flash.rs:39-187 | Power loss after any byte prefix of an in-place acknowledgement: the queue is the one after it exactly when all 14 meaningful bytes and a header window are there, else the one before it; the counter survives if and only if at most 4 or at least 14 bytes got there or there is no header window, and otherwise has the value stated; the write offset moves by 4 after one to three bytes, by 16 after five or more, else not; one corrupt entry is counted exactly when something was left that is not an acknowledgement |
| SpoolCrash.TornAppend | firmware/src/storage/spool/flash.rs:39-165 | Power loss after any byte prefix of an in-place append: queue and counter are those from before, or the record now on flash is appended and its sequence counted, exactly when its payload matches its CRC field; the write offset moves by 4 after one to three bytes, past the record if it counts, else not, and one corrupt entry is counted unless nothing was written or the record counts |
| SpoolCrash.TornAppendTail | firmware/src/storage/spool/flash.rs:39-165 | With at most the last four payload bytes missing, queue and counter are exactly those from before or those from after |
| SpoolCrash.FourBytesReadAsOnes | firmware/src/storage/spool/codec.rs:82-91 | Four erased payload bytes match an erased CRC field |
| SpoolTheorems.RebootRecovers | firmware/src/storage/spool/flash.rs:25-187 | A reboot after any run from a fresh spool gives the same queue and offset, except that the very record last acknowledged is back in front if and only if its acknowledgement was the newest write and starts fewer than 24 bytes before the end; the counter is the same, or 0 on an empty log; exactly one corrupt entry is counted if a forgotten acknowledgement lies behind the log, from now or from an earlier boot, and none otherwise |
| SpoolTheorems.SequencesUnique | firmware/src/storage/spool/flash.rs:118-165 | Over any run with reboots the issued sequences are distinct if and only if no append succeeds after a reboot that met an empty log though the counter had moved; without such a reboot they are 0, 1, 2 and so on |
| SpoolTheorems.SequenceIssuedTwice | firmware/src/storage/spool/flash.rs:118-186 | Append, acknowledge, reboot and append on 32 bytes of flash issue the sequence 0 twice, whatever the two payloads |
| SpoolTheorems.OperationsSucceed | firmware/src/storage/spool/flash.rs:146-260 | After any run no acknowledgement fails, an append fails if and only if payload or entry cannot fit, offsets are multiples of four, and the pending entries fit in front of the write offset |
| SpoolTheorems.PowerLossWhileAcknowledging | firmware/src/storage/spool/flash.rs:167-187 | In any reachable state, after any byte prefix of an in-place acknowledgement a reboot finds the queue from before or after it, and exactly when which; and exactly when it finds the counter, and what it finds instead; and the offset and corrupt count |
| SpoolTheorems.CounterLost | firmware/src/storage/spool/codec.rs:105-139 | A concrete state and prefix of five bytes after which a record is pending and the counter is 0 |
| SpoolTheorems.PowerLossWhileAppending | firmware/src/storage/spool/flash.rs:146-165 | In any reachable state, after any byte prefix of an in-place append a reboot finds queue and counter from before, or the record now on flash appended and counted, exactly when its payload matches its CRC field; and the offset and corrupt count |
| SpoolTheorems.PayloadReplaced | firmware/src/storage/spool/codec.rs:56-98 | In any reachable state, power loss after exactly 18 bytes of an in-place append of a four-byte payload leaves a record of four ones under the appended sequence |
| SpoolTheorems.PayloadReplacedOnce | firmware/src/storage/spool/codec.rs:56-98 | A concrete case: four zeros were appended to a fresh spool, four ones come back |
| Backlog.StorageBacklog.AppendMeasurement | firmware/src/tasks/storage/backlog.rs:90-124 | Spool, result and metrics after success, an encoding failure and a spool failure; the dropped counter saturates |
| Backlog.StorageBacklog.PeekPayload | firmware/src/tasks/storage/backlog.rs:126-130 | The oldest record with its current-boot mark |
| Backlog.StorageBacklog.Acknowledge | firmware/src/tasks/storage/backlog.rs:132-153 | Spool, result and metrics after an acknowledgement |
| Backlog.StorageBacklog.AcknowledgeSequence | firmware/src/tasks/storage/backlog.rs:155-164 | Acknowledges the oldest record if it has the sequence; any other sequence changes nothing at all |
| Backlog.DiscardUnsupportedFrontPayloads | firmware/src/tasks/storage/backlog.rs:206-231 | The loop acknowledges front records up to the first supported one and counts them, errors included; `BootTheorems.DiscardByBitZero` says which those are |
| Backlog.Recover | firmware/src/tasks/storage/backlog.rs:66-88 | Boot: the recovered spool without its unsupported front, the boot's first sequence and the metrics |
| Backlog.DiscardKeepsInv | firmware/src/tasks/storage/backlog.rs:206-231 | Discarding never fails, removes exactly the unsupported records at the front, and keeps the log invariant |
| Backlog.BootStarts | firmware/src/tasks/storage/backlog.rs:66-88 | Recovery on the flash of any reachable state succeeds and starts a boot with nothing appended yet |
| Backlog.CurrentBootOverRun | firmware/src/tasks/storage/backlog.rs:66-204 | Over every run after a boot, while sequences stay below 2^63 - 1, a pending record is marked as from the current boot exactly when it was appended in it |
| Backlog.BootSpansHalf | firmware/src/tasks/storage/backlog.rs:202-204 | For every first sequence exactly the next 2^63 - 1 sequences, wrap-around included, count as from the current boot |
| BootTheorems.BootKeepsMeasurements | firmware/src/tasks/storage/backlog.rs:66-236 | After any run in which the firmware appended measurements, a boot discards nothing: the queue is what recovery found, and that is the run's queue or the one with the forgotten record in front |
| BootTheorems.DiscardByBitZero | firmware/src/tasks/storage/backlog.rs:206-236 | From any log, discarding removes all front records without bit 0 in their flags and no record with it |
| BleProtocol.EncodeMetadata | firmware/src/tasks/ble/protocol.rs:40-53 | Fills exactly the 17 metadata bytes, or refuses a short buffer |
| BleProtocol.EncodeFragment | firmware/src/tasks/ble/protocol.rs:107-122 | Fills exactly header and payload, or refuses a short buffer |
| BleProtocol.EncodeControlFrame | tools/ble-watch/src/BleProtocol.cs:5-14 | The tool's frame is byte for byte the device's control frame format |
| BleProtocol.ControlRoundTrip | firmware/src/tasks/ble/protocol.rs:155-193 | The device decodes what the tool encodes |
| BleProtocol.MetadataRoundTrip | tools/ble-watch/src/BleProtocol.cs:16-33 | The tool decodes the metadata the device encodes, all fields |
| BleProtocol.FragmentRoundTrip | tools/ble-watch/src/BleProtocol.cs:35-58 | The tool decodes the fragment the device encodes, whatever padding follows |
| BleTransfer.BleTransferSession.StartRecord | firmware/src/tasks/ble/transfer.rs:56-70 | Starts any record of less than 2^16 bytes with nothing delivered or acknowledged, complete only if empty, and announces its length and checksum; a refusal changes nothing |
| BleTransfer.BleTransferSession.FragmentForRequest | firmware/src/tasks/ble/transfer.rs:72-116 | A fragment is the slice of the active record at the requested offset, at most as long as asked and 128 bytes, empty only at the end, starting at or before the delivery front; the front moves to its end or stays; a refusal changes nothing and follows the program's order of checks |
| BleTransfer.BleTransferSession.CompleteTransfer | firmware/src/tasks/ble/transfer.rs:118-137 | Completes only the active record, and only when every byte of it was delivered; a refusal changes nothing |
| BleTransfer.BleTransferSession.AckActionFor | firmware/src/tasks/ble/transfer.rs:139-172 | A storage acknowledgement names the active, complete record, is sent only if none was and no successful upload is connected, and is remembered; anything else changes nothing; an accepted request sends it if and only if none was sent and the network is not up with a successful last upload |
| BleTransfer.OneAckPerRecord | firmware/src/tasks/ble/transfer.rs:56-206 | Over any run of requests after a start, with any payloads: the session stays on its record, completes it only with all bytes delivered, and sends storage at most one acknowledgement; the request that sends it is an acknowledgement request, finds the record complete and all bytes delivered, and no successful upload is connected at that step |
| RecordTransfer.TransferRuntime.StartMetadataRequest | firmware/src/tasks/ble/gatt.rs:368-392 | Session, loaded payload and metadata value after a peek that found a record or none; when the characteristic cannot be set, the session is on the new record while payload and value are the old ones |
| RecordTransfer.TransferRuntime.PrepareFragmentRequest | firmware/src/tasks/ble/gatt.rs:413-452 | Session and zero-padded fragment value after a fragment request; when the characteristic cannot be set, the session has moved on and the fragment is kept for a later read |
| RecordTransfer.TransferRuntime.HandleControlWrite | firmware/src/tasks/ble/gatt.rs:310-343 | For any bytes written: nothing changes without authorization or on a protocol error, else the step of the decoded request |
| RecordTransfer.FetchMetadata | tools/ble-watch/Program.cs:2164-2193 | Whatever fails and however often it is retried, what the tool gets is the metadata of the pending record, with the session at its start; if nothing fails it gets it exactly when the device can announce its length |
| RecordTransfer.WaitForMetadataRequest | tools/ble-watch/src/GattClient.cs:301-324 | Asks until a write succeeds; when one does, the device announces the record from its first byte |
| RecordTransfer.TakeFragment | tools/ble-watch/Program.cs:1539-1562 | Whatever bytes the tool reads as a fragment, it takes only one of the announced record at the asked offset, not empty, not longer than asked and inside the payload, and writes nothing outside its place |
| RecordTransfer.FetchPayload | tools/ble-watch/Program.cs:1519-1565 | The reassembly loop terminates; over a failing link it gives the stored payload byte for byte or gives up; if nothing fails it takes exactly ceil(length / min(fragment length, 128)) fragments and gives up exactly when it asks for empty fragments of a non-empty payload |
| RecordTransfer.FinishTransfer | tools/ble-watch/Program.cs:1567-1596 | The CRC check decides; then the record is completed on the device and acknowledged as asked |
| RecordTransfer.TransferRecord | tools/ble-watch/Program.cs:1504-1597 | Over a link that may lose, refuse or leave unanswered any operation: the tool gets the record byte for byte, completed and acknowledged as stated, or nothing; if nothing fails it gets every record the device can announce |
| Delivery.StepKeepsInv | firmware/src/tasks/storage/runtime.rs:71-188 | Every step of storage, uploader and BLE session, in any order, keeps the protocol invariant |
| Delivery.OwnAnswersOnly | firmware/src/tasks/storage/runtime.rs:178-188 | In every interleaving a waiting client reads only the answer to its own latest request, never one of the other kind, and no answer is overwritten unread |
| Delivery.WaitingIsNotForgotten | firmware/src/tasks/ble/storage_bridge.rs:2-39 | In every interleaving a waiting client's own message is in exactly one place: its request under its ticket is queued, or its answer is worked out, or its answer is in its slot |
| Delivery.WaitingIsServed | firmware/src/tasks/storage/runtime.rs:71-151 | Bounded progress: whatever the others do meanwhile, after at most 17 moves of storage the client has had the answer to that very request in its slot; until then storage can always move |
| Delivery.OnlyDeliveredRecordsLeave | firmware/src/tasks/storage/runtime.rs:110-150 | In every interleaving an acknowledgement removes only the oldest record and only the one it names, and only after that very record was posted with a 2xx, or every byte of it was handed out in fragments of the acknowledging session |
| Delivery.OnlyStorageTouchesTheQueue | firmware/src/tasks/storage/runtime.rs:71-151 | Only storage handling an append or an acknowledgement changes the queue |
| Delivery.NoRecordIsLost | firmware/src/tasks/upload/runtime.rs:123-162 | Every record ever pending still is, or was posted, completed by a central, or overwritten by newer records |
| Delivery.PeekedRecordLeaves | firmware/src/tasks/storage/runtime.rs:100-150 | A client that peeked a record and acknowledges it, with the queue unchanged between, is granted, and exactly that record is gone |
| Delivery.UploadTurn | firmware/src/tasks/upload/runtime.rs:117-162 | One undisturbed turn of the uploader posts the oldest record and removes it |
| Delivery.UploadsDrainTheSpool | firmware/src/tasks/upload/runtime.rs:117-162 | As many turns as there are records post every one of them and empty the spool |
| Delivery.BleTurn | firmware/src/tasks/ble/gatt.rs:310-510 | One undisturbed BLE transfer of a record that fits one fragment hands it out whole and completes it; it leaves the spool unless the network is up with a successful last upload |
| Delivery.ReadsAndStops | firmware/src/tasks/ble/gatt.rs:346-365 | A metadata read peeks if and only if no record is loaded; a stopped host makes no step; a disconnect drops the session and no record |
| Delivery.FragmentExtends | firmware/src/tasks/ble/transfer.rs:72-116 | A served fragment extends what was handed out without a gap |
| DeliveryRefinement.AppendIsAStep | firmware/src/tasks/storage/backlog.rs:90-124 | Every append of the flash-backed spool is a storage step of the delivery protocol, with the same drops |
| DeliveryRefinement.AcknowledgeIsAStep | firmware/src/tasks/storage/backlog.rs:155-164 | Every acknowledgement by sequence is a storage step of the delivery protocol, and it does not fail |
| DeliveryRefinement.BootStartsProtocol | firmware/src/tasks/storage/backlog.rs:66-88 | Booting on the flash that any run of completed writes left behind gives an initial state of the delivery protocol |
| DeliveryRefinement.BootStartsProtocolExactly | firmware/src/tasks/storage/backlog.rs:66-88 | Booting on any flash does so if and only if every pending sequence is below the recovered counter and names one record |
| DeliveryRefinement.TornAckNumbered | firmware/src/storage/spool/codec.rs:105-139 | After an interrupted acknowledgement that condition fails exactly when the counter comes back as 0 |
| DeliveryRefinement.StaleAcknowledgement | firmware/src/tasks/storage/backlog.rs:155-164 | A concrete run from such a boot in which the acknowledgement of an overwritten record removes a newer one that was neither posted nor served |
| DeliveryRefinement.SystemFollows | firmware/src/tasks/storage/runtime.rs:71-151 | However the tasks interleave on a booted spool, the protocol takes one of its own runs and its queue is what is pending in the spool, whose log invariant is kept |
| DeliveryRefinement.PeekIsAnswered | firmware/src/tasks/storage/runtime.rs:101-109 | Storage answers a peek, to the client and under the ticket that asked, with the oldest record in the spool, or with none if and only if the spool is empty |
| DeliveryRefinement.SpoolLosesNothing | firmware/src/tasks/storage/runtime.rs:71-151 | From boot on, every record pending then or appended since is pending in the spool, or was posted, completed by a central, or overwritten |
| DeliveryRefinement.OnlyDeliveredLeaveTheSpool | firmware/src/tasks/storage/runtime.rs:110-150 | A request makes at most the oldest record leave the spool, and only after it was posted with a 2xx or handed out to its last byte and completed |
| Measurements.DisplayOrder | server/src/sleep_env_server/storage.py:399-515 | Display time, device, sequence order records with different keys totally |
| Measurements.SortedUnique | server/src/sleep_env_server/storage.py:515-516 | A list in display order is determined by its records |
| Measurements.SortSorts | server/src/sleep_env_server/storage.py:515-516 | Sorting records with distinct keys gives that order |
| Measurements.TextOrder | server/src/sleep_env_server/storage.py:515-516 | Device names are ordered character by character, a prefix first |
| Measurements.PageByTime | server/src/sleep_env_server/storage.py:382-404 | A page is ordered by display time, device and sequence, oldest first, and holds only records of the asked device between the two times, both included |
| Measurements.PagesCoverListing | server/src/sleep_env_server/storage.py:382-404 | No matching record is left out of a listing, and pages cut it into consecutive pieces |
| ServerStores.SqliteStore.Write | server/src/sleep_env_server/storage.py:271-380 | Contents and stored/duplicate/conflict result for each of the four strategies by name: who keeps the old record, who takes the new one, who rejects |
| ServerStores.SqliteStore.ListRecords | server/src/sleep_env_server/storage.py:382-404 | The requested page of the unique listing of the matching rows |
| ServerStores.SqliteStore.RetainRecords | server/src/sleep_env_server/storage.py:422-446 | Deletes exactly the rows whose key is not kept, and counts them |
| ServerStores.JsonlStore.CanonicalRecords | server/src/sleep_env_server/storage.py:553-573 | The reading loop folds the log in file order; keys are distinct |
| ServerStores.JsonlStore.Write | server/src/sleep_env_server/storage.py:472-496 | The folded contents change, and the result is, as for a row store; a rejected conflict leaves the log alone |
| ServerStores.JsonlStore.ListRecords | server/src/sleep_env_server/storage.py:498-516 | Fold, filter, sort and slice give the same page of the same listing |
| ServerStores.JsonlStore.Compact | server/src/sleep_env_server/storage.py:535-544 | The log becomes its own fold, contents unchanged |
| ServerStores.JsonlStore.RetainRecords | server/src/sleep_env_server/storage.py:546-551 | The log becomes the given records; the count is clamped at zero |
| ServerStores.StoresAgree | server/src/sleep_env_server/storage.py:271-589 | After every sequence of writes, compactions and retentions of listed records, under every strategy, both stores hold the same records, returned the same write results, and list the same records in the same order for every query |
| ServerStores.RetentionCountsAgree | server/src/sleep_env_server/storage.py:422-551 | The clamped JSONL count is the number of rows SQLite deletes |
| Reconcile.BackfillSourceRecords | server/src/sleep_env_server/storage.py:855-884 | The loops over all stores collect the specified source records, blocked keys included |
| Reconcile.ReplaceStoreRecord | server/src/sleep_env_server/storage.py:906-914 | Retain-then-write keeps the other listed records and replaces one, whatever the store and its strategy; in a store of at most 1,000,000 records it replaces exactly that one |
| Reconcile.BackfillInto | server/src/sleep_env_server/storage.py:679-700 | The destination becomes its merge with the source records, and the writes are counted exactly |
| Reconcile.ReconcileOnce | server/src/sleep_env_server/storage.py:672-701 | The pass over any number of stores leaves the specified contents in each and returns the number of writes |
| Reconcile.NothingInvented | server/src/sleep_env_server/storage.py:672-701 | However many stores there are, every record held after a pass was held by some store before it |
| Reconcile.BothGetAllKeys | server/src/sleep_env_server/storage.py:672-701 | Two stores that use each other end up with the same keys, those of both |
| Reconcile.SecondPassWritesNothing | server/src/sleep_env_server/storage.py:672-701 | For two stores, any contents, any source and exclusion settings and any pair of conflict strategies, a second pass makes no write and changes nothing |
| Reconcile.ChoicesSettle | server/src/sleep_env_server/storage.py:887-903 | After each side chose in turn by its own rule, neither wants the other's choice |
| Reconcile.ChosenOfTwo | server/src/sleep_env_server/storage.py:887-903 | Of two different payloads: the own one, the other one, the earlier or the later by display time, the own one on a tie |
| Reconcile.TwoStoresChoose | server/src/sleep_env_server/storage.py:672-701 | After a pass over two stores, what each holds at a key where they differed, for every strategy |
| Reconcile.UsesOnlyItsSources | server/src/sleep_env_server/storage.py:855-869 | A store without leave to use the other stays as it is; with it, it keeps its own keys, gets all others, and leaves equal payloads alone |
| Reconcile.SourcesChosen | server/src/sleep_env_server/storage.py:855-884 | What any number of sources offer a destination under a key: the first, the last, the earliest, the latest, or nothing when they disagree and the rule is to refuse |
| Retention.RetainedRecords | server/src/sleep_env_server/storage.py:935-966 | Filter and newest-first loop give the specified records in display order |
| Retention.RetainedIsLongestNewest | server/src/sleep_env_server/storage.py:948-966 | What stays is the longest newest-first run of unexpired records within the size limit, or the newest alone when it is too big |
| Retention.LongestNewestUnique | server/src/sleep_env_server/storage.py:953-964 | There is only one such run |
| Retention.StaysByTimeAndSize | server/src/sleep_env_server/storage.py:935-966 | No expired record stays; without a size limit all others do; with one the newest do, at least one, and more only as long as they fit together |
| Retention.OneMoreIsTooMuch | server/src/sleep_env_server/storage.py:953-964 | The newest record that does not stay would exceed the size limit together with those that do |
| Retention.SizeAddsUp | server/src/sleep_env_server/storage.py:953-964 | The size of a list is the sum of its records' event sizes |
| Retention.EnforceStoreRetention | server/src/sleep_env_server/storage.py:917-932 | On either store of any size: nothing changes if nothing listed is to go; else exactly the listed records that are kept stay, and the count is the number of the others |
| Retention.UnlistedIsLost | server/src/sleep_env_server/storage.py:917-932 | A record that is not listed is newer than all that are, and does not survive a retention that removes anything |
| Retention.SecondEnforcementRemovesNothing | server/src/sleep_env_server/storage.py:917-966 | Enforcing the limits again at the same time keeps everything |
| PolicyProfiles.CheckProfileLoop | server/src/sleep_env_server/config.py:317-325 | Accepts exactly the profiles whose walk over parents ends; on known parents it never fails otherwise than by finding a loop |
| PolicyProfiles.AcceptedResolves | server/src/sleep_env_server/storage.py:1071-1098 | Without a default parent, whatever the loop check accepts is resolved in finitely many calls |
| PolicyProfiles.ChainFollowsParents | server/src/sleep_env_server/storage.py:1082-1086 | The chain that resolution walks is the profile, its parent, and so on to a root |
| PolicyProfiles.SettingsComeFromChain | server/src/sleep_env_server/storage.py:1087-1098 | Each resolved setting is that of the nearest profile on the chain that differs from the type default, or the default |
| PolicyProfiles.Resolve | server/src/sleep_env_server/storage.py:1071-1098 | Check then resolve: a result exactly for the accepted profiles, and independent of any recursion bound |
| EndToEnd.ListedExactly | server/src/sleep_env_server/storage.py:271-589 | Under every strategy, whoever else writes and however often is retried: all that was accepted of a device is listed by both stores if and only if no two accepted writes of it carry different records under one key |
| EndToEnd.FirstOrLastIsKept | server/src/sleep_env_server/storage.py:271-380 | Over any run of writes both stores hold under a key the payload of the first accepted write if the strategy keeps the first or rejects, of the last if it keeps the last or overwrites |
| EndToEnd.AcceptedUploadsAreListed | server/src/sleep_env_server/storage.py:271-404 | Every accepted upload of a record that the spool numbered is listed, if no append followed a restart of the sequence |
| EndToEnd.SecondRecordIsLost | server/src/sleep_env_server/storage.py:317-362 | Of two different records under one key both are accepted and one is not listed, unless conflicts are rejected |
| EndToEnd.TwoRecordsOneSequence | firmware/src/storage/spool/flash.rs:118-186 | A device run that issues two records of any two payloads under sequence 0 |
| BleAuth.RecordRoundTrip | firmware/src/storage/ble_auth/record.rs:1-105 | Decoding an encoded authorization record gives it back, identity key and flags included |
| BleAuth.HeaderRoundTrip | firmware/src/storage/ble_auth/header.rs:1-98 | Inspecting an encoded header reports what was encoded, and an outdated version, a foreign checksum or an empty set as such |
| BleAuth.RecordIsLaidOut | firmware/src/storage/ble_auth/record.rs:1-27 | The encoded record field by field, codes and flag bits in numbers |
| BleAuth.RecordAccepted | firmware/src/storage/ble_auth/record.rs:29-105 | Exactly which 64 bytes are read as a record, and what is read from them |
| BleAuth.DamagedRecordRejected | firmware/src/storage/ble_auth/record.rs:29-105 | A record damaged within four bytes is refused for its checksum |
| BleAuth.HeaderIsLaidOut | firmware/src/storage/ble_auth/header.rs:1-26 | The encoded header field by field |
| BleAuth.HeaderAccepted | firmware/src/storage/ble_auth/header.rs:28-98 | Exactly which bytes are read as a valid header for a version and a compatibility sum, and that a header counts as missing if and only if it is erased |
| BleAuth.EncodeRecord | firmware/src/storage/ble_auth/record.rs:1-27 | Fills exactly one 64-byte slot of the scratch buffer, or refuses a shorter one |
| BleAuth.StoreAuthRecords | firmware/src/storage/ble_auth/flash.rs:82-127 | Refuses by the program's checks in order without touching the flash, or leaves exactly header and records and then erased flash |
| BleAuth.LoadAuthRecords | firmware/src/storage/ble_auth/flash.rs:1-80 | On any flash content the status, the count and the records delivered, the first bad record deciding |
| BleAuth.ClearAuthRecords | firmware/src/storage/ble_auth/flash.rs:129-131 | Erases the region |
| BleAuth.LoadOfStored | firmware/src/storage/ble_auth/flash.rs:1-127 | Loading what was stored gives the same records, a valid status and their number |
| BleAuth.StoreThenLoad | firmware/src/storage/ble_auth/flash.rs:1-127 | Through the flash, whatever was stored before |
| BleAuth.LoadOfCleared | firmware/src/storage/ble_auth/flash.rs:129-131 | A cleared region loads as missing |
| BleAuth.FirstBadRecordNamed | firmware/src/storage/ble_auth/flash.rs:1-80 | The first record with a wrong checksum decides a load and is named by its index |
| BleAuth.LoadDeliversAllOrNothing | firmware/src/storage/ble_auth/flash.rs:1-80 | A load delivers all counted records of a set whose checksum matches, or none, with the reason |
| BleAuth.StoreRefused | firmware/src/storage/ble_auth/flash.rs:82-127 | Why a set is not stored, in numbers |
| FlashRegions.OverlapMeansSharedAddress | firmware/src/drivers/flash.rs:37-46 | The overlap test means a shared address |
| FlashRegions.AcceptedIsSeparated | firmware/src/drivers/flash.rs:122-175 | Every accepted layout keeps both regions in whole sectors on the flash, apart from each other and from every protected range |
| FlashRegions.SeparatedIsAccepted | firmware/src/drivers/flash.rs:122-175 | Nothing else is refused, for non-empty protected ranges |
| FlashRegions.RefusalReasons | firmware/src/drivers/flash.rs:122-175 | When a layout is refused for a zero flash, sector or region size, when as outside the flash for ending beyond 32 bits, and that refused regions do share an address |
| FlashRegions.EndlessOverlaps | firmware/src/drivers/flash.rs:28-46 | A range that ends beyond 32 bits counts as overlapping everything |
| FlashRegions.DefaultLayoutAccepted | firmware/src/drivers/flash.rs:59-78 | The device's own layout is accepted |
| FlashRegions.AccessStaysInRegion | firmware/src/drivers/flash.rs:377-393 | On an accepted layout an access is accepted if and only if it fits its region, and then touches only addresses of that region |
| FlashRegions.AccessRefused | firmware/src/drivers/flash.rs:260-393 | Which accesses are refused: misaligned ones first, then those that do not fit the region, and the erasure of nothing |
| FlashRegions.WriteRange | firmware/src/drivers/flash.rs:260-302 | The chunked loop clears the right bits of exactly the requested bytes; it succeeds if and only if no ROM call fails, and even then nothing outside them changes |
| FlashRegions.ReadRange | firmware/src/drivers/flash.rs:333-374 | The chunked loop returns exactly the requested bytes, if and only if no ROM call fails |
| FlashRegions.EraseRange | firmware/src/drivers/flash.rs:305-330 | The sector loop erases exactly the requested bytes; it succeeds if and only if no ROM call fails, and even then nothing outside them changes |
| FlashRegions.EraseWriteRead | firmware/src/drivers/flash.rs:259-374 | What is written to erased flash reads back as written, if and only if the ranges are aligned and inside the region and no ROM call fails |

## Left out

- Power loss during compaction: the region is erased before it is rewritten (spool/flash.rs:249-256), so the program promises nothing there.
- Sequence wrap-around: the ordering uses a plain maximum, so runs are kept below 2^64 - 1, the torn acknowledgement and the current-boot mark below 2^63.
- The next write after recovery from a damaged tail may meet bytes that are not erased; nothing is claimed about it.
- Delivery.WaitingIsServed: counts the moves of storage, since the executor's fairness is not modelled; nor is a sender blocked on a full channel shown to be scheduled.
- RecordTransfer.TransferRuntime.PrepareFragmentRequest: a failing notification is only logged and not modelled; in `Delivery` a fragment counts as handed out once it is prepared for reading.
- ServerStores.SqliteStore.Write: SQLite integers have 64 bits; from 2^63 on the program's write raises, which is not modelled.
- ServerStores.StoresAgree: for the same reason it describes the program only for integers below 2^63; from there on the JSONL store accepts what the SQLite store refuses.
- Delivery: authorization and bond checks, discovery, time synchronisation, and the text of requests; a post either succeeds with a 2xx or not.
- `recover_records` (spool/codec.rs:141-170): only unit tests call it.
- JSON number and timestamp formatting, sensor and microphone arithmetic: an encoded measurement is given, or its encoding failed.
- Reconcile.BackfillSourceRecords: list calls are cut at 1,000,000 records; for a whole pass the stores are kept at or below that.
- Reconcile.BackfillInto: the same.
- Reconcile.ReconcileOnce: the same.
- Merged history views, which of several stores must accept an upload, ACK policy evaluation and status codes of the upload sink: small case tables over results proved here.
- A non-empty `default_parent`, to which the resolver falls back at every root, while the loop check does not follow it.
- `ServerStores.JsonlStore.RetainRecords` with records that were never listed: the two stores then differ, because one keeps its own rows and the other writes what it is given.
- Order and uniqueness of authorization records under upsert: replacement is always at index 0, so neither is kept.
- SQLite columns that only copy payload fields, file creation, the atomic rename of the log, locks and the maintenance thread.
- ROM return codes other than success carry no meaning; a failing ROM call may have done any part of its work.
