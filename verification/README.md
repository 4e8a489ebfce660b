# OCAT-M in Dafny

OCAT-M is an EtherCAT master in C. This project models the parts of it whose behaviour is decided by loops, state and
32-bit arithmetic, and proves what they do for all inputs, all runs and all peers. `dafny verify dfyconfig.toml` checks
everything.

Code that works step by step is modelled that way: the frame builder and parser, the ring queue, the data link API, the
transfers, the EEPROM walk, the offset allocator, the statistics and the failover logic are methods and classes over
arrays and fields. Each is proved against a specification function, and the properties are lemmas about that function
over whole runs. What a function shares with the code it specifies is pinned from outside, by lemmas that name messages,
bytes, counts and the numbers of the protocols instead of the function.

| files | what they model |
|---|---|
| `Endian` | little-endian fields in a byte buffer |
| `CrcTable`, `Fcs` | the CRC-32 table and the frame check sequence (section 3.2.9 of IEEE 802.3) |
| `Frame`, `FrameBuilder`, `FrameParser`, `FrameRoundTrip` | frames: written in place, read back (section 5 of ETG.1000.4) |
| `QueueSpec`, `DlQueue` | the priority queue as a sequence, and as a ring buffer |
| `DllSpec`, `DllRequests`, `Dll` | the data link API: duplicated state, queues, frame accounting, and what its callers see of it |
| `Mailboxes`, `Coe`, `Copies` | the scripted mailbox, CoE messages, copies into a caller's buffer |
| `Channels` | channels that keep order but lose and duplicate |
| `SdoDownload`, `SdoDownloadOutcome`, `SdoDelivery` | SDO download, told from outside, and its delivery to a server over a bad channel |
| `SdoUpload`, `SdoUploadOutcome`, `SdoFetch` | SDO upload, told from outside, and what it fetches from a server over a bad channel |
| `Foe`, `FoeRead`, `FoeWrite`, `FoeOutcome` | file access, both directions, and both told from outside |
| `FoeTransfer`, `FoeDelivery` | the writer against a receiver, packet by packet and over a bad channel |
| `Sii`, `SiiCategories`, `Pdo`, `PdoConfig` | EEPROM words, the category walk, the PDO decoder, and the two together |
| `Layout`, `ProcessImage` | process data sizes, offsets, mappings, reads and writes |
| `CycleStatistics`, `Failover` | the running mean, and automatic failover |
| `Sums`, `Wrappers` | sums, Option and minimum |

## What the environment may do

* A mailbox is a script of answers: every send and every receive may succeed, fail, time out, or bring any message. The
  methods `SdoDownload.Download`, `SdoUpload.Upload`, `FoeRead.Read` and `FoeWrite.Write` are proved for every script. A
  script that ends before the call does gives no status.
* In `SdoDelivery`, `SdoFetch` and `FoeDelivery` the two sides exchange messages over two channels that keep their order,
  but in which any message may be lost or duplicated at any time, and unrelated messages may appear. The server of
  `SdoDelivery` may refuse any request with a message chosen in advance, and keep or close the transfer; the server of
  `SdoFetch` may too, and may leave the size out of its answer; the slave of `FoeDelivery` may be busy at any time.
* Clocks, `malloc`, the HAL and register accesses are arguments or scripts, so claims hold for all their outcomes.
* CoE command bytes use the bit-field order of `include/ethercat/coe.h`, which is the repository's own.

## Results that differ from what one would expect

* `dl_stop` after an accepted frame: the comment at src/dll/dll_state.c:11 lets it go from RUNNING to READY. The code
  (src/dll/dll_control.c:74-83) flushes both queues, asks for INITIALIZED, which the table at src/dll/dll_state.c:59
  forbids, and fails. `DllSpec.AcceptedFrameCommits`: once a frame has been accepted, no sequence of calls leaves
  RUNNING. `DllSpec.ResetIsNeverPossible`: no call enters the error state, so `dl_reset` always refuses.
* The FCS of a finished frame verifies exactly when no padding was needed (`FrameRoundTrip.FinalFrameFcs`): the padding
  goes behind the FCS, but the check reads the last four bytes.
* A list of datagrams survives building and parsing exactly when every length fits 11 bits and the total, truncated to
  11 bits, still reaches the last datagram (`FrameRoundTrip.FrameRoundTrip`). Frames up to 1518 bytes always do.
* The overflow checks of `coe_sdo_upload` and `foe_read` add in 32 bits. They keep every peer inside the buffer exactly
  up to a capacity of 2^32 - 7 and 2^32 - 513 (`SdoUpload.StaysInsideIff`, `FoeRead.StaysInsideIff`).
* `foe_write` sends no empty last packet, so a receiver with the rule of `foe_read` sees the end of a file exactly when
  its length is not a multiple of 512 (`FoeTransfer.ReadTakesBackWritten`).
* The bytes that `scan_read_eeprom_category` counts are the category's if and only if the buffer's size is even or holds
  all that is returned (`SiiCategories.CountedAreStoredIff`). Otherwise the last one is not stored: a buffer of one byte is
  left as it was, with a count of one (`SiiCategories.OneByteBufferStoresNothing`). The byte count has 16 bits, so a
  category of 32768 words or more comes back cut unless the buffer is small enough (`SiiCategories.WholeCategoryIff`).
* The fit check of `ecat_frame_builder_add_datagram` uses a 16-bit size. It keeps a datagram inside every buffer if and only
  if its length is at most 65523 (`FrameBuilder.NeverPastBufferIff`); a longer one passes into an empty frame of 1518 bytes
  (`FrameBuilder.WrappedSizePasses`). The caller at src/master/process_data.c:307-313 passes a 32-bit size.
* `coe_sdo_download` recognises an abort by the low three bits of the command byte. A server that refuses with 0x80, naming
  the object, makes a write of up to four bytes report success with nothing stored
  (`SdoDelivery.RefusedWriteReportsSuccess`). `SdoDelivery.AlwaysDeliversIff` is the exact condition on the refusal under
  which success always means delivered. For more than four bytes it also concerns the segment phase, where a refusal can
  pass for an acknowledgement: with toggle 0 a late one always can (`SdoDelivery.RefusalTakenForAcknowledgement`), with
  toggle 1 only one of the last segment, and then only if the number of segments is even
  (`SdoDelivery.RefusedLastSegmentReportsSuccess`).
* `coe_sdo_upload` ignores whether the initiate response shows a size. From a server that shows none it can report success
  with the object cut to the buffer, on a perfect channel (`SdoFetch.TruncatedUploadSucceeds`), or with bytes of a repeated
  initiate response in front (`SdoFetch.RepeatTakenForSegment`). `SdoFetch.AlwaysFetchesIff` is the exact condition for each
  object, with and without duplication, and `SdoFetch.EveryObjectIff` the exact condition on the buffer and the refusals: a
  refusal whose abort code passes for a size is taken for consent (`SdoFetch.RefusalTakenForConsent`).
* 32-bit offsets are exact for every configuration exactly up to 4096 slaves (`Layout.NeverOverflowsIff`). `pd_map_slave`
  accepts a window outside the image exactly when its end wraps (`ProcessImage.PassingIsInsideIff`), and only then can an
  accepted write leave the image (`ProcessImage.WritesStayInsideIff`).
* The reported mean cycle time lags behind the true one by at most (n - 1) / 2, and on steadily falling cycle times it
  does lag that much (`CycleStatistics.LagIsAttained`).
* The error rate in `pd_check_port_health` is truncated, so a port counts as unhealthy from 10.1 percent on, while the
  comment at src/master/process_data.c:673 says more than 10 percent (`Failover.HealthyIff`,
  `Failover.HealthyAboveTenPercent`).

## Model

| member | source | states |
|---|---|---|
| `Endian.WriteU16` | include/ethercat/endian.h:165-190 | the two bytes at the offset become a field that reads back as the value, the rest of the buffer is untouched |
| `Endian.WriteU32` | include/ethercat/endian.h:174-201 | the same for four bytes |
| `Endian.LeastSignificantFirst` | include/ethercat/endian.h:165-201 | the least significant byte of a field comes first |
| `Endian.ReadU32Injective` | include/ethercat/endian.h:174-181 | four bytes are determined by the 32-bit value they spell |
| `CrcTable.EntryIsBitSerial` | src/dll/frame.c:40-84 | every table entry is eight bit-serial steps of the reflected polynomial 0xEDB88320 |
| `Fcs.CalculateFcs` | src/dll/frame.c:162-172 | the table-driven loop computes the bit-serial CRC-32 of the bytes: initial value all ones, final complement |
| `Fcs.CheckValue` | src/dll/frame.c:162-172 | the FCS of the digits 1 to 9 is 0xCBF43926, the check value of this CRC, and that of no bytes is 0 |
| `Fcs.VerifyFcs` | src/dll/frame.c:174-188 | accepts exactly the frames of at least four bytes whose last four are the FCS of the rest |
| `Fcs.FcsHoldsIffResidue` | src/dll/frame.c:174-188 | a frame verifies if and only if its register over all bytes ends in the residue 0xDEBB20E3 |
| `Fcs.SerialInjective` | src/dll/frame.c:162-172 | different registers stay different under any further bits, so a detected error cannot cancel out later |
| `Fcs.BurstDetected` | src/dll/frame.c:174-188 | a verifying frame of any length changed within any 32 consecutive bits no longer verifies |
| `Fcs.FourByteBurstDetected` | src/dll/frame.c:174-188 | the same for any change confined to four consecutive bytes, FCS included |
| `Fcs.PaddingBreaksFcs` | src/dll/frame_builder.c:132-143 | 1 to 32 zero bytes behind a verifying frame make it fail |
| `FrameBuilder.Builder.Init` | src/dll/frame_builder.c:17-53 | buffers below 64 bytes are refused untouched; else an empty frame to these addresses is begun |
| `FrameBuilder.Builder.AddDatagram` | src/dll/frame_builder.c:55-110 | a datagram is accepted exactly when it passes the 16-bit fit check; its header, the caller's bytes and a zero WKC are then in the buffer byte by byte, and the buffer carries one request more; else nothing changes |
| `FrameBuilder.AcceptedIffFits` | src/dll/frame_builder.c:68-75 | up to a length of 65523, a datagram is accepted exactly if it and the FCS fit, to the last byte |
| `FrameBuilder.NeverPastBufferIff` | src/dll/frame_builder.c:68-75 | whatever the offset and the buffer size, a datagram that passes ends with its FCS inside the buffer, if and only if its length is at most 65523 |
| `FrameBuilder.WrappedSizePasses` | src/dll/frame_builder.c:68-75 | every longer datagram passes into an empty frame of 1518 bytes, and its data runs past it |
| `FrameBuilder.Builder.Finalize` | src/dll/frame_builder.c:112-146 | the buffer holds the finished frame of the accepted requests: declared length, FCS, padding to 64; an 8-bit datagram count of zero is refused |
| `FrameParser.Parser.Init` | src/dll/frame_parser.c:17-39 | refuses less than 64 bytes, else the cursor stands behind the headers |
| `FrameParser.Parser.Validate` | src/dll/frame_parser.c:41-78 | accepts exactly the frames the reference reader accepts, and leaves to read what it reads |
| `FrameParser.Parser.NextDatagram` | src/dll/frame_parser.c:80-122 | hands out the next datagram in memory and moves behind it, as the reference reader does, or fails when none is left |
| `FrameParser.ReadDatagrams` | src/dll/frame_parser.c:17-131 | a client that validates and then loops while has_more gets exactly what the reference reader reads |
| `FrameParser.ReadFinishedFrame` | src/dll/frame_parser.c:17-131 | on a finished frame of readable requests the loop returns these requests in order, each with exactly the bytes the caller gave, or zeros for a read, and with zero WKC |
| `Frame.DatagramRoundTrip` | src/dll/frame_builder.c:78-107 | a datagram written at any place in a frame is read back field by field |
| `Frame.EncodedIsSpelled` | src/dll/frame_builder.c:78-103 | a datagram on the wire, byte by byte: command, index, address, length with the more flag, no IRQ, the caller's bytes, no WKC |
| `Frame.AnsweredRoundTrip` | src/dll/frame_parser.c:80-122 | a datagram that slaves have answered, with any WKC, IRQ and circulating flag, is read back field by field |
| `FrameRoundTrip.FrameRoundTrip` | src/dll/frame_parser.c:41-131 | reading a finished frame gives exactly the requests in order, with zero WKC, if and only if their lengths are readable |
| `FrameRoundTrip.DataComesBack` | src/dll/frame_parser.c:41-131 | every datagram of a readable frame comes back with the bytes that were given for it |
| `FrameRoundTrip.FinalFrameBytes` | src/dll/frame_builder.c:41-143 | a finished frame byte by byte: addresses, EtherType 0x88A4, length, datagrams, the FCS of all that, zeros up to 64 bytes |
| `FrameRoundTrip.RejectedIff` | src/dll/frame_parser.c:17-78 | a frame is refused if and only if it has less than 64 bytes, another EtherType or type, or a declared length that leaves no room for the FCS |
| `FrameRoundTrip.FramesUpToMaximumReadable` | src/dll/frame_builder.c:55-146 | every frame that fits 1518 bytes is readable |
| `FrameRoundTrip.HasMoreUntilLast` | src/dll/frame_parser.c:124-131 | the parser's cursor after k datagrams of a finished frame is below the declared end if and only if k is less than their number |
| `FrameRoundTrip.FinalFrameFcs` | src/dll/frame_builder.c:126-143 | a finished frame verifies if and only if it has at least 64 bytes before padding |
| `QueueSpec.Position` | src/dll/dll_queue.c:45-90 | the insertion place: behind the last entry of at least the priority, before smaller ones only |
| `QueueSpec.RunKeepsInvariant` | src/dll/dll_queue.c:145-233 | in every run the queue is sorted by priority and arrival, and accepted entries are waiting, delivered or flushed exactly once |
| `QueueSpec.DequeueTakesBest` | src/dll/dll_queue.c:173-196 | a dequeue delivers the earliest arrival among the entries of highest priority |
| `QueueSpec.NothingLostOrOvertaken` | src/dll/dll_queue.c:145-233 | in every run the accepted entries are those waiting, delivered and flushed, none lost or duplicated, and entries of one priority are delivered in arrival order |
| `QueueSpec.OperationsDo` | src/dll/dll_queue.c:145-234 | after any run: an entry is accepted exactly if there is room, a flush leaves nothing waiting, a look and a dequeue from nothing change nothing |
| `QueueSpec.EntriesOfInsert` | src/dll/dll_queue.c:45-90 | numbering arrivals changes nothing: without numbers, insertion is that of the plain queue |
| `DlQueue.WrapIsModulo` | src/dll/dll_queue.c:62-84 | the ring arithmetic of the model is the remainder of the code |
| `DlQueue.Queue.constructor` | src/dll/dll_queue.c:96-126 | a new queue of non-zero capacity is empty |
| `DlQueue.Queue.InsertWithPriority` | src/dll/dll_queue.c:45-90 | shifting in place, under any wrap of head and tail, inserts the entry at its place and keeps the others in order |
| `DlQueue.Queue.EnqueueEntry` | src/dll/dll_queue.c:145-171 | a full queue refuses and stays; else the contents are those with the entry enqueued by priority or at the end |
| `DlQueue.Queue.DequeueEntry` | src/dll/dll_queue.c:173-196 | hands out the first of the contents and leaves the rest, or fails on an empty queue |
| `DlQueue.Queue.PeekEntry` | src/dll/dll_queue.c:198-217 | shows the first of the contents and changes nothing |
| `DlQueue.Queue.FlushEntries` | src/dll/dll_queue.c:219-234 | the contents become empty |
| `Dll.DataLink.Init` | src/dll/dll_init.c:27-112 | the context after dl_init for every configuration, allocation and HAL outcome, failed ones included |
| `Dll.DataLink.Shutdown` | src/dll/dll_init.c:114-159 | the context after dl_shutdown, which stops a running layer and destroys the queues, or refuses |
| `Dll.DataLink.Start` | src/dll/dll_control.c:15-56 | READY and running from INITIALIZED, refused elsewhere |
| `Dll.DataLink.Stop` | src/dll/dll_control.c:58-89 | both queues are flushed before the transition is tried, also when it then fails |
| `Dll.DataLink.Reset` | src/dll/dll_control.c:91-125 | dl_reset from the error state, refused elsewhere |
| `Dll.DataLink.Send` | src/dll/dll_tx.c:16-77 | an accepted request waits at its place by priority, overflow is counted, the first one takes READY to RUNNING |
| `Dll.DataLink.ProcessTxQueue` | src/dll/dll_tx.c:87-145 | one waiting frame is taken and counted as sent or failed, for every HAL outcome |
| `Dll.DataLink.FlushTxQueue` | src/dll/dll_init.c:270-284 | the TX queue becomes empty, its frames count as flushed |
| `Dll.DataLink.FlushRxQueue` | src/dll/dll_init.c:286-300 | the RX queue becomes empty |
| `Dll.DataLink.ResetStatistics` | src/dll/dll_init.c:324-337 | the counters restart, with the frames waiting now as baseline |
| `Dll.DataLink.StateSet` | src/dll/dll_state.c:95-119 | the module state moves exactly along the transition table |
| `DllSpec.ReachableStates` | src/dll/dll_control.c:15-125 | after any calls both copies of the state agree, the flags mean what they say, and both queues exist while initialized |
| `DllSpec.TransitionsAre` | src/dll/dll_state.c:54-61 | a state may be kept or fail, neighbours in the order of start-up may follow each other, and the error state leads to INITIALIZED only |
| `DllSpec.FramesConserved` | src/dll/dll_tx.c:16-145 | after any calls and HAL outcomes: baseline plus accepted equals sent plus failed plus waiting plus flushed |
| `DllSpec.ResetIsNeverPossible` | src/dll/dll_control.c:91-125 | the error state is never entered, so dl_reset always fails without effect |
| `DllSpec.StopSucceedsIffReady` | src/dll/dll_control.c:58-89 | dl_stop succeeds if and only if the state is READY; from RUNNING it fails, flushes, and stays running |
| `DllSpec.StopAfterFrameFails` | src/dll/dll_control.c:58-89 | init and start reach READY, where dl_stop succeeds; after one more accepted frame it fails from RUNNING and flushes that frame |
| `DllSpec.RunningIsForever` | src/dll/dll_state.c:54-61 | no sequence of calls leaves RUNNING |
| `DllSpec.AcceptedFrameCommits` | src/dll/dll_tx.c:70-74 | after an accepted frame the state is RUNNING whatever is called later |
| `DllSpec.ShutdownDropsNothing` | src/dll/dll_init.c:114-159 | whenever dl_shutdown succeeds no frame is waiting |
| `DllRequests.HandsOutBest` | src/dll/dll_tx.c:16-145 | in every run of calls, what dl_process_tx_queue hands to the HAL carries frame, length, priority and user data of the earliest request of the highest priority among those accepted and neither handed out nor flushed |
| `DllRequests.StatisticsAreCounts` | src/dll/dll_tx.c:43-145 | in every run the statistics count exactly the frames the HAL took, those it did not take, and the good requests that met a full queue, since they were cleared |
| `DllRequests.InitSucceedsIff` | src/dll/dll_init.c:27-112 | dl_init succeeds if and only if the layer is uninitialized, the configuration good and every resource there; refused it changes nothing, failing it leaves no usable queue |
| `DllRequests.StartAndShutdownSucceedIff` | src/dll/dll_control.c:15-56 | after any calls, dl_start succeeds exactly from INITIALIZED, dl_shutdown exactly from INITIALIZED or READY |
| `DllRequests.SendSucceedsIff` | src/dll/dll_tx.c:16-77 | after any calls, dl_send_req succeeds if and only if there is a frame of 1 to 1518 bytes, the layer is READY or RUNNING, and the TX queue has room |
| `DllRequests.ServiceSucceedsIff` | src/dll/dll_init.c:270-337 | after any calls: when dl_process_tx_queue, the flushes and dl_reset_statistics succeed, and what they leave |
| `DllRequests.QueuesAreKept` | src/dll/dll_init.c:270-300 | after any calls: none but dl_init and dl_shutdown replaces a queue or its capacity, and which calls leave which queue as it was or empty |
| `SdoDownload.AwaitInitiateResponse` | src/al/coe.c:126-178 | the wait ends with the matching response, or the call returns as specified: abort, timeout |
| `SdoDownload.AwaitSegmentResponse` | src/al/coe.c:216-271 | the wait ends with an acknowledgement of the right toggle, or the call returns: abort, wrong toggle, timeout |
| `SdoDownload.Download` | src/al/coe.c:56-279 | for every script of answers, the messages sent and the status are those of the specified run |
| `SdoDownloadOutcome.PassedChangeNothing` | src/al/coe.c:126-271 | for every script: empty polls and messages that are not the awaited response, put in anywhere while the call waits, change neither its status nor what it sends |
| `SdoDownloadOutcome.MessagesAreInSequence` | src/al/coe.c:77-209 | in every run the first message names the object and carries its bytes or announces their number, and the others are its segments in order, with toggle, unused count and last flag |
| `SdoDownloadOutcome.SendDecides` | src/al/coe.c:117-214 | the call goes on exactly if the mailbox takes the message, else it ends with the status of the failing call |
| `SdoDownloadOutcome.InitiateWaitDecides` | src/al/coe.c:126-178 | after any run: what the deadline, an abort, an answer about the object and anything else lead to in the first wait |
| `SdoDownloadOutcome.SegmentWaitDecides` | src/al/coe.c:216-278 | after any run: a segment counts as delivered exactly if its toggle comes back, and the last one ends the call; how else the wait ends |
| `SdoDelivery.DrawnKeepsInvariant` | src/al/coe.c:180-278 | losing or duplicating messages, in any combination that keeps order, preserves what is known about them |
| `SdoDelivery.NextKeepsInvariant` | src/al/coe.c:180-278 | every step of master, server or channel preserves the protocol invariant |
| `SdoDelivery.SuccessMeansDelivered` | src/al/coe.c:56-279 | success implies that the server holds exactly the bytes, announced with their number and received as ceil(size / 7) segments with alternating toggles, only the last marked, although it may refuse any request in a safe way, and keep or close the transfer |
| `SdoDelivery.AlwaysDeliversIff` | src/al/coe.c:151-258 | success always means delivered if and only if a refusal has abort in its low three bits or names another object, and beyond four bytes also abort in the segment layout, or toggle one when segments are never refused or odd in number |
| `SdoDelivery.RefusedWriteReportsSuccess` | src/al/coe.c:151-165 | refused with command byte 0x80 for the written object, a write of up to four bytes succeeds with nothing stored |
| `SdoDelivery.RefusalTakenForAcknowledgement` | src/al/coe.c:242-258 | beyond four bytes, late refusals of initiate requests that are no abort in the segment layout and have toggle zero can pass for acknowledgements, and success comes without delivery |
| `SdoDelivery.RefusedLastSegmentReportsSuccess` | src/al/coe.c:242-258 | a refusal of the last segment that has its toggle and is no abort in the segment layout makes the download succeed without that segment |
| `SdoDelivery.AbortOfInitiateIsNotEnough` | src/al/coe.c:151-258 | command byte 4 is an abort to the first wait, but beyond four bytes success can still come without delivery |
| `SdoDelivery.DownloadCanSucceed` | src/al/coe.c:56-279 | for every non-empty object some run succeeds, whatever the server's refusals look like |
| `SdoUpload.Upload` | src/al/coe.c:402-651 | for every script whose copies stay in the buffer, messages, status, size and the buffer are those of the specified run; bytes beyond the received ones are untouched |
| `SdoUpload.ReceiveSegments` | src/al/coe.c:533-650 | the segment loop, in place in the caller's buffer, for the same scripts |
| `SdoUpload.SuccessMeansConcatenation` | src/al/coe.c:533-650 | against any server: a capacity up to 2^32 - 7 keeps every copy inside it, and if they are inside, success means alternately toggled segments end to end, ended by a last mark or a full buffer |
| `SdoUpload.StaysInsideIff` | src/al/coe.c:621-628 | no server makes the call write past the capacity if and only if the capacity is at most 2^32 - 7 |
| `SdoUploadOutcome.PassedChangeNothing` | src/al/coe.c:459-643 | for every script: empty polls and messages that are not the awaited response, put in anywhere while the call waits, change neither its status nor the copies nor what it sends |
| `SdoUploadOutcome.MessagesAreInSequence` | src/al/coe.c:420-577 | in every run the messages are the initiate request for the object and segment requests with the toggle in turn |
| `SdoUploadOutcome.SendDecides` | src/al/coe.c:453-577 | the call goes on exactly if the mailbox takes the message, else it ends with ERROR |
| `SdoUploadOutcome.InitiateWaitDecides` | src/al/coe.c:459-531 | after any run: an expedited answer ends the call with its bytes if they fit, another answer about the object starts the segments if the size it shows fits; how else the wait ends |
| `SdoUploadOutcome.SegmentWaitDecides` | src/al/coe.c:579-646 | after any run: a segment with the toggle of the last request is copied behind the bytes received if the 32-bit sum fits, and ends the call if it is the last or fills the buffer; how else the wait ends |
| `SdoFetch.NextKeepsInvariant` | src/al/coe.c:402-651 | every step of master, server or channel preserves the protocol invariant, for every object and server that is safe, whatever is refused |
| `SdoFetch.SuccessMeansObject` | src/al/coe.c:402-651 | success implies that the caller has exactly the server's object, and its length, although any request may be refused in a way the initiate wait understands: always if the server shows the size, else under the exact condition of AlwaysFetchesIff |
| `SdoFetch.AlwaysFetchesIff` | src/al/coe.c:489-651 | for each object, shown with its size or not, expedited or not, with or without duplication, and refusals that the initiate wait understands: success always means the object if and only if the stated condition on size and capacity holds |
| `SdoFetch.EveryObjectIff` | src/al/coe.c:489-651 | success means the object for all objects of a server if and only if its refusals are understood, and it shows the size or the capacity is below 4, or, if it never expedites, below 6 with duplication and not a multiple of 7 without |
| `SdoFetch.TruncatedUploadSucceeds` | src/al/coe.c:514-538 | an object longer than a buffer of whole segments, sent without its size, is cut to the buffer with success over an undisturbed channel |
| `SdoFetch.RepeatTakenForSegment` | src/al/coe.c:587-645 | a repeated initiate response without a size is taken for the first segment, and the call succeeds with six of its bytes followed by the object from its eighth byte on |
| `SdoFetch.RefusalTakenForConsent` | src/al/coe.c:489-522 | a refusal of the requested object that is no abort in the low three bits, with a code up to the capacity, lets the call succeed with one byte of a 15-byte object |
| `SdoFetch.UploadCanSucceed` | src/al/coe.c:402-651 | every object that fits the buffer is uploaded in some run without duplication, the empty one included; an expedited answer without a size needs four bytes of room |
| `FoeRead.Read` | src/al/foe.c:300-433 | for every script whose copies stay in the buffer, messages, status, size and the buffer are those of the specified run; bytes beyond the received ones are untouched |
| `FoeRead.ReceiveFile` | src/al/foe.c:348-432 | the receive loop, in place in the caller's buffer, for the same scripts |
| `FoeRead.SuccessMeansNumbered` | src/al/foe.c:348-432 | against any peer: a capacity up to 2^32 - 513 keeps every copy inside it, and if they are inside, success means payloads numbered 1 to k without gaps, all but the last exactly 512 bytes, each acknowledged |
| `FoeRead.StaysInsideIff` | src/al/foe.c:384-391 | no peer makes the call write past the capacity if and only if the capacity is at most 2^32 - 513 |
| `FoeOutcome.BusyTurnsChangeNothing` | src/al/foe.c:418-421 | for every script of foe_read, turns that bring BUSY in time can be left out: status, copies and messages are the same |
| `FoeOutcome.ReadOutlastsBusy` | src/al/foe.c:348-432 | foe_read fed with a file's packets and any number of BUSY answers between them gives back the file, and returns exactly if its size is not a multiple of 512 |
| `FoeOutcome.ReadBegins` | src/al/foe.c:300-346 | when foe_read is refused at once, and that it asks for the file by its name |
| `FoeOutcome.ReadTurnDecides` | src/al/foe.c:348-432 | after any turns: what the deadline, BUSY, the expected packet, another packet and every failure lead to |
| `FoeWrite.Write` | src/al/foe.c:435-580 | for every script of turns, the messages sent and the status are those of the specified run |
| `FoeWrite.SendFile` | src/al/foe.c:504-576 | the DATA loop with its retries |
| `FoeWrite.WriteTerminates` | src/al/foe.c:504-576 | whatever the slave answers, the call ends within 1 + 51 * ceil(size / 512) turns and sends at most 51 * ceil(size / 512) DATA messages |
| `FoeWrite.StepBurnsFuel` | src/al/foe.c:504-576 | every turn decreases the measure of unsent packets and remaining retries |
| `FoeWrite.SuccessMeansSent` | src/al/foe.c:435-580 | success means every packet was sent in order, repeated only in place, none more than 51 times |
| `FoeOutcome.WriteBegins` | src/al/foe.c:435-502 | when foe_write is refused at once, that it names the file, and that it goes on exactly if packet 0 is acknowledged |
| `FoeOutcome.WriteTurnDecides` | src/al/foe.c:504-576 | after any turns: which bytes go out under which number, and what an acknowledgement, the fifty-first BUSY in a row, the deadline and every failure lead to |
| `FoeTransfer.SuccessMeansStored` | src/al/foe.c:435-580 | however packets and answers fare and whatever room the receiver has, a successful write has stored exactly the file, which then fits, and the receiver is done exactly when the size is not a multiple of 512 |
| `FoeTransfer.BusyAnswersAreSurvivedIff` | src/al/foe.c:562-568 | with BUSY answers before each acknowledgement the write succeeds if and only if no packet meets more than 50 and the file fits; if it fits but is met with more, BUSY is reported |
| `FoeTransfer.WriteCanSucceedIff` | src/al/foe.c:435-580 | some fate of the packets lets a write succeed if and only if the file fits the receiver |
| `FoeTransfer.ReadTakesBackWritten` | src/al/foe.c:348-432 | foe_read fed with a file's packets gives back the file and returns exactly when its size is not a multiple of 512, or refuses a file that does not fit |
| `FoeDelivery.NextKeepsInvariant` | src/al/foe.c:435-580 | every step of writer, slave or channel preserves the protocol invariant |
| `FoeDelivery.SuccessMeansDelivered` | src/al/foe.c:435-580 | over channels that lose and duplicate, with a slave in any state that may be busy at any time, a successful write has stored exactly the file, and the slave has seen its end exactly when the size is not a multiple of 512 |
| `FoeDelivery.WriteCanSucceed` | src/al/foe.c:435-580 | every file that fits the receiver is written in some run |
| `Sii.ReadWord` | src/master/scan.c:453-529 | the handshake ends as its register accesses say, and a returned word is the one at the address |
| `Sii.WordIsReadIff` | src/master/scan.c:453-529 | a word is read if and only if both writes are accepted, any number of polls show busy in time, one shows ready, and the data register can be read |
| `Sii.WordFailsAs` | src/master/scan.c:466-523 | with which status a refused write, a late or failing poll, error bits and a failing data read end the word read |
| `Sii.ReadCategory` | src/master/scan.c:592-650 | for every script of accesses, status, count and buffer are those of the specified walk with its 16-bit wraps |
| `Sii.ReadWords` | src/master/scan.c:630-638 | the words read before a failing access are in the buffer as little-endian bytes |
| `SiiCategories.WalkFinds` | src/master/scan.c:607-647 | for every script of accesses, on a well-formed list the walk reads two words per header, and ends at the first category of the kind among the first 256, without one, or at the first read that fails |
| `SiiCategories.CategoryIsRead` | src/master/scan.c:592-650 | for every script of accesses, on a well-formed list: the words the call needs, the status it ends with, the count, and the category's words stored up to the first failing read |
| `SiiCategories.SuccessMeansCategory` | src/master/scan.c:592-650 | for every script of accesses: success comes if and only if the category is there and every needed read succeeds, and it means the first matching category's bytes, cut to the buffer |
| `SiiCategories.CategoryIsFound` | src/master/scan.c:592-650 | if the needed word reads succeed, whatever the polls show: the first matching category as bytes cut to the buffer, or ERROR with the buffer untouched if there is none |
| `SiiCategories.WholeCategoryIff` | src/master/scan.c:622-625 | the category is cut to the buffer only, and not by the 16-bit byte count, if and only if it has less than 32768 words or the count that is left fills the buffer |
| `SiiCategories.CountedAreStoredIff` | src/master/scan.c:622-641 | on every well-formed list with a matching category, the counted bytes are the category's, whatever the buffer held, if and only if its size is even or at least what is returned |
| `SiiCategories.OneByteBufferStoresNothing` | src/master/scan.c:622-641 | a concrete EEPROM on which a buffer of one byte stays as it was although one byte is counted |
| `Pdo.DecodePdos` | src/master/config.c:426-445 | the loop stores the decoded headers at the front of the caller's array and leaves the rest |
| `Pdo.DecodedAreHeaders` | src/master/config.c:426-442 | a category cut anywhere decodes to the headers that lie within the cut, in order, as many as there is room for |
| `Pdo.DecodeEncode` | src/master/config.c:426-442 | decoding a whole category gives back all its headers |
| `PdoConfig.ReadPdos` | src/master/config.c:396-447 | for every script of accesses: the headers decoded from the bytes that were read, or failure and no records |
| `PdoConfig.PdosAreRead` | src/master/config.c:396-447 | from an EEPROM with these PDOs in its first category 0x32 or 0x33, whenever the needed word reads succeed, the headers within 512 bytes come out in order, as many as there is room for |
| `PdoConfig.PdosAreReadIff` | src/master/config.c:396-423 | the call succeeds if and only if the category 0x32 or 0x33 is there and the words it needs can be read; else there are no records |
| `Layout.SizesOf` | src/master/config.c:616-624 | input and output size are the lengths of the sync managers of type 3 and 2, added in 32 bits |
| `Layout.SizeGrows` | src/master/config.c:616-624 | one more sync manager counts with its length in its own direction, and not at all in the other |
| `Layout.CalculateProcessData` | src/master/config.c:635-668 | in place, every slave gets the 32-bit sum of the sizes before it as offset, and the totals are the sums of all |
| `Layout.NeverOverflowsIff` | src/master/config.c:635-668 | with at most 16 sync managers per slave no sum overflows for n slaves, whatever they are, if and only if n is at most 4096 |
| `Layout.WindowsTile` | src/master/config.c:648-664 | every byte below the total belongs to exactly one slave's window, and no byte beyond does |
| `Layout.LayoutIsExact` | src/master/config.c:635-668 | up to 4096 slaves the 32-bit offsets are the exact ones and all windows end within the totals |
| `ProcessImage.MapSlaves` | src/master/process_data.c:242-274 | accepts exactly the non-empty lists whose windows all pass the 32-bit check |
| `ProcessImage.LayoutPasses` | src/master/process_data.c:254-273 | mappings from the calculated layout always pass for an image of the calculated totals |
| `ProcessImage.PassesIff` | src/master/process_data.c:258-270 | a window whose end does not wrap passes if and only if it is empty or lies in the image |
| `ProcessImage.PassingIsInsideIff` | src/master/process_data.c:258-270 | a window that passes lies inside the image if and only if its end does not wrap |
| `ProcessImage.WritesStayInsideIff` | src/master/process_data.c:242-274 | on mappings that pd_map_slave accepted, every accepted write stays inside the image if and only if no output window's end wraps |
| `ProcessImage.ReadsStayInsideIff` | src/master/process_data.c:242-274 | the same for accepted reads and input windows |
| `ProcessImage.Image.WriteSlaveOutput` | src/master/master.c:624-652 | refused as specified, else exactly the window's first bytes change, for any mappings and any write whose bytes lie in the image |
| `ProcessImage.Image.ReadSlaveInput` | src/master/master.c:654-683 | refused as specified, else the first bytes of the window, for any mappings and any read whose bytes lie in the image |
| `ProcessImage.WriteSucceedsIff` | src/master/master.c:624-652 | a write succeeds if and only if the slave exists and its window is as long, and is then in the image at the window's offset, with all else as it was |
| `ProcessImage.ReadSucceedsIff` | src/master/master.c:654-683 | a read succeeds if and only if the slave exists and its window is as long |
| `ProcessImage.WriteIsStored` | src/master/master.c:642-649 | among independent stores, a write that fits goes to the front of the slave's store and leaves the others alone |
| `ProcessImage.WritesAreIsolated` | src/master/master.c:624-652 | under any sequence of output writes the flat image equals one independent store per slave |
| `ProcessImage.ReadsAreIsolated` | src/master/master.c:654-683 | an input read returns the slave's own store whatever the others hold |
| `CycleStatistics.Statistics.Record` | src/master/process_data.c:343-362 | the statistics are those of the recorded cycles with this one added |
| `CycleStatistics.Statistics.Reset` | src/master/process_data.c:727-739 | the statistics are those of no cycle |
| `CycleStatistics.RunningMean` | src/master/process_data.c:342-362 | after n < 2^32 cycles min and max are attained extremes, the mean lies between them, n * avg <= sum <= n * avg + n(n-1)/2, and the next 64-bit sum fits |
| `CycleStatistics.LagIsAttained` | src/master/process_data.c:357-362 | on falling cycle times the bound is met with equality and the reported mean is the latest time |
| `Failover.HealthyIff` | src/master/process_data.c:627-693 | a port is healthy if and only if it exists, its link is up, fewer than 101 in 1000 frames failed and it was not idle for more than five seconds |
| `Failover.HealthyAboveTenPercent` | src/master/process_data.c:667-679 | a port with 1005 errors in 10000 frames is healthy |
| `Failover.Master.SwitchPort` | src/master/process_data.c:585-625 | an existing port with its link up becomes current and active, the old one inactive; else nothing changes |
| `Failover.Master.ExchangeRedundant` | examples/redundancy_demo.c:179-231 | counters and result for every pair of port outcomes; the backup is tried only if the active port fails |
| `Failover.Master.HandleFailover` | examples/redundancy_demo.c:124-173 | the ports change exactly at three errors with a healthy backup that can be switched to |
| `Failover.Master.RunCycle` | examples/redundancy_demo.c:359-383 | one turn of the cyclic loop: the exchange, then the failover decision |
| `Failover.StateIsAsWatched` | examples/redundancy_demo.c:124-231 | in every run the global state is what an observer of the ports counts: failures in a row, changes, cycles served by each port, which ports are marked active; and the port changes exactly after three failures in a row with a port that can take over |
| `Failover.ChangesAreToHealthyPorts` | examples/redundancy_demo.c:143-156 | in every run, the active port changes only to one that was present, linked, below 10.1 percent of errors and not idle for five seconds; it is marked active, and the old one is not |
| `Failover.ExchangeSucceedsIff` | examples/redundancy_demo.c:179-231 | the redundant exchange succeeds if and only if one of the ports answers as expected |
| `Failover.FailoverIsAmortised` | examples/redundancy_demo.c:124-231 | in every run: the inactive port has no errors, the active port is the image's, three failures paid for each failover, the success counters add up |
| `Failover.FailoverIsPrompt` | examples/redundancy_demo.c:124-173 | if both ports can always be switched to, no port is kept beyond its third failure in a row |

## Left out

- `src/hal`, `src/al/al_reg.c`, `src/al/al_mailbox.c`: sockets, clocks, stubbed registers and the mailbox buffer are outcomes here.
- `src/al/al_state.c` and the state requests of `master.c`: a five-state table, settled by enumeration.
- `src/dll/dll_rx.c`: its queued entries share one buffer, so nothing holds of their contents.
- `src/master/dc.c`, topology, slave names, error and status strings, the other examples: no property beyond reading the body.
- Null pointer and initialisation guards of the transfer, scan, configuration and process data functions: they return at once.
- `dl_state_set` called by a user directly, and the state change callback: runs consist of the API calls.
- The other fields that `dl_config_validate` checks are one flag; the cause recorded by `dl_set_error` is not kept.
- `coe_sdo_download_expedited` and `coe_sdo_upload_expedited` as separate calls: the download model contains the first for up to four bytes.
- `foe_receive_mailbox` skips a message of another type without restoring the buffer length, so the FoE model assumes a mailbox with FoE messages only.
- `foe_firmware_update` and progress callbacks: they forward or report only.
- FrameBuilder.Builder.AddDatagram: a length beyond 65523 that passes the check writes past the buffer and has no defined outcome, so it is excluded here; NeverPastBufferIff covers it.
- FrameParser.Parser.NextDatagram: the parser checks only the start offset, so the datagram has to lie in memory; beyond the declared size, but inside memory, it is read as the code reads it.
- Fcs.VerifyFcs: the copied four bytes are read as on a little-endian host.
- Fcs.PaddingBreaksFcs: stated for up to 32 zero bytes, which covers every padding a finished frame can have.
- Statistics counters of the data link and arrival numbers do not wrap in the model.
- SdoUpload.Upload: a script that makes a copy past the buffer has no defined outcome and is excluded; no capacity is. SdoUpload.StaysInsideIff says when such a script exists.
- FoeRead.Read: likewise, with FoeRead.StaysInsideIff.
- SdoFetch.AlwaysFetchesIff and SuccessMeansObject: refusals have specifier 4 in the top three bits, so that none reads as segment data, as include/ethercat/coe.h documents them; other command bytes are modelled for downloads. A refusal that the initiate wait takes for consent is covered by EveryObjectIff.
- ProcessImage.Image.WriteSlaveOutput and ReadSlaveInput: an accepted access outside the image has no defined outcome and is excluded.
- SdoDownload.Download: timeouts and polls are answers of the script, so nothing is said about elapsed time.
- CoE and FoE over the wire: messages are records of the fields the code reads, not their bytes.
- ProcessImage.Image.constructor: mappings are given by the caller, because `master.c` never fills them.
- CycleStatistics.Statistics.Record: the cycle time is the argument, already truncated to 32 bits.
- Failover.Master.ExchangeRedundant: how an exchange fails inside `pd_exchange_port` is one outcome, and its frame counters are part of the health view.
