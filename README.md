# Frame transport core

This project models a frame transport between a producer and a consumer and
proves properties of the model. Frames are point clouds or JSON documents, and
they travel over two independent paths.

**Single-packet path.** Each frame is one packet that a streaming pipeline
carries.
- The producer prefixes every packet with a 20-byte header: sequence (u64),
  send timestamp (8 bytes), name length (u32), then the UTF-8 name.
- The consumer parses this header and detects losses from gaps in the
  sequence numbers.
- For every accepted packet, the consumer answers with a fixed 36-byte
  big-endian feedback record: magic "RTFP", timestamp, sequence, received
  count and lost count.
- The producer matches each feedback record against the packets it is still
  waiting on.

**Chunked point-cloud path.** Each frame is split into chunks.
- The producer combines XYZ points and intensities into rows. It cuts them
  into chunks of 500 rows, and every chunk message carries its fragment
  info. Only the last chunk carries the end-of-frame marker.
- The consumer reassembles frames in a buffer keyed by frame number, guarded
  by two marks: the frame being collected and the last processed frame.
  - A frame is handed off when its marker arrives, when a newer frame
    starts, or when more than five frames are buffered.
  - A handed-off frame is assembled from its chunks in index order,
    delivered even when incomplete, and acknowledged.
- The producer turns each acknowledgment into a round-trip time.

## Modules

The modules follow the source files:

| Module | Source file |
|---|---|
| `GstSenderCore` | `gst_sender_core.py` |
| `GstReceiverCore` | `gst_receiver_core.py` |
| `RttTracker` | `rtt_tracker.py` |
| `MainReceive` | `main_receive.py` |
| `MainSend` | `main_send.py` |
| `LidarSender` | `zmq_send/LidarSender.py` |
| `LidarReceiver` | `zmq_receive/LidarReceiver.py` |

Shared modules:
- `WireBytes`: fixed-width integer codecs.
- `Utf8`: a strict UTF-8 codec.
- `LidarWire`: the chunk message records and the byte image of rows.

`LidarRoundTrip` composes the chunk sender and the reassembly engine.

**Pure functions and state.** Pure logic is written as functions. State that
the source mutates is written as classes with the source's fields:
- `GstSenderCore.Sender`
- `RttTracker.Tracker` and `RttTracker.FeedbackSender`
- `MainReceive.Detector`
- `MainSend.Stats`
- `LidarSender.Sender`
- `LidarReceiver.Receiver`

The methods of `LidarReceiver.Receiver` ensure that the new state equals a
specification function (`Finalize`, `Receive`, `Evict` and so on) applied
to the old state, and `MainReceive.Detector.OnPacketReceived` is tied to
`Step` in the same way; the lemmas about those functions carry the
properties. The methods of the other classes state their new state field by
field in their postconditions.

The reassembly buffer is a Python dict, and the model keeps the dict's
insertion order as a list next to the map. This matters because the
next-frame trigger walks the keys in that order.

## Model

| member | source | states |
|---|---|---|
| `WireBytes.DecodeEncodeLE` | gst_sender_core.py:129-131 | decoding the little-endian image of n in w bytes gives n back, when n fits in w bytes |
| `WireBytes.EncodeDecodeLE` | gst_receiver_core.py:101-103 | re-encoding decoded little-endian bytes reproduces them |
| `WireBytes.DecodeLEInjective` | gst_receiver_core.py:101-103 | two byte strings of one width that decode to the same number are equal |
| `WireBytes.DecodeEncodeBE` | rtt_tracker.py:169-176 | decoding the big-endian image of n in w bytes gives n back, when n fits in w bytes |
| `WireBytes.EncodeDecodeBE` | rtt_tracker.py:89-91 | re-encoding decoded big-endian bytes reproduces them |
| `Utf8.DecodeEncode` | gst_receiver_core.py:104 | strict decoding of the UTF-8 encoding of any string gives the string back |
| `Utf8.EncodeDecode` | gst_receiver_core.py:104 | bytes the strict decoder accepts re-encode to exactly themselves |
| `Utf8.EncodeLengthAscii` | gst_sender_core.py:125-126 | the encoded name length equals the character count iff every character is ASCII |
| `GstSenderCore.PackMetadata` | gst_sender_core.py:118-136 | fails exactly when the sequence or the name length is out of range; otherwise the packet is 20 + name + data bytes, and its three header fields decode to the sequence, the timestamp and the name length, followed by the UTF-8 name and the data |
| `GstSenderCore.Sender.constructor` | gst_sender_core.py:48 | the frame count starts at 0 |
| `GstSenderCore.Sender.SendPacket` | gst_sender_core.py:138-170 | a packet counts as sent iff packing succeeds and the pipeline accepts the push; a packing error propagates; only a sent packet advances the frame count, and the callback gets the count before the increment as the sequence, together with the data and packet sizes |
| `GstReceiverCore.UnpackMetadata` | gst_receiver_core.py:96-107 | succeeds exactly when there are at least 20 bytes and the name bytes, clamped to the end of the packet, are valid UTF-8; sequence and timestamp are the little-endian values of bytes 0-8 and 8-16, the name is the decoded clamped slice and the data is everything after it; a name length that runs past the end leaves the data empty |
| `GstReceiverCore.UnpackPack` | gst_receiver_core.py:96-107 | unpacking a packed header gives back sequence, timestamp, name and data |
| `GstReceiverCore.PackUnpack` | gst_receiver_core.py:96-107 | a packet whose declared name length fits re-packs to itself |
| `GstReceiverCore.OnNewSample` | gst_receiver_core.py:109-145 | returns ERROR iff no sample; delivers iff the buffer maps and unpacks; a packet shorter than the header is never delivered; a delivery carries the unpacked fields and the full packet length |
| `GstReceiverCore.DeliverSentPacket` | gst_receiver_core.py:109-133 | a packet built by the sender is delivered with the sender's sequence, timestamp, name, data and length |
| `RttTracker.EncodeFeedback` | rtt_tracker.py:169-176 | fails exactly when a count is outside the u64 range; otherwise the record is 36 bytes: big-endian magic (4 bytes), timestamp, sequence, received and lost (8 bytes each), in that order |
| `RttTracker.DecodeFeedback` | rtt_tracker.py:89-91 | succeeds exactly on 36 bytes or more; magic, timestamp, sequence, received and lost are the big-endian values of bytes 0-4, 4-12, 12-20, 20-28 and 28-36 |
| `RttTracker.TrailingBytesIgnored` | rtt_tracker.py:89-91 | bytes after the first 36 do not change what is decoded |
| `RttTracker.DecodeEncodeFeedback` | rtt_tracker.py:13-16 | decoding an encoded record, with any trailing bytes, gives back the magic and all four fields |
| `RttTracker.EncodeDecodeFeedback` | rtt_tracker.py:13-16 | conversely, the first 36 bytes of a datagram with the right magic are exactly the record built from its decoded fields |
| `RttTracker.Tracker.constructor` | rtt_tracker.py:38-40 | the receiver counters start at 0 |
| `RttTracker.Tracker.ProcessFeedback` | rtt_tracker.py:86-108 | a record with the right magic overwrites all three counters and is reported; anything else changes nothing and reports nothing |
| `RttTracker.Tracker.OnDatagram` | rtt_tracker.py:73-85 | a datagram shorter than a record is dropped without change; a longer one is processed as `ProcessFeedback` states: the right magic sets the three counters and reports the decoded fields, a wrong magic changes and reports nothing |
| `RttTracker.FeedbackSender.constructor` | rtt_tracker.py:140-149 | starts with no datagram sent |
| `RttTracker.FeedbackSender.SendFeedbackNow` | rtt_tracker.py:159-181 | sends exactly one encoded record when there is a socket and packing succeeds; otherwise sends nothing |
| `MainReceive.Step` | main_receive.py:36-50 | a sequence at or below the last one changes nothing; otherwise it becomes the last one and is counted once; "received + lost = last + 1" is preserved |
| `MainReceive.RunSummary` | main_receive.py:25-50 | over any run from the start: accepted sequences strictly increase, the last one is the last sequence, the received count is the number accepted, and received + lost = last + 1 |
| `MainReceive.Detector.constructor` | main_receive.py:25-28 | the counters start at last = -1 and zero counts |
| `MainReceive.Detector.OnPacketReceived` | main_receive.py:31-72 | a duplicate or out-of-order packet is dropped without feedback; an accepted one updates the counters as `Step` does, adds its gap to the losses, logs one row and yields exactly one feedback with the cumulative counts |
| `MainReceive.FeedbackKeepsBalance` | main_receive.py:66-72 | the feedback for an accepted packet, once decoded by the producer, has the right magic and reports received + lost = sequence + 1 |
| `MainSend.TakePending` | main_send.py:70 | pop with default: the entry if present (else zeros), and the table without that key and with every other key intact |
| `MainSend.TakeTwice` | main_send.py:70 | a second pop of the same sequence finds nothing |
| `MainSend.Stats.constructor` | main_send.py:26-33 | counters zero, empty table and log |
| `MainSend.Stats.OnPacketSent` | main_send.py:36-53 | counts the packet and its bytes and records its info under its sequence |
| `MainSend.Stats.OnFeedback` | main_send.py:59-80 | the reported loss count replaces the local one; exactly that sequence's entry is removed; one row is logged, with zeros if nothing was pending |
| `LidarWire.RowsBytesAppend` | zmq_send/LidarSender.py:95 | serialising two consecutive blocks of rows gives the concatenation of their serialisations |
| `LidarWire.RowsBytesLength` | zmq_send/LidarSender.py:95 | rows of width w serialise to 4w bytes each |
| `LidarWire.RowsAligned` | zmq_receive/LidarReceiver.py:87-90 | the bytes of XYZ or XYZI rows always split into whole rows |
| `LidarSender.TotalChunks` | zmq_send/LidarSender.py:84-85 | the chunk count is the least k with n <= 500k: zero iff there are no points |
| `LidarSender.Slice` | zmq_send/LidarSender.py:89-92 | chunk i holds 1 to 500 rows, exactly 500 unless it is the last, and they are rows 500i onward of the array |
| `LidarSender.SlicesUpToPrefix` | zmq_send/LidarSender.py:89-92 | the first k chunks together are exactly the first min(500k, n) rows |
| `LidarSender.SlicesCover` | zmq_send/LidarSender.py:84-92 | all chunks together are the whole array, each row once and in order |
| `LidarSender.Combine` | zmq_send/LidarSender.py:72-82 | width 4 iff intensities are present with matching length; each row is then the point plus its intensity; otherwise the points alone with width 3 |
| `LidarSender.ChunkMessage` | zmq_send/LidarSender.py:95-109 | chunk i's message carries the frame, time, count, index, type, rows and width of the chunk, its serialised rows, and the marker iff it is the last chunk |
| `LidarSender.PcdMessages` | zmq_send/LidarSender.py:84-109 | one message per chunk |
| `LidarSender.JsonMessage` | zmq_send/LidarSender.py:54-61 | the JSON message has no fragment info, carries the document, and is marked |
| `LidarSender.FrameMessages` | zmq_send/LidarSender.py:49-122 | a JSON frame is one message, an unknown key none, and a point cloud one per chunk; all carry the frame number and send time |
| `LidarSender.PcdFrameShape` | zmq_send/LidarSender.py:84-109 | a point-cloud frame has as many messages as chunks; each carries the frame, the count, its own index, the type and width; only the last is marked |
| `LidarSender.PcdPayloadsCover` | zmq_send/LidarSender.py:89-107 | the payloads of a frame's chunks, concatenated, are the byte image of the whole combined array |
| `LidarSender.PayloadsTake` | zmq_send/LidarSender.py:107 | the payloads of j messages are those of the first j - 1, then the last one's |
| `LidarSender.PayloadsUpTo` | zmq_send/LidarSender.py:89-107 | the payloads of the first k chunks are the byte image of the first k slices |
| `LidarSender.SentPrefixExtend` | zmq_send/LidarSender.py:116-122 | what leaves the socket among the first k messages does not depend on later ones |
| `LidarSender.DeliveredSnoc` | zmq_send/LidarSender.py:116-122 | one more send adds its message unless that send fails |
| `LidarSender.DeliveredAll` | zmq_send/LidarSender.py:116-122 | with no failed send, every message leaves the socket |
| `LidarSender.SentPrefixAll` | zmq_send/LidarSender.py:116-122 | with no failed send, the first k messages all leave the socket |
| `LidarSender.ChunkLoop` | zmq_send/LidarSender.py:89-122 | the loop sends exactly the chunk messages whose send does not fail, in chunk order |
| `LidarSender.Sender.constructor` | zmq_send/LidarSender.py:26-28 | frame 0, nothing pending, no RTT, nothing sent |
| `LidarSender.Sender.SendFrame` | zmq_send/LidarSender.py:49-124 | the send time is recorded under the frame number first; the frame's messages leave the socket except failed sends; a failed chunk send is skipped, and a failed JSON send propagates and leaves the frame number as is; otherwise the frame number advances by one |
| `LidarSender.Sender.SendChunks` | zmq_send/LidarSender.py:89-122 | appends the point-cloud messages whose send does not fail |
| `LidarSender.Sender.OnAck` | zmq_send/LidarSender.py:39-47 | an ack for a pending frame removes it and records one RTT; anything else changes nothing |
| `LidarSender.DuplicateAck` | zmq_send/LidarSender.py:43-46 | an ack delivered twice yields one RTT and removes the frame |
| `LidarSender.SendTwo` | zmq_send/LidarSender.py:49-124 | two frames in a row get consecutive numbers, both pending with their send times |
| `LidarReceiver.Reshape` | zmq_receive/LidarReceiver.py:87-104 | the reshape succeeds iff the width is positive and the bytes split into rows of 4 × width bytes |
| `LidarReceiver.ProcessFrameData` | zmq_receive/LidarReceiver.py:54-104 | JSON is passed through; a point cloud reports received and total counts, type, completeness iff received >= total, no data iff no chunk, else the chunks joined in index order, reshaped into rows exactly when the frame has a positive row width and the joined length is a whole number of rows of 4-byte floats (a failed reshape is reported, not raised) |
| `LidarReceiver.Finalize` | zmq_receive/LidarReceiver.py:106-113 | an unbuffered frame is a no-op; otherwise it is removed, its `ProcessFrameData` is handed off, it is acknowledged once, and the processed mark rises to the max; other frames are untouched |
| `LidarReceiver.HandsOffTrans` | zmq_receive/LidarReceiver.py:106-113 | two hand-offs in a row are one hand-off: the frames removed by both are acknowledged once each, and their data is handed over in acknowledgment order |
| `LidarReceiver.FinalizeOlder` | zmq_receive/LidarReceiver.py:153-155 | every listed frame below the bound is handed off, and no other frame (the acknowledgments added are exactly the frames that left the buffer, each once, and the application is handed each one's `ProcessFrameData`, in acknowledgment order) |
| `LidarReceiver.NextFrame` | zmq_receive/LidarReceiver.py:150-156 | the current frame and all older frames are handed off; the new frame becomes current; newer frames stay (the acknowledgments added are exactly the frames that left the buffer, each once, and the application is handed each one's `ProcessFrameData`, in acknowledgment order) |
| `LidarReceiver.NewEntry` | zmq_receive/LidarReceiver.py:159-169 | the first message creates a JSON entry iff it has no fragment info; a point-cloud entry records count, type and width, with no chunk yet |
| `LidarReceiver.StoreChunk` | zmq_receive/LidarReceiver.py:170-174 | a chunk is stored under its index unless the index is taken (first write wins); the metadata never changes; a JSON entry takes no chunk |
| `LidarReceiver.Insert` | zmq_receive/LidarReceiver.py:159-174 | only the frame's own entry changes, created if needed and then given the chunk; the marks and logs are untouched |
| `LidarReceiver.MinOf` | zmq_receive/LidarReceiver.py:184 | the smallest buffered frame number |
| `LidarReceiver.Evict` | zmq_receive/LidarReceiver.py:183-186 | no-op when at most five frames are buffered; an overfull buffer ends with exactly five; every evicted frame is older than every kept one (the acknowledgments added are exactly the frames that left the buffer, each once, and the application is handed each one's `ProcessFrameData`, in acknowledgment order) |
| `LidarReceiver.Receive` | zmq_receive/LidarReceiver.py:137-186 | undecodable messages, messages without a frame number and stale messages change nothing; otherwise the current mark becomes the max; marks and logs only grow; the buffer ends at most five frames |
| `LidarReceiver.Accept` | zmq_receive/LidarReceiver.py:150-180 | the current mark becomes the max of itself and the frame; marks and logs only grow |
| `LidarReceiver.Flush` | zmq_receive/LidarReceiver.py:189-194 | the current frame, if buffered, is handed off; no other frame (the acknowledgments added are exactly the frames that left the buffer, each once, and the application is handed each one's `ProcessFrameData`, in acknowledgment order) |
| `LidarReceiver.InitialInv` | zmq_receive/LidarReceiver.py:40-44 | the initial state satisfies the receive-loop invariant |
| `LidarReceiver.FinalizeOlderIdle` | zmq_receive/LidarReceiver.py:153-155 | over an empty buffer the older-frames loop does nothing |
| `LidarReceiver.FinalizeCurrentInv` | zmq_receive/LidarReceiver.py:106-113 | handing off the current frame keeps the invariant, empties the buffer, and makes it the processed mark and last ack |
| `LidarReceiver.NextFrameInv` | zmq_receive/LidarReceiver.py:150-156 | the next-frame trigger keeps the invariant, empties the buffer, and acks the previous frame iff it was buffered |
| `LidarReceiver.RetargetInv` | zmq_receive/LidarReceiver.py:156 | moving the current mark forward over an empty buffer keeps the invariant |
| `LidarReceiver.InsertInv` | zmq_receive/LidarReceiver.py:159-174 | storing into the current frame keeps the invariant and buffers it |
| `LidarReceiver.AcceptedStep` | zmq_receive/LidarReceiver.py:147-180 | a fresh message yields the next-frame step then the store, then the hand-off iff marked, each keeping the invariant |
| `LidarReceiver.ReceiveAccepted` | zmq_receive/LidarReceiver.py:183-186 | under the invariant the overflow guard never fires |
| `LidarReceiver.ReceiveInv` | zmq_receive/LidarReceiver.py:137-186 | every message keeps the invariant: at most the current frame buffered, above the processed mark; acks strictly increase, end at the processed mark, and match the hand-offs one to one |
| `LidarReceiver.ReceiveAllInv` | zmq_receive/LidarReceiver.py:121-186 | after any message sequence from the start, the invariant holds and at most one frame is buffered |
| `LidarReceiver.BetweenMarksIgnored` | zmq_receive/LidarReceiver.py:147-159 | a message of a frame between the processed mark and the current frame changes nothing |
| `LidarReceiver.MarkerHandsOff` | zmq_receive/LidarReceiver.py:176-180 | a marked message of a fresh frame empties the buffer, makes it the processed mark, and acks the previous frame (if buffered), then it |
| `LidarReceiver.MarkerFinalizes` | zmq_receive/LidarReceiver.py:176-180 | storing and then finalizing the marked frame gives that state |
| `LidarReceiver.DuplicateChunkIgnored` | zmq_receive/LidarReceiver.py:170-174 | an unmarked repeat of a stored chunk changes nothing |
| `LidarReceiver.LateChunkAfterMarker` | zmq_receive/LidarReceiver.py:147 | any message for a frame already handed off by its marker changes nothing |
| `LidarReceiver.FinalizeIdempotent` | zmq_receive/LidarReceiver.py:106-113 | finalizing twice is finalizing once |
| `LidarReceiver.MissingChunkSkipped` | zmq_receive/LidarReceiver.py:71-90 | a missing chunk is skipped without fill: the others are joined in index order whatever their arrival order, flagged incomplete |
| `LidarReceiver.FlushInv` | zmq_receive/LidarReceiver.py:189-194 | shutdown keeps the invariant and leaves nothing buffered |
| `LidarReceiver.Receiver.constructor` | zmq_receive/LidarReceiver.py:40-44 | empty buffer, both marks at -1 |
| `LidarReceiver.Receiver.ProcessAndClearFrame` | zmq_receive/LidarReceiver.py:106-113 | the new state is `Finalize` of the old |
| `LidarReceiver.Receiver.OnMessage` | zmq_receive/LidarReceiver.py:137-186 | the new state is `Receive` of the old |
| `LidarReceiver.Receiver.NextFrameTrigger` | zmq_receive/LidarReceiver.py:150-156 | the new state is `NextFrame` of the old |
| `LidarReceiver.Receiver.FinalizeOlderLoop` | zmq_receive/LidarReceiver.py:153-155 | the new state is `FinalizeOlder` of the old over the key snapshot |
| `LidarReceiver.Receiver.Store` | zmq_receive/LidarReceiver.py:159-174 | the new state is `Insert` of the old |
| `LidarReceiver.Receiver.TrimBuffer` | zmq_receive/LidarReceiver.py:183-186 | the new state is `Evict` of the old |
| `LidarReceiver.Receiver.Shutdown` | zmq_receive/LidarReceiver.py:189-194 | the new state is `Flush` of the old |
| `LidarRoundTrip.SenderFrameChunks` | zmq_send/LidarSender.py:96-109 | the producer's chunk messages have the shape the receiver expects |
| `LidarRoundTrip.HoldsFirstJoin` | zmq_receive/LidarReceiver.py:78-80 | joining chunks 0..j-1 in index order gives the first j payloads in order |
| `LidarRoundTrip.StoreNext` | zmq_receive/LidarReceiver.py:159-174 | storing chunk j into a frame holding chunks 0..j-1 makes it hold 0..j |
| `LidarRoundTrip.CollectPrefix` | zmq_receive/LidarReceiver.py:150-174 | after the first j < n chunks of a new frame arrive in order, that frame is current and holds exactly those chunks |
| `LidarRoundTrip.FinishFrame` | zmq_receive/LidarReceiver.py:106-113 | finalizing a frame holding all its chunks hands off one complete frame of the payloads in order |
| `LidarRoundTrip.DeliverFrame` | zmq_receive/LidarReceiver.py:147-180 | a whole frame delivered in order is handed off complete with its chunks joined, acknowledged, becomes the processed mark, and nothing stays buffered |
| `LidarRoundTrip.PointCloudRoundTrip` | zmq_receive/LidarReceiver.py:78-90 | a point cloud sent with no loss and received in order reaches the application complete, reshaped into rows, holding exactly the bytes of the producer's array, and is acknowledged |

## Left out

- Sockets, ZeroMQ, GStreamer pipelines, threads and the polling loops are not modelled. Datagrams are function arguments, and what a socket would send is appended to an `outbox` or `acks` list.
- Floating point is not modelled as such. On the single-packet path the float64 timestamp is kept as its 64-bit pattern, and the RTT in milliseconds and the loss rate are left out of the logs. On the chunked path and in the producer's statistics, times are exact `real`s: `LidarSender.Sender.OnAck` records `(now - sendTime) * 1000.0` without float64 rounding.
- The wall clock and the streaming pipeline's answer to a push are parameters.
- numpy is not modelled:
  - Elements are 4-byte words (float32) and the dtype is an opaque string.
  - The dtype promotion of `hstack` is not modelled.
  - `frombuffer` is reduced to the question of whether the bytes split into whole rows.
- The msgpack codec is not modelled. Messages are records, and an undecodable datagram is its own case.
- `LidarReceiver.ProcessFrameData`: a chunk message without `pcd_chunk_bytes` is stored as empty bytes, so its frame is assembled from the other chunks. In the source the stored `None` makes `b"".join` raise, and the frame ends in the failure print with no array (zmq_receive/LidarReceiver.py:88, 103-104). The producer always sends the field.
- `KeyError`s on malformed `frag_info` are not modelled: the fragment info is always complete when present.
- `io_feeder.py`, `stats_logger.py`, `config.py`, `main_udp.py` and the `main()` functions are not part of this model. The CSV logs are lists of rows.
- `GstSenderCore.PackMetadata` and `GstSenderCore.Sender.SendPacket`: a name is a sequence of Unicode scalar values, so a name holding a lone surrogate cannot be expressed. In the source, encoding such a name (possible from `os.listdir`) raises `UnicodeEncodeError`. "Fails exactly when a field is out of range" is therefore claimed only for names without lone surrogates.
- Byte order: the single-packet header uses `struct`'s native byte order, which is modelled as little-endian.
- `LidarSender.Sender.SendFrame`: the send time is recorded before any message is sent, as the code does, not after the last chunk. A failed JSON send propagates out of `send_frame`, so the frame number is not advanced.
- `LidarSender.Sender.SendChunks`: the chunk loop collects what it sends and appends it to `outbox` once. Interleaving with other senders is not modelled.
- `LidarReceiver.ProcessFrameData`: a frame counts as complete when at least as many chunks arrived as announced, as in the code. Older buffered frames are handed off in dict insertion order, not frame-number order.
- `LidarReceiver.Receive`: frame numbers are unbounded integers, so wrap-around is out of scope.
- `LidarReceiver.Receive` and `LidarSender.Sender.OnAck`: both are total. A frame number is an `Option<int>` (`frameId`, `ackFrameId`), so a value of another type cannot be expressed. In the source, a decoded `frame_id` that is not a number raises `TypeError` at the comparison on zmq_receive/LidarReceiver.py:147. That is outside the inner `try`, and the outer handler catches only `KeyboardInterrupt` (line 189), so the receive loop ends and the sockets close. Likewise, an unhashable `ack_frame_id` raises at the dictionary lookup on zmq_send/LidarSender.py:43 and ends the ack thread.
- Exceptions raised inside application callbacks, and the printing, are not modelled.
