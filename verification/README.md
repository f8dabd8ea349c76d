# Split UDP datagrams: a Dafny model

This project models the split-datagram layer of `libcmdtlm`
(`libs/libcmdtlm/packet_accessor_2.cpp`). A sender (`UDPSplitPacketWriter`)
gathers a message in a byte buffer. It sends the message as one FULL
datagram, or as a START, MIDDLEs and an END when it is longer than the MTU.
Every datagram begins with a 4-byte header:

- a 16-bit message ID;
- a 16-bit word that holds the fragment type in bits 15-14 and a count in
  bits 13-0.

A receiver (`UDPSplitPacketReader`) keeps a bounded list of received
fragments (`SplitPacket`s). It links each fragment to the records holding
the adjacent counts of the same ID, and delivers a message once a START and
an END are known to be joined. `read` then copies the message out along the
`next` links.

## Modules

- `wrappers.dfy` (`Wrappers`) holds `Option`.
- `header.dfy` (`Header`) is the header codec: the `SplitPacket` getters, and
  the way the sender lays out a header.
- `buffers.dfy` (`Buffers`) holds `BufferReader` and `BufferWriter`: the
  fixed-size buffers with a cursor that sit under every reader and writer.
- `reassembly.dfy` (`Reassembly`) holds the receiver, as the class
  `SplitReader`.
  - The `std::list` of records is an arena, `records: map<Handle, Record>`,
    plus `order: seq<Handle>`, the list order with the newest record first.
  - An iterator is a handle. A handle whose record was erased is dangling.
  - Where the source would dereference a dangling or past-the-end iterator,
    the model stops with `Undefined` (or `ReadUndefined`) before the access.
  - Where the source would loop forever around a cycle of links, the model
    stops with `Diverges` (or `ReadDiverges`).
  - The socket is an input queue of datagrams. When the queue runs out, the
    model stops with `Blocked`, where the source would wait in `recv`.
    A call that stops inside the copy loop is resumed by the next call, on
    the same record.
- `fragmenter.dfy` (`Fragmenter`) holds the sender, as the class
  `SplitWriter`. The socket is a log of the datagrams sent.
  - `SendSpec` states what `write_packet` does as written.
  - `Fragments` and `NextCounter` state the evidently intended split and
    counter (see Findings).

Bytes are integers in `0..255`, and 16-bit words are integers in
`0..65535`. `w & 0xC000` and `w & 0x3FFF` are written as division and
remainder by `0x4000`. Both ends copy words in host byte order; the model
fixes a little-endian host.

## Model

| member | source | states |
|---|---|---|
| Header.KindOf | libs/libcmdtlm/packet_accessor_2.cpp:207-221 | exactly one of `isFull`/`isStart`/`isEnd`/`isMiddle` holds of any header, and the kind's two bits are bits 15-14 of word 1 |
| Header.ID | libs/libcmdtlm/packet_accessor_2.cpp:235-237 | the ID is a 16-bit value (word 0 of the header) |
| Header.Count | libs/libcmdtlm/packet_accessor_2.cpp:223-225 | the count is below 0x4000 (the low 14 bits of word 1) |
| Header.NextCount | libs/libcmdtlm/packet_accessor_2.cpp:227-229 | the next count is the count plus one, and wraps from 0x3FFF to 0 |
| Header.PreviousCount | libs/libcmdtlm/packet_accessor_2.cpp:231-233 | the previous count is the count minus one, and wraps from 0 to 0x3FFF (the mask of -1 in two's complement) |
| Header.AdjacentCounts | libs/libcmdtlm/packet_accessor_2.cpp:227-233 | `b` follows `a` exactly when `a` precedes `b`, across the wrap too |
| Header.WordBytes | libs/libcmdtlm/packet_accessor_2.cpp:502-502 | the two bytes copied for a 16-bit word read back as that word |
| Header.OrKind | libs/libcmdtlm/packet_accessor_2.cpp:506-506 | OR-ing the type bits into the counter keeps its low 14 bits, and for a counter below 0x4000 adds the type bits on top |
| Header.Stamp | libs/libcmdtlm/packet_accessor_2.cpp:502-507 | a stamped datagram reads back the ID and type-and-count word it was stamped with, followed by the payload |
| Header.StampRoundTrip | libs/libcmdtlm/packet_accessor_2.cpp:207-237 | the getters decode the ID, kind, count and payload that the sender stamped, for any count below 0x4000 |
| Buffers.ReadSpan | libs/libcmdtlm/packet_accessor_2.cpp:102-109 | a read of `length` bytes at the cursor succeeds exactly when it stays within `read_end`, and gives those bytes |
| Buffers.ReadSpanSplit | libs/libcmdtlm/packet_accessor_2.cpp:102-109 | two reads in a row give what one read of the combined length gives, and fail together |
| Buffers.BufferReader.constructor | libs/libcmdtlm/packet_accessor_2.cpp:98-100 | a new reader has nothing to read |
| Buffers.BufferReader.Receive | libs/libcmdtlm/packet_accessor_2.cpp:325-327 | `recv` leaves the datagram, cut to the buffer size, as the readable bytes, and the cursor steps over the 4-byte header |
| Buffers.BufferReader.Read | libs/libcmdtlm/packet_accessor_2.cpp:102-109 | the out-of-range error exactly when the cursor plus `length` passes `read_end`, with the cursor unchanged; a negative `length` that passes that check is a copy of negative size (undefined behaviour); otherwise exactly the `length` bytes at the cursor, with the cursor moved past them |
| Buffers.BufferReader.Remaining | libs/libcmdtlm/packet_accessor_2.cpp:111-113 | `remaining()` is `read_end - buf_current`, and a read succeeds exactly when its length is at most that |
| Buffers.BufferWriter.constructor | libs/libcmdtlm/packet_accessor_2.cpp:116-116 | a new writer is empty, with the cursor at `buf_start` |
| Buffers.BufferWriter.Write | libs/libcmdtlm/packet_accessor_2.cpp:118-125 | the bytes are copied at the cursor and the cursor moves past them, or (past `buf_end`) the error leaves buffer and cursor unchanged |
| Buffers.Received | libs/libcmdtlm/packet_accessor_2.cpp:325-326 | `recv` into a record keeps the datagram, cut to the record's `mtu` bytes |
| Reassembly.Without | libs/libcmdtlm/packet_accessor_2.cpp:298-298 | `erase` removes exactly that record from the list, and keeps the front unless it was the front |
| Reassembly.WithoutKeepsOrder | libs/libcmdtlm/packet_accessor_2.cpp:298-298 | erasing a record from the list closes the gap: the records before and after it keep their order |
| Reassembly.UnreadAdvance | libs/libcmdtlm/packet_accessor_2.cpp:107-108 | moving a record's cursor past `k` bytes takes exactly those bytes off its unread bytes |
| Reassembly.StreamConsume | libs/libcmdtlm/packet_accessor_2.cpp:268-272 | reading `k` bytes of a record takes them off the front of the bytes still to be read along its chain |
| Reassembly.StreamSkip | libs/libcmdtlm/packet_accessor_2.cpp:260-262 | stepping from a record read to its end onto its next loses no bytes |
| Reassembly.StreamLast | libs/libcmdtlm/packet_accessor_2.cpp:264-266 | from a record without a next, only its own remaining bytes can be read |
| Reassembly.StreamFromReadOut | libs/libcmdtlm/packet_accessor_2.cpp:258-263 | records already read out behind `currentPacket` add nothing to the bytes still to be read from it |
| Reassembly.EvictionErasesChain | libs/libcmdtlm/packet_accessor_2.cpp:292-314 | a successful eviction erases exactly the records on the forward and backward walks and the anchor, and the walks run from the anchor to the two ends of its chain |
| Reassembly.SplicedReplaced | libs/libcmdtlm/packet_accessor_2.cpp:339-352 | when the copy's neighbours are other records, the copy step leaves `cur` standing where the copy stood: its links, start and END flag, with the neighbours pointing at `cur` |
| Reassembly.NextWrites | libs/libcmdtlm/packet_accessor_2.cpp:339-343 | the first two writes of the copy step change no record's bytes or cursor |
| Reassembly.PreviousWrites | libs/libcmdtlm/packet_accessor_2.cpp:344-348 | the next two writes of the copy step change no record's bytes or cursor |
| Reassembly.Relinked | libs/libcmdtlm/packet_accessor_2.cpp:339-351 | the four writes and the take-over of start and END flag change no record's bytes or cursor |
| Reassembly.Spliced | libs/libcmdtlm/packet_accessor_2.cpp:339-352 | after the copy step the copy is gone, every other record is still there, and no bytes or cursors have changed |
| Reassembly.SpliceDefinedOk | libs/libcmdtlm/packet_accessor_2.cpp:339-348 | the copy step is defined whenever the copy's neighbours are live |
| Reassembly.SpliceKeepsUnique | libs/libcmdtlm/packet_accessor_2.cpp:329-356 | after the copy step no two records share an (ID, count) |
| Reassembly.SplitReader.constructor | libs/libcmdtlm/packet_accessor_2.cpp:242-247 | a new reader has an empty list and no message delivered |
| Reassembly.SplitReader.Arrive | libs/libcmdtlm/packet_accessor_2.cpp:249-254 | a datagram that reaches the socket waits at the end of the input |
| Reassembly.SplitReader.Erase | libs/libcmdtlm/packet_accessor_2.cpp:298-298 | `erase` removes one record from the pool and the list, and keeps the list's shape |
| Reassembly.SplitReader.FindOther | libs/libcmdtlm/packet_accessor_2.cpp:331-335 | the search from the second list element finds a record other than the newest with that (ID, count), or shows there is none |
| Reassembly.SplitReader.EraseForward | libs/libcmdtlm/packet_accessor_2.cpp:292-302 | it erases exactly the records after the anchor along `next` links, up to one without a next; it fails where a link dangles |
| Reassembly.SplitReader.EraseForwardStep | libs/libcmdtlm/packet_accessor_2.cpp:295-300 | one turn of the forward eviction loop erases the record it is at and moves to its next, or ends the walk where the next is missing, dangling or already erased |
| Reassembly.SplitReader.EraseForwardFrom | libs/libcmdtlm/packet_accessor_2.cpp:294-301 | the forward eviction loop from the anchor's next erases exactly the records of its walk |
| Reassembly.SplitReader.EraseBackward | libs/libcmdtlm/packet_accessor_2.cpp:303-313 | it erases exactly the records before the anchor along `previous` links, up to one without a previous |
| Reassembly.SplitReader.EraseBackwardStep | libs/libcmdtlm/packet_accessor_2.cpp:306-311 | one turn of the backward eviction loop erases the record it is at and moves to its previous, or ends the walk |
| Reassembly.SplitReader.EraseBackwardFrom | libs/libcmdtlm/packet_accessor_2.cpp:305-312 | the backward eviction loop from the anchor's previous erases exactly the records of its walk |
| Reassembly.SplitReader.Evict | libs/libcmdtlm/packet_accessor_2.cpp:284-315 | the anchor is the delivered record, else the list's back (undefined on an empty list); the chain through it is erased as the two walks say, the list keeps the order of what is left, the delivered flag is cleared and nothing else changes; it fails exactly where an erased or dangling iterator would be dereferenced |
| Reassembly.SplitReader.EvictFrom | libs/libcmdtlm/packet_accessor_2.cpp:292-314 | the forward walk, the backward walk and the erase of the anchor, defined exactly where no erased or dangling iterator is dereferenced; the list keeps the order of what is left |
| Reassembly.SplitReader.Take | libs/libcmdtlm/packet_accessor_2.cpp:325-327 | `recv` into `cur` replaces its bytes with the next datagram, cut to `mtu`, moves its cursor 4 bytes further on and consumes that datagram; nothing else changes |
| Reassembly.SplitReader.Create | libs/libcmdtlm/packet_accessor_2.cpp:318-327 | a new record under a fresh handle goes to the front of the list, without links, start or END flag, holding the next datagram with its cursor past the header; nothing else changes |
| Reassembly.SplitReader.SpliceNext | libs/libcmdtlm/packet_accessor_2.cpp:339-343 | if the copy has a next, `cur` links forward to it and it links back to `cur`; the writes are defined exactly when that next is live |
| Reassembly.SplitReader.SplicePrevious | libs/libcmdtlm/packet_accessor_2.cpp:344-348 | if the copy has a previous, `cur` links back to it and it links forward to `cur`; the writes are defined exactly when that previous is live |
| Reassembly.SplitReader.Relink | libs/libcmdtlm/packet_accessor_2.cpp:339-351 | the copy step's writes are defined exactly when the neighbours they go through are live (`SpliceOk`), and then give `Relinked`; bytes and cursors never change |
| Reassembly.SplitReader.Splice | libs/libcmdtlm/packet_accessor_2.cpp:337-352 | the copy step is defined exactly when `SpliceOk` holds, always when the copy's neighbours are live; then the records are `Spliced`, the copy leaves the list, and the list keeps its front |
| Reassembly.SplitReader.Replace | libs/libcmdtlm/packet_accessor_2.cpp:337-352 | the copy step is defined exactly when `SpliceOk` holds; then only the records and the list change, as `Spliced` and the erase say, and no two records share an (ID, count) |
| Reassembly.SplitReader.CopyOver | libs/libcmdtlm/packet_accessor_2.cpp:337-352 | the copy step followed by the next `recv`: undefined where the step is, otherwise the copy is replaced by `cur` and `cur` receives again or the call blocks |
| Reassembly.SplitReader.Refill | libs/libcmdtlm/packet_accessor_2.cpp:323-327 | the copy loop's next `recv` into `cur`, or, without input, `Blocked` with the call resumable on `cur`; nothing else changes |
| Reassembly.SplitReader.CopyStep | libs/libcmdtlm/packet_accessor_2.cpp:329-356 | one round of the copy loop: if no other record has `cur`'s (ID, count) the loop ends and nothing changes; otherwise `cur` replaces such a record and receives again |
| Reassembly.SplitReader.Deduplicate | libs/libcmdtlm/packet_accessor_2.cpp:322-356 | the states at the top of the rounds form a chain in which every round but the last goes on, and the last ends the loop: unique keys, `Blocked` or undefined behaviour |
| Reassembly.SplitReader.LinkNext | libs/libcmdtlm/packet_accessor_2.cpp:365-387 | an END knows its END; a START or MIDDLE is linked both ways to the record with the next (ID, count), taking its END flag, or, when no record has that key, nothing changes |
| Reassembly.SplitReader.AttachPrevious | libs/libcmdtlm/packet_accessor_2.cpp:399-411 | `cur` and its predecessor are linked both ways, and `cur` takes the predecessor's start, or the predecessor itself if it is a START |
| Reassembly.SplitReader.LinkPrevious | libs/libcmdtlm/packet_accessor_2.cpp:388-416 | a START is its own start; a MIDDLE or END is linked both ways to the record with the previous (ID, count) and takes its start, or, when no record has that key, nothing changes |
| Reassembly.SplitReader.Link | libs/libcmdtlm/packet_accessor_2.cpp:365-416 | the forward linking and then the backward linking; no bytes or cursors change |
| Reassembly.SplitReader.PropagateStart | libs/libcmdtlm/packet_accessor_2.cpp:427-442 | the walk along `next` stops at the first record that knows its END (`Joined`, and only then), or else at a gap, a dangling link or a cycle; exactly the records it passes after `cur`, other than a `Joined` stop, get `cur`'s start |
| Reassembly.SplitReader.PropagateEnd | libs/libcmdtlm/packet_accessor_2.cpp:444-456 | the walk along `previous` stops at the first record that has a start reference (`Joined`, and only then, delivering that start), or else at a gap, a dangling link or a cycle; exactly the records it passes after `cur`, other than a `Joined` stop, are marked as knowing their END |
| Reassembly.SplitReader.Deliver | libs/libcmdtlm/packet_accessor_2.cpp:420-421 | delivery sets `currentPacket` and the delivered flag |
| Reassembly.SplitReader.DeliverForward | libs/libcmdtlm/packet_accessor_2.cpp:427-442 | the forward walk marks the records it passes and delivers `cur`'s start exactly when it reaches a record knowing its END, stopping at the first such record; after a gap the loop goes on, a dangling link is undefined and a cycle never ends; nothing else changes |
| Reassembly.SplitReader.DeliverBackward | libs/libcmdtlm/packet_accessor_2.cpp:444-456 | the backward walk marks the records it passes and delivers the start reference it reaches exactly when it reaches one, stopping at the first such record; after a gap the loop goes on, a dangling link is undefined and a cycle never ends; nothing else changes |
| Reassembly.SplitReader.Settle | libs/libcmdtlm/packet_accessor_2.cpp:358-456 | a FULL record is delivered at once; any other record is linked, then the shortcut, the forward walk or the backward walk decide the outcome, and nothing else changes |
| Reassembly.SplitReader.Resume | libs/libcmdtlm/packet_accessor_2.cpp:325-327 | a call that stopped in the copy loop receives into the same record, and nothing else changes |
| Reassembly.SplitReader.Admit | libs/libcmdtlm/packet_accessor_2.cpp:283-327 | the round resumes the `recv` a previous call was waiting in; otherwise an eviction comes first when a message was delivered or the list holds `max` records (undefined where the eviction is), then a new record at the front holding the next datagram |
| Reassembly.SplitReader.ReadOneRound | libs/libcmdtlm/packet_accessor_2.cpp:282-457 | one round of the loop: without input the call blocks; otherwise a record is admitted, the copy loop runs and the record is settled, and the loop goes on exactly when no outcome is reached |
| Reassembly.SplitReader.CopyAndSettle | libs/libcmdtlm/packet_accessor_2.cpp:322-456 | the copy loop for the record just received and then, unless the loop stopped, its linking and propagation |
| Reassembly.SplitReader.ReadPacket | libs/libcmdtlm/packet_accessor_2.cpp:281-459 | the states at the top of the rounds form a chain in which every round but the last goes on and the last ends with the outcome; on delivery `currentPacket` is a FULL record or the start of a chain that a START and an END are known to join; the list never holds more than `max` records, nor two with one (ID, count) |
| Reassembly.SplitReader.Consume | libs/libcmdtlm/packet_accessor_2.cpp:268-272 | `read` on a record gives its next `k` bytes and moves only its cursor |
| Reassembly.SplitReader.Read | libs/libcmdtlm/packet_accessor_2.cpp:256-279 | "no packets read", with nothing changed, exactly when no message was delivered; otherwise the first `length` bytes of the stream from `currentPacket`, with the rest still to be read, or, only where the stream is shorter or a record was read past its end, "no more packets" (left at the last record of the walk, unread, which holds the end of the stream), undefined behaviour or no end; unless a record was read past its end, the bytes come exactly when the stream holds `length` bytes, and the other outcomes exactly as the walk ends; links and bytes are unchanged |
| Reassembly.SplitReader.ReadChain | libs/libcmdtlm/packet_accessor_2.cpp:258-275 | the loop of `read` gives the first `length` bytes of the stream and leaves the rest readable from `currentPacket`, or stops (on "no more packets" at the walk's last record, as it was) only where the stream is shorter or a record was read past its end, with the outcome the walk's end gives |
| Reassembly.SplitReader.StepOver | libs/libcmdtlm/packet_accessor_2.cpp:259-263 | a record with bytes left is kept; from one read to its end, `read` moves on to its next without checking `hasNext`: undefined behaviour if there is none or it is dangling, no end if it leads back into the walk |
| Reassembly.SplitReader.TakeBytes | libs/libcmdtlm/packet_accessor_2.cpp:264-274 | all the bytes asked for when the record holds them; otherwise "no more packets" when it has no next, undefined behaviour when it was read past its end, and else all its remaining bytes; the bytes are taken off the front of the stream |
| Reassembly.SplitReader.StepOn | libs/libcmdtlm/packet_accessor_2.cpp:259-263 | one step of the loop of `read` keeps its invariant, or stops with the outcome `read` ends with |
| Reassembly.SplitReader.TakeOn | libs/libcmdtlm/packet_accessor_2.cpp:264-274 | one copy of the loop of `read` keeps its invariant and takes bytes or moves past an empty record, or stops with the outcome `read` ends with |
| Reassembly.BytesRead | libs/libcmdtlm/packet_accessor_2.cpp:258-275 | a `read` that copied all it was asked for returned the first `length` bytes of the stream (none for a length of 0 or less), and the rest of the stream is readable from where it stopped |
| Reassembly.NoMoreAt | libs/libcmdtlm/packet_accessor_2.cpp:264-267 | "no more packets" is thrown at the last record of the walk, which is as it was and holds the rest of the stream, after the bytes already copied |
| Reassembly.StartJoined | libs/libcmdtlm/packet_accessor_2.cpp:432-438 | the forward walk ends `Joined` at the first record that knows its END, none before it knowing it |
| Reassembly.EndJoined | libs/libcmdtlm/packet_accessor_2.cpp:447-453 | the backward walk ends `Joined` at the first record with a start reference, none before it having one |
| Reassembly.SplitReader.TakeSome | libs/libcmdtlm/packet_accessor_2.cpp:268-272 | `k` bytes of `currentPacket`, taken off the front of the chain's bytes |
| Fragmenter.Overwrite | libs/libcmdtlm/packet_accessor_2.cpp:502-502 | a `memcpy` into the buffer puts the bytes there and leaves the rest |
| Fragmenter.Bump | libs/libcmdtlm/packet_accessor_2.cpp:508-508 | the counter after `count + 1 & 0x3FFFF` is the count plus one modulo 0x10000 |
| Fragmenter.StampSend | libs/libcmdtlm/packet_accessor_2.cpp:502-508 | a header written at an offset, the first bytes of the buffer sent and the counter moved on, unless the header would pass `buf_end` |
| Fragmenter.StampSendKeeps | libs/libcmdtlm/packet_accessor_2.cpp:502-507 | stamping a header leaves every byte of the buffer outside those 4 bytes as it was |
| Fragmenter.MiddleLoop | libs/libcmdtlm/packet_accessor_2.cpp:511-520 | the MIDDLE loop stops at the first offset where `mtu - 4` more bytes reach `buf_end` |
| Fragmenter.MiddleLoopTurns | libs/libcmdtlm/packet_accessor_2.cpp:511-520 | after `n` turns the MIDDLE loop has moved `n` steps of `mtu - 4` and bumped the counter `n` times, one datagram per turn |
| Fragmenter.MiddleLoopDone | libs/libcmdtlm/packet_accessor_2.cpp:512-512 | the MIDDLE loop sends nothing once `mtu - 4` more bytes reach `buf_end` |
| Fragmenter.SendSpec | libs/libcmdtlm/packet_accessor_2.cpp:496-540 | `write_packet` keeps the buffer size, sends at least one datagram (two for a split message), and moves the counter on once per datagram sent |
| Fragmenter.OverwriteKeepsPrefix | libs/libcmdtlm/packet_accessor_2.cpp:514-516 | a header written at or after an offset leaves the bytes before it alone |
| Fragmenter.StampedPrefix | libs/libcmdtlm/packet_accessor_2.cpp:502-507 | after the header is written at `buf_start`, the bytes sent are the header followed by the buffered message |
| Fragmenter.FullSend | libs/libcmdtlm/packet_accessor_2.cpp:529-537 | a message that fits goes out as one datagram with its ID, the counter and the buffered bytes, and decodes as FULL with that count |
| Fragmenter.MiddleLoopRepeats | libs/libcmdtlm/packet_accessor_2.cpp:511-520 | every datagram the MIDDLE loop sends is the unchanged first `mtu` bytes of the buffer |
| Fragmenter.SplitSendsRepeat | libs/libcmdtlm/packet_accessor_2.cpp:500-528 | as written, every datagram of a split message is the same START with the first `mtu - 4` bytes, and there are at least two |
| Fragmenter.EndHeaderOverrun | libs/libcmdtlm/packet_accessor_2.cpp:523-527 | as written, the END header is written past `buf_end` when fewer than 4 bytes follow the first `mtu` |
| Fragmenter.CounterOverflow | libs/libcmdtlm/packet_accessor_2.cpp:537-537 | as written, the counter reaches 0x4000 and the next FULL datagram decodes as a START |
| Fragmenter.NextCounter | libs/libcmdtlm/packet_accessor_2.cpp:508-508 | the intended counter stays below 0x4000 and wraps to 0 |
| Fragmenter.NextCounterAgrees | libs/libcmdtlm/packet_accessor_2.cpp:227-229 | with the intended counter each datagram keeps its kind, and the receiver's next count is the sender's next count |
| Fragmenter.Rest | libs/libcmdtlm/packet_accessor_2.cpp:510-528 | the intended datagrams after a START are never empty |
| Fragmenter.Fragments | libs/libcmdtlm/packet_accessor_2.cpp:496-540 | the intended split of a message is never empty |
| Fragmenter.LinkFront | libs/libcmdtlm/packet_accessor_2.cpp:371-383 | a datagram put before a linked run it links to keeps the run linked |
| Fragmenter.RestRoundTrip | libs/libcmdtlm/packet_accessor_2.cpp:510-528 | the intended MIDDLEs and END carry the rest of the message, with consecutive counts, and end with the END |
| Fragmenter.SplitRoundTrip | libs/libcmdtlm/packet_accessor_2.cpp:500-528 | the intended split of a message longer than `mtu - 4` bytes is a START, MIDDLEs and an END carrying the message in order |
| Fragmenter.FragmentsRoundTrip | libs/libcmdtlm/packet_accessor_2.cpp:496-540 | the intended split round-trips: the payloads in order are the message, and the datagrams are FULL alone or START, MIDDLE..., END with consecutive counts that the receiver links |
| Fragmenter.SplitWriter.constructor | libs/libcmdtlm/packet_accessor_2.cpp:482-488 | a new sender has counter 0, nothing sent, and the cursor just past the 4-byte header gap |
| Fragmenter.SplitWriter.StampAndSend | libs/libcmdtlm/packet_accessor_2.cpp:502-508 | the buffer, counter and socket change as `StampSend` says |
| Fragmenter.SplitWriter.SendMiddle | libs/libcmdtlm/packet_accessor_2.cpp:514-519 | one turn of the MIDDLE loop: a MIDDLE header with the current counter at `at`, the first `mtu` bytes sent and the counter moved on, as `StampSend` says; nothing changes when the header would pass `buf_end` |
| Fragmenter.SplitWriter.SendMiddleOn | libs/libcmdtlm/packet_accessor_2.cpp:514-519 | after one turn the offset has moved `mtu - 4` on and what is left of the loop is `MiddleLoop` from the new state, or the whole loop is undefined |
| Fragmenter.SplitWriter.SendMiddles | libs/libcmdtlm/packet_accessor_2.cpp:510-520 | the loop leaves the state `MiddleLoop` gives |
| Fragmenter.SplitWriter.WritePacket | libs/libcmdtlm/packet_accessor_2.cpp:496-540 | `write_packet` leaves the state `SendSpec` gives, with the cursor back just past the header gap, or stops where a header would pass `buf_end` |

## Left out

- Sockets. `recv` takes the next datagram from an input queue, and `send`
  appends to a log. The errors both throw (`strerror(errno)`) are not
  modelled. A datagram shorter than 4 bytes is not modelled: the receiver
  would read a header from stale buffer bytes.
- The source blocks in `recv` when nothing has arrived. The model stops
  with `Blocked` instead, and the next call picks up where it stopped.
- The other readers and writers in the same file (`UDPPacketReader`,
  `UDPAddrPacketReader`, `UDPSplitAddrPacketWriter`), the `Reader`/`Writer`
  stream operators and the packet element classes are not part of this
  model.
- Fragmenter.SplitWriter.constructor: requires an MTU above 4 and a buffer of
  at least 4 bytes. The source checks neither. With an MTU of 4 or less the
  MIDDLE loop never advances, and with a smaller buffer the cursor starts
  past `buf_end`.
- Reassembly.SplitReader.constructor: requires an MTU of at least 4, so that
  a record's buffer holds a header. The source does not check this.
- Header.ID: states only that the ID is a 16-bit value. It is word 0 by its
  definition.
- Header.Count: states only that the count is below 0x4000. It is the low 14
  bits of word 1 by its definition.
- Reassembly.SplitReader.Read: on `ReadUndefined` it states nothing about
  the bytes copied before the undefined access, nor about the state left.
  A record receives twice when a copy loop round replaces a copy, and its
  cursor then moves 4 bytes past the header a second time; a datagram
  shorter than 8 bytes leaves it read past its end. Where such a record lies
  on the walk (`Overrun`), `read` copies a negative length, and the contract
  states only which outcomes are possible, not which one comes.
- Buffers.BufferReader.Read: on `CopyUndefined` the cursor is left where it
  was. In the source a `memcpy` of negative length is undefined behaviour,
  and no later state is defined.
- Reassembly.SplitReader.ReadPacket, Reassembly.SplitReader.ReadOneRound:
  after undefined behaviour (`Undefined`) or an endless walk (`Diverges`)
  they state which step stopped the round, not a state the source would
  reach.
- Fragmenter.SendSpec, Fragmenter.Fragments, Fragmenter.Rest: their own
  contracts state only sizes. What they send is stated by `FullSend`,
  `SplitSendsRepeat`, `EndHeaderOverrun` and the round-trip lemmas.
- There is no end-to-end proof that datagrams from `Fragments` fed to
  `SplitReader.ReadPacket` and then `Read` give back the message.
  `FragmentsRoundTrip` proves the header shape that the receiver's linking
  relies on: same ID, consecutive counts, and START, MIDDLE..., END.
- Fragmenter.SplitWriter.WritePacket: on undefined behaviour (`false`) it
  states nothing about the new state.
- Iterators become handles. The addresses and allocation of list nodes are
  not modelled; an erased node's handle is simply no longer live.

## Findings

| source | as written | input that shows it | evidently intended | confidence | as-written member | corrected member |
|---|---|---|---|---|---|---|
| libs/libcmdtlm/packet_accessor_2.cpp:508 | the counter is updated with `count + 1 & 0x3FFFF` into a 16-bit counter, so it runs up to 0xFFFF | after 16384 datagrams the counter is 0x4000, and the next FULL datagram carries the START type bits | `count + 1 & 0x3FFF`: a 14-bit count that wraps like the receiver's `getNextCount` | high; not executed | Fragmenter.CounterOverflow | Fragmenter.NextCounterAgrees |
| libs/libcmdtlm/packet_accessor_2.cpp:518 | every datagram of a split message is sent from `buf_start`, so each one is the START header plus the first `mtu - 4` bytes | MTU 2047 and a 3000-byte message: every datagram is the same START, and bytes 2043 onward are never sent | each datagram carries the next `mtu - 4` bytes behind its own header: START, MIDDLEs, and an END with the rest | high; not executed | Fragmenter.SplitSendsRepeat | Fragmenter.FragmentsRoundTrip |
| libs/libcmdtlm/packet_accessor_2.cpp:512 | the MIDDLE loop runs to `buf_end` rather than to the end of the message, and the END header goes wherever the loop stopped | MTU 8 and a full 9-byte buffer: the END header is written at offset 8, past `buf_end` | fragments up to the end of the message, with an END that fits | high; not executed | Fragmenter.EndHeaderOverrun | Fragmenter.FragmentsRoundTrip |
