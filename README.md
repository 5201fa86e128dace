# DRTP file transfer, modelled in Dafny

DRTP is a small reliable transport on top of UDP (`src/application.py`). A
client sends one file to a server in numbered data packets. The client frames
the file as chunks of at most 1460 bytes. Each chunk goes in a 12-byte header
packed as `"!IIHH"`: sequence number, acknowledgment number, flags and window,
in network byte order. The flags are RESET = 1, FIN = 2, ACK = 4 and SYN = 8.

The connection opens with a SYN / SYN-ACK / ACK exchange. The data transfer
then uses one of three reliability engines:
- Stop-and-Wait: one packet in flight;
- Go-Back-N: a window of five, with cumulative acknowledgment;
- Selective Repeat: a window of five, with one acknowledgment flag per packet.

The connection closes with FIN and a final ACK. The server runs one of two
receive loops:
- an in-order loop, for Stop-and-Wait and Go-Back-N;
- a five-slot reassembly buffer, for Selective Repeat.

The project has nine modules:

- `Codec` (`codec.dfy`): the wire format.
  - Big-endian field encoding, `create_packet`, `receive_packet`, `parse_header` and `parse_flags`.
  - Round trips in both directions.
- `Handshake` (`handshake.dfy`):
  - the client's SYN, FIN and ACK(1, 1) packets;
  - `handle_syn_ack`;
  - the client's test for the final ACK;
  - the SYN / FIN / ACK branches shared by both server loops;
  - a lemma running the whole open-and-close exchange.
- `Transfer` (`transfer.dfy`): what the engines share.
  - The file as the sequence of `file.read(1460)` results.
  - The data packet for a sequence number.
  - The events a blocking receive with a 500 ms timeout can yield: an acknowledgment number, a header too short to unpack, or the timeout.
- `StopAndWait`, `GoBackN`, `SelectiveRepeat`: each sender is a class.
  - Its fields are the Python locals of the sender function.
  - It has one method per inner loop and a `Run` method for the outer loop, driven by a sequence of events.
  - Each loop is proved against a specification function: `CumulativeAcks`, `MarkAcks`, `Pending`, `PacketRange`.
- `Serving` (`serving.dfy`):
  - a datagram as the server loop sees it after `parse_header`;
  - what it means for a datagram to be consistent with the file;
  - the `skip_ack` test hook.
- `InOrder`, `Reassembly`: each server loop is a class with its own counters.
  - The counters are `server_ack` and `server_seq`.
  - The state also holds the bytes written to the output file (`sink`), the reassembly buffer, and whether the loop is still running.
  - Each has a method per loop body and a `Serve` method for the loop.
  - It is proved that, fed datagrams consistent with the file, the file written is always the first `server_ack - 1` chunks, in order. Consistent means the data packets and the handshake ACK a sender frames, each any number of times and in any order, but no SYN or FIN once the connection is open.
  - With no loss, the data packets arriving once each and in order write the whole file (`ReceiveAll`). A SYN delivered twice breaks the numbering (`DuplicatedSyn`).

Some members are plain definitions of source expressions and need no row:
- `ReadChunk` is `file.read(1460)` over the file given as its sequence of chunks (lines 228, 261, 308, 321, 395, 406).
- `DataPacket` is `create_packet(client_seq, 1, 0, 0, data)` (lines 231, 267, 318, 402).
- `Encode` is the packet-to-bytes step of `create_packet` (lines 451-479).
- `ServerReply` is the header of every server reply (lines 597, 604, 622, 674).
- `SkipFires` is the `skip_seq` hook (lines 325-326, 410-411); `SkipAckFires` is the `skip_ack` hook (lines 617, 668).

Integers are unbounded in Dafny. The 32-bit and 16-bit ranges of `struct.pack`
are handled in one of two ways:
- as preconditions, where a caller guarantees them (the client packing its own packets);
- as an explicit `Aborted` status, where the server computes an acknowledgment number that no longer fits. `struct.pack` raises there, and the server's catch-all handler ends the loop.

## Model

| member | source | states |
|---|---|---|
| Codec.EncodeBE | src/application.py:475 | Packs an unsigned field as exactly n big-endian bytes, which decode back to the value. |
| Codec.EncodeOfDecode | src/application.py:501 | The other direction: any byte string is the encoding of the value it decodes to. |
| Codec.ParseHeader | src/application.py:482-502 | Unpacking succeeds exactly on 12 bytes, and every field it yields is in the range `struct.pack` accepts. |
| Codec.PackHeader | src/application.py:475 | A header of in-range fields packs to 12 bytes that unpack to the same four fields. |
| Codec.PackOfParse | src/application.py:475-501 | Unpacking 12 bytes and packing the fields again gives back the same bytes. |
| Codec.CreatePacket | src/application.py:451-479 | The packet is 12 + len(data) bytes, its first 12 bytes unpack to the given fields, and the rest is the payload verbatim. |
| Codec.ReceivePacket | src/application.py:51-77 | Header and data concatenate to the datagram; the header is 12 bytes, or the whole datagram when it is shorter. |
| Codec.Decode | src/application.py:70-74 | A datagram decodes exactly when it has at least 12 bytes, to in-range fields and the bytes after the header. |
| Codec.PacketRoundTrip | src/application.py:475-477 | Decoding a created packet gives back its four fields and its payload. |
| Codec.DecodeThenEncode | src/application.py:73-74 | Every datagram of at least 12 bytes is the encoding of what it decodes to. |
| Codec.ParseFlags | src/application.py:524-528 | Each component is 0 or its flag, and it is nonzero exactly when bit 3 (SYN), 2 (ACK) or 1 (FIN) is set. |
| Codec.SameBitsSameFlags | src/application.py:525-527 | `parse_flags` depends on bits 1, 2 and 3 only. |
| Codec.ResetBitIgnored | src/application.py:524 | Setting the RESET bit never changes what `parse_flags` reports. |
| Codec.ControlFlags | src/application.py:23-26 | SYN, SYN or ACK (= 12), ACK, FIN and 0 parse to the intended flag triples. |
| Handshake.SynPacket | src/application.py:81-106 | `send_syn` sends a packet that decodes to SYN(seq 0, ack 0, window 0), empty, with only SYN set. |
| Handshake.SynAckPacket | src/application.py:109-133 | `send_syn_ack` sends a packet that decodes to seq 0, ack 1, window 64, with SYN and ACK set and no FIN. |
| Handshake.FinPacket | src/application.py:136-160 | `send_fin` sends a packet that decodes to FIN(seq 0, ack 0, window 0), with only FIN set. |
| Handshake.HandshakeAckPacket | src/application.py:198 | The client's reply to a SYN-ACK decodes to ACK(seq 1, ack 1, window 0), with only ACK set. |
| Handshake.HandleSynAck | src/application.py:163-201 | A datagram shorter than a header is an error; ACK(1, 1) is sent exactly when SYN and ACK are both set; anything else is ignored. |
| Handshake.FinalAckObserved | src/application.py:731-737 | A short datagram is an error; otherwise the wait ends exactly when the ACK bit is set. |
| Handshake.IsControl | src/application.py:591-612 | A packet takes one of the handshake branches exactly when its SYN, FIN or ACK bit (8, 2 or 4) is set. |
| Handshake.ServerControl | src/application.py:593-612 | SYN bumps server_ack and answers SYN-ACK with it; FIN bumps it, answers ACK and leaves the loop; a bare ACK sets server_seq once from its ack number; an overflowing server_ack aborts, sending nothing and leaving both counters as they were. |
| Handshake.HandshakeExchange | src/application.py:702-737 | End to end: SYN draws a SYN-ACK that makes the client answer ACK(1, 1); that ACK sets server_seq to 1; FIN draws a final ACK that ends the client's wait and stops the server loop. |
| Transfer.ReadsConcatenate | src/application.py:228 | The first k reads of `file.read(1460)`, concatenated, are the first k chunks of the file, or the whole file once k passes its end: reads hand the file over in order, and reads past the end add nothing. |
| Transfer.DataChunks | src/application.py:237 | The number of chunks a transfer sends: every read before it returned data and the read at it is empty. |
| Transfer.EndOfData | src/application.py:237 | A sender that saw k non-empty reads and then an empty one has read exactly the whole transfer. |
| Transfer.PacketForOnWire | src/application.py:231 | The data packet for chunk n is at most 1472 bytes on the wire and decodes back to itself. |
| Transfer.Received | src/application.py:246-249 | A datagram shorter than a header is an unpack error; any other yields the acknowledgment number the codec decodes from it. |
| Transfer.ReceivedEncoding | src/application.py:246-249 | A reply sent as the encoding of a packet reaches the sender as that packet's acknowledgment number. |
| StopAndWait.StopAndWaitSender.constructor | src/application.py:225-231 | client_seq starts at 1, and the packet in flight frames the first chunk. |
| StopAndWait.StopAndWaitSender.Read | src/application.py:261 | Returns the chunk at the file position and advances the position by one. |
| StopAndWait.StopAndWaitSender.Round | src/application.py:238-267 | Sends the packet in flight. Only an acknowledgment of client_seq + 1 advances the counter and reads and frames the next chunk; a timeout or any other number changes nothing; a short reply header ends the client. |
| StopAndWait.StopAndWaitSender.Run | src/application.py:237-267 | Every packet sent frames its own non-empty chunk; the next one repeats the number unless the reply acknowledged it; a loop that ends normally has sent the whole file. |
| GoBackN.CumulativeAcks | src/application.py:338-345 | The receive loop reads at most one reply per packet and pops at most as many packets as it read. |
| GoBackN.InOrderAcksPopAll | src/application.py:339-345 | Replies that acknowledge the window packet by packet, oldest first, pop the whole window. |
| GoBackN.PopNeedsOldestAck | src/application.py:344-345 | A round pops its oldest packet only if some reply it read acknowledged exactly that packet. |
| GoBackN.GoBackNSender.constructor | src/application.py:300-308 | client_seq 1, an empty window, the first chunk read, the hook not fired. |
| GoBackN.GoBackNSender.Read | src/application.py:321 | Returns the chunk at the file position and advances the position by one. |
| GoBackN.GoBackNSender.Push | src/application.py:318-321 | Appends the packet framing the chunk in hand under client_seq, and bumps client_seq. |
| GoBackN.GoBackNSender.Fill | src/application.py:317-321 | Fills the window up to five packets or until a read comes back empty; the oldest packet stays and the old window is a prefix of the new one. |
| GoBackN.GoBackNSender.Transmit | src/application.py:324-332 | Sends the whole window in order, leaving packet 3 out exactly once when `skip_seq` is on. |
| GoBackN.GoBackNSender.OnAck | src/application.py:344-345 | Pops the oldest packet exactly when the number is client_seq + 1 - len(window); otherwise the window is unchanged. |
| GoBackN.GoBackNSender.ReceiveAcks | src/application.py:338-349 | The loop's result is `CumulativeAcks`: events read, packets popped off the head, and whether a short header ended the client. |
| GoBackN.GoBackNSender.Receive | src/application.py:338-349 | As ReceiveAcks, and the window left over still holds consecutive packets framing their chunks. |
| GoBackN.GoBackNSender.FillAndTransmit | src/application.py:316-332 | Sends the packets from the oldest unacknowledged one to the new client_seq (at most five), less packet 3 when the hook fires. |
| GoBackN.GoBackNSender.Round | src/application.py:314-349 | One outer iteration: what FillAndTransmit sends, then the acknowledgments `CumulativeAcks` describes. |
| GoBackN.GoBackNSender.Run | src/application.py:314-349 | Every packet sent frames its own non-empty chunk; the window's start only moves forward; a loop that ends normally has had every chunk acknowledged. |
| SelectiveRepeat.Pending | src/application.py:409-418 | What one transmission of the window sends: never more packets than the window holds. |
| SelectiveRepeat.PendingExactly | src/application.py:409-418 | A packet is sent exactly when it is in the window, unacknowledged, and not the one the hook leaves out. |
| SelectiveRepeat.Mark | src/application.py:429-431 | (Corrected guard.) Reply n sets exactly the flag of packet n - 1 when that packet is in the window, and no other flag. |
| SelectiveRepeat.AckSlotAsWritten | src/application.py:430-431 | (Guard as written.) It fails exactly on acknowledgment number window_end_seq + 1, and otherwise keeps the number of flags. |
| SelectiveRepeat.AsWrittenIndexesPastWindow | src/application.py:430-431 | The number window_end_seq + 1 passes the guard and indexes one past the flags. |
| SelectiveRepeat.AsWrittenAgreesElsewhere | src/application.py:430-431 | For every other number, the guard as written and the corrected one agree. |
| SelectiveRepeat.MarkAcks | src/application.py:425-431 | The loop keeps the number of flags and reads no more events than it has; it ends with all acknowledged exactly when no flag is unset. |
| SelectiveRepeat.MarkNeedsOwnAck | src/application.py:425-431 | A flag is set by a round only if one of the events it read acknowledged exactly that packet. |
| SelectiveRepeat.AllRepliesAckAll | src/application.py:425-431 | Replies for every unacknowledged packet, in any order, leave the whole window acknowledged. |
| SelectiveRepeat.AckedPrefix | src/application.py:437-440 | The acknowledged run at the head of the window, followed by an unacknowledged packet or the end. |
| SelectiveRepeat.PendingFramesChunks | src/application.py:402-418 | Whatever a transmission of the window sends frames its own chunk below window_end_seq. |
| SelectiveRepeat.SelectiveRepeatSender.constructor | src/application.py:382-395 | Both counters 1, empty deques, the first chunk read, the hook not fired. |
| SelectiveRepeat.SelectiveRepeatSender.Read | src/application.py:406 | Returns the chunk at the file position and advances the position by one. |
| SelectiveRepeat.SelectiveRepeatSender.Push | src/application.py:402-406 | Appends the next data packet and an unset flag, and bumps window_end_seq. |
| SelectiveRepeat.SelectiveRepeatSender.Fill | src/application.py:401-406 | Fills the window up to five packets or until a read comes back empty, appending one unset flag per packet. |
| SelectiveRepeat.SelectiveRepeatSender.Transmit | src/application.py:409-418 | Sends what `Pending` gives: the unacknowledged packets in order, less packet 3 once when the hook fires. |
| SelectiveRepeat.SelectiveRepeatSender.OnAck | src/application.py:429-431 | Sets the flag of packet n - 1 alone, when it is in the window (corrected guard). |
| SelectiveRepeat.SelectiveRepeatSender.ReceiveAcks | src/application.py:424-434 | The loop's result is `MarkAcks`: the flags, the events read, how it ended, and whether the client died. |
| SelectiveRepeat.SelectiveRepeatSender.Slide | src/application.py:437-440 | Pops the acknowledged head of the window with its flags, and advances window_start_seq by as many. |
| SelectiveRepeat.SelectiveRepeatSender.Receive | src/application.py:424-440 | When every packet is acknowledged the window empties and its start catches up with its end; otherwise the window stays, with at least one unacknowledged packet. |
| SelectiveRepeat.SelectiveRepeatSender.Send | src/application.py:400-418 | Fills, then sends the pending packets of the window from window_start_seq to the new window_end_seq (at most five). |
| SelectiveRepeat.SelectiveRepeatSender.Run | src/application.py:398-440 | Every packet sent frames its own non-empty chunk; the window only moves forward; a loop that ends normally has had every chunk acknowledged. |
| Serving.Arrived | src/application.py:588-590 | An empty datagram ends the loop, a shorter-than-header one is an unpack error, and any other is its decoded header kept with its bytes. |
| Serving.ArrivedEncoding | src/application.py:588-590 | A packet the client creates arrives as its own header, with its bytes kept whole. |
| Serving.Body | src/application.py:624 | `packet[12:]`: the bytes after the header, and nothing for a datagram shorter than a header (tied to the codec by `BodyIsPayload`). |
| Serving.BodyIsPayload | src/application.py:624 | What the server writes from a datagram is the payload half of `receive_packet`'s split, and exactly the payload the codec decodes from it. |
| Serving.DataPacketArrives | src/application.py:615-624 | A data packet a sender frames arrives as its own header, takes the data path (none of SYN, FIN and ACK set), and its body is its chunk. |
| Serving.SenderDatagramsFaithful | src/application.py:197-402 | Every data packet a sender frames (lines 231, 267, 318 and 402), and the handshake ACK(1, 1) (line 197), arrive consistent with the file: no SYN, no FIN, and a data payload is the chunk of its own number. |
| Serving.FaithfulControl | src/application.py:609-612 | A consistent control packet only ever takes the ACK branch: no reply and server_ack unchanged. |
| InOrder.InOrderReceiver.constructor | src/application.py:585-586 | Both counters 0, nothing written, the loop running. |
| InOrder.InOrderReceiver.OnData | src/application.py:615-624 | A packet numbered server_ack is either swallowed once by `skip_ack` or acknowledged with server_ack + 1 and written; any other is dropped silently. |
| InOrder.InOrderReceiver.OnPacket | src/application.py:590-624 | The handshake branches for a SYN / FIN / ACK packet, the data path otherwise. |
| InOrder.InOrderReceiver.OnArrival | src/application.py:588-627 | An empty datagram stops the loop, a short one aborts it, and a parsed one is handled as a packet. |
| InOrder.InOrderReceiver.OnDatagram | src/application.py:588-590 | One raw datagram is handled as the arrival it decodes to. |
| InOrder.InOrderReceiver.ReceiveData | src/application.py:616-624 | A consistent data packet keeps the file equal to chunks 1 .. server_ack - 1, and a reply acknowledges exactly the chunk just written. |
| InOrder.InOrderReceiver.Receive | src/application.py:594-624 | Any consistent arrival keeps the file equal to chunks 1 .. server_ack - 1, and server_ack grows by at most one. |
| InOrder.InOrderReceiver.Serve | src/application.py:588-627 | Over a run of consistent arrivals the file stays that prefix, and server_ack never moves back. |
| InOrder.InOrderReceiver.AcceptNext | src/application.py:616-624 | Data packet n arriving when server_ack is n is accepted: it draws ACK n + 1 and its chunk is appended to the file. |
| InOrder.InOrderReceiver.ReceiveAll | src/application.py:588-627 | Zero loss: data packets 1 .. n arriving once each and in order after the SYN are all accepted; reply i acknowledges i + 1, and the file is the whole transfer. |
| InOrder.InOrderReceiver.DuplicatedSyn | src/application.py:594-624 | A SYN delivered twice bumps server_ack to 2: data packet 1 is then dropped without a reply, and chunk 2 is written as the start of the file. |
| Reassembly.ReadyPrefix | src/application.py:678 | The number of filled slots at the buffer's head, followed by an empty slot or the end. |
| Reassembly.Drain | src/application.py:678-682 | The delivery loop's outcome. server_ack advances by one per filled head slot: at most five, and at least one when the head is filled. The file written so far stays a prefix of the new one. The buffer keeps five slots, and its head is empty afterwards. |
| Reassembly.PopSlot | src/application.py:679-680 | One more pop with a refill is the buffer after one more step. |
| Reassembly.DrainedChunks | src/application.py:682 | Writing slots that hold the next chunks extends the written prefix by exactly those chunks. |
| Reassembly.StoreKeepsSlots | src/application.py:665-666 | Storing a consistent data packet in its own slot keeps the buffer consistent with the file. |
| Reassembly.DrainKeepsPrefix | src/application.py:678-682 | Draining a consistent buffer writes exactly the next chunks and stays consistent at the new server_ack. |
| Reassembly.ShiftKeepsSlots | src/application.py:679-681 | Popping k slots whose chunks were written leaves a buffer consistent at server_ack + k. |
| Reassembly.AcceptedAgrees | src/application.py:665-682 | A consistent data packet, dropped, stored, or stored and drained, keeps the receiver consistent with the file. |
| Reassembly.Accepted | src/application.py:665-682 | A packet outside server_ack .. server_ack + 4 changes nothing. A packet inside is stored in its own slot; when it is acknowledged the buffer drains, the file keeps its prefix and the head slot is left empty. The packet at server_ack is always written at once. |
| Reassembly.AcceptedInOrder | src/application.py:665-682 | The packet at server_ack reaching an empty buffer is written at once: server_ack advances by one and the buffer stays empty. |
| Reassembly.SelectiveRepeatReceiver.constructor | src/application.py:632-636 | Both counters 0, five empty slots, nothing written. |
| Reassembly.SelectiveRepeatReceiver.Deliver | src/application.py:678-682 | The loop's result is `Drain`: the filled head is popped and written in order, an empty slot appended per pop, and the head is empty afterwards. |
| Reassembly.SelectiveRepeatReceiver.Store | src/application.py:666-682 | The slot is filled. Then `skip_ack` swallows the acknowledgment once, or an unpackable number aborts, or ACK seq + 1 goes out and the buffer drains. |
| Reassembly.SelectiveRepeatReceiver.Acknowledge | src/application.py:673-682 | The acknowledged case: ACK seq + 1 from server_seq, then the drain. |
| Reassembly.SelectiveRepeatReceiver.OnData | src/application.py:665-682 | A packet within server_ack .. server_ack + 4 is stored; any other is dropped without a reply. |
| Reassembly.SelectiveRepeatReceiver.OnPacket | src/application.py:640-682 | The handshake branches for a SYN / FIN / ACK packet, the data path otherwise. |
| Reassembly.SelectiveRepeatReceiver.OnArrival | src/application.py:638-685 | An empty datagram stops the loop, a short one aborts it, and a parsed one is handled as a packet. |
| Reassembly.SelectiveRepeatReceiver.OnDatagram | src/application.py:638-640 | One raw datagram is handled as the arrival it decodes to. |
| Reassembly.SelectiveRepeatReceiver.ReceiveData | src/application.py:663-682 | A consistent data packet keeps the file equal to chunks 1 .. server_ack - 1 and the buffer consistent with it. |
| Reassembly.SelectiveRepeatReceiver.Receive | src/application.py:643-682 | Any consistent arrival keeps the file that prefix and the buffer consistent, and server_ack never moves back. |
| Reassembly.SelectiveRepeatReceiver.Serve | src/application.py:638-685 | Over a run of consistent arrivals the file stays that prefix, and server_ack never moves back. |
| Reassembly.SelectiveRepeatReceiver.AcceptNext | src/application.py:665-682 | Data packet n arriving at an empty buffer when server_ack is n is written at once: ACK n + 1, its chunk appended, the buffer empty again. |
| Reassembly.SelectiveRepeatReceiver.ReceiveAll | src/application.py:638-685 | Zero loss: data packets 1 .. n arriving once each and in order after the SYN are each written at once; reply i acknowledges i + 1, and the file is the whole transfer. |

## Left out

- Sockets, addresses and `sendto` / `recvfrom`:
  - a sender's received datagrams are `Event`s, and a server's are `Arrival`s (the decoded header with the datagram's bytes);
  - `Received`, `Arrived` and `OnDatagram` connect them to raw bytes;
  - server replies are headers, which go on the wire as `Encode(Packet(h, []))`.
- `recvfrom(1472)` truncating longer datagrams: every datagram a peer creates is at most 1472 bytes (`PacketForOnWire`).
- Timing, the 500 ms and 1 s socket timeouts, throughput figures and `print` output. A timeout is an input event.
- Argument parsing, opening and closing files and sockets, and the process exit in the exception handlers. The output file is the byte sequence `sink`.
- The client's FIN retry loop (lines 727-742) as a loop. One received datagram is judged by `FinalAckObserved`, and the retry itself is socket I/O.
- The first `recvfrom` before the server loop (line 579). The loops start from the first datagram, like every other.
- Counters after an abort. When `struct.pack` raises in a server branch, Python has already bumped `server_ack`. The model keeps the old value, because the loop has ended and nothing reads it again.
- The senders' outer loops run only as long as the given events last. `Run` stops when they run out, and its ensures say what holds at that point.
- The Selective-Repeat sender's outer iteration is the `Send` and `Receive` methods called in turn by `Run`; there is no single method for one iteration.
- `Serve` of both receivers starts after the SYN, with server_ack at least 1. The SYN branch itself is `ServerControl`, and `HandshakeExchange` shows the SYN moves server_ack from 0 to 1.
- InOrder.InOrderReceiver.Serve, Reassembly.SelectiveRepeatReceiver.Serve: the file-prefix guarantee assumes that no SYN or FIN arrives once the connection is open; the code does not rule that out. The SYN branch bumps server_ack on every SYN, so a SYN the network delivers twice shifts the numbering by one. `DuplicatedSyn` shows packet 1 then dropped and chunk 2 written first. A duplicated FIN ends the loop early.
- InOrder.InOrderReceiver.ReceiveAll, Reassembly.SelectiveRepeatReceiver.ReceiveAll: completeness is proved only for a transfer without loss and with `skip_ack` off. With losses, only the prefix guarantee of `Serve` is stated.
- Neither receiver answers a data packet below server_ack: a copy of a chunk already written is dropped without a reply (`OnData`, `DataHandled`). If the ACK for it is lost, the Stop-and-Wait, Go-Back-N and Selective-Repeat senders all resend it until their events run out. For Selective Repeat: packets 1-5 all delivered, server_ack 6, and the reply ACK 3 lost. Flag 2 then stays unset, and every round resends packet 3, which is dropped again (src/application.py:409-434, 665-666). No liveness property is stated.
- `HandleSynAck`: the client goes on with the transfer after ignoring a datagram that is not a SYN-ACK. That is stated, but the transfer that follows is not tied to it.
- The Selective-Repeat sender reaches the slide only when every packet is acknowledged, because a timeout `continue`s past it (src/application.py:433-440). The model follows the code.
- The upper bound at line 430 as written is kept in `AckSlotAsWritten` and the lemmas beside it. The sender itself uses the corrected guard (see Findings).

## Findings

| source | as written | input that shows it | evidently intended | confidence | as-written member | corrected member |
|---|---|---|---|---|---|---|
| src/application.py:430 | `ack_number > window_start_seq and ack_number <= window_end_seq + 1` | a reply with ack_number = window_end_seq + 1 passes the test; `received[(ack_number - 1) - window_start_seq]` then indexes `len(received)`, and the uncaught IndexError kills the client | accept only `ack_number <= window_end_seq`, the numbers a packet of the window can draw | not executed | SelectiveRepeat.AsWrittenIndexesPastWindow | SelectiveRepeat.Mark |
