/**
 * The server receive loop used with the Stop-and-Wait and Go-Back-N
 * senders: a data packet is accepted only when its sequence number equals
 * server_ack; acceptance acknowledges server_ack + 1 and writes the payload
 * to the file. Anything else is dropped without a reply.
 */
module InOrder {
  import opened Codec
  import opened Transfer
  import opened Handshake
  import opened Serving

  class InOrderReceiver {
    const skipAck: bool  // the skip_ack test case
    var serverAck: nat
    var serverSeq: nat
    var skipped: bool
    var sink: seq<byte>  // the bytes written to the output file
    var status: ServerStatus

    /** The state before the loop: both counters 0, nothing written. */
    constructor (skipAck: bool)
      ensures this.skipAck == skipAck && serverAck == 0 && serverSeq == 0
      ensures !skipped && sink == [] && status == Listening
    {
      this.skipAck := skipAck;
      serverAck := 0;
      serverSeq := 0;
      skipped := false;
      sink := [];
      status := Listening;
    }

    /**
     * What handling a data packet numbered seqNo carrying payload did:
     * nothing unless seqNo is server_ack; then either the skip_ack hook
     * swallows it once, or it is acknowledged with server_ack + 1 and the
     * payload is written out.
     */
    twostate predicate DataHandled(seqNo: nat, payload: seq<byte>, new reply: Option<Header>)
      reads this
    {
      && serverSeq == old(serverSeq)
      && if seqNo != old(serverAck) then
        && reply == None && serverAck == old(serverAck)
        && sink == old(sink) && skipped == old(skipped) && status == Listening
      else if SkipAckFires(skipAck, old(skipped), old(serverAck)) then
        && reply == None && serverAck == old(serverAck)
        && sink == old(sink) && skipped && status == Listening
      else if old(serverAck) + 1 >= U32_LIMIT then
        && reply == None && serverAck == old(serverAck)
        && sink == old(sink) && skipped == old(skipped) && status == Aborted
      else
        && serverAck == old(serverAck) + 1 && serverSeq < U32_LIMIT
        && reply == Some(ServerReply(serverSeq, serverAck, ACK))
        && sink == old(sink) + payload && skipped == old(skipped) && status == Listening
    }

    /** The loop ended with status s on an empty or short datagram: no reply, nothing else changed. */
    twostate predicate Ended(s: ServerStatus, new reply: Option<Header>)
      reads this
    {
      && reply == None && status == s && serverAck == old(serverAck) && serverSeq == old(serverSeq)
      && sink == old(sink) && skipped == old(skipped)
    }

    /** What a SYN, FIN or ACK packet with header h did: the handshake branches, the file untouched. */
    twostate predicate ControlHandled(h: Header, new reply: Option<Header>)
      requires Packable(h) && IsControl(h) && old(serverSeq) < U32_LIMIT
      reads this
    {
      var c := ServerControl(old(serverAck), old(serverSeq), h);
      && serverAck == c.serverAck && serverSeq == c.serverSeq && reply == c.reply && status == c.status
      && sink == old(sink) && skipped == old(skipped)
    }

    /** What a packet with header h and datagram bytes did: the handshake branches or the data path. */
    twostate predicate PacketHandled(h: Header, bytes: seq<byte>, new reply: Option<Header>)
      requires Packable(h) && old(serverSeq) < U32_LIMIT
      reads this
    {
      if IsControl(h) then ControlHandled(h, reply) else DataHandled(h.seqNo, Body(bytes), reply)
    }

    /**
     * What handling arrival a did: an empty datagram ends the loop, a short
     * one aborts it, and a parsed packet is handled as one.
     */
    twostate predicate Handled(a: Arrival, new reply: Option<Header>)
      requires WellFormed(a) && old(serverSeq) < U32_LIMIT
      reads this
    {
      match a
      case Closed => Ended(Stopped, reply)
      case Truncated => Ended(Aborted, reply)
      case Datagram(h, bytes) => PacketHandled(h, bytes, reply)
    }

    /** The data path of the loop body: a packet with none of SYN, FIN and ACK set. */
    method OnData(seqNo: nat, payload: seq<byte>) returns (reply: Option<Header>)
      requires status == Listening && serverSeq < U32_LIMIT
      modifies this`serverAck, this`skipped, this`sink, this`status
      ensures DataHandled(seqNo, payload, reply)
    {
      reply := None;
      if seqNo == serverAck {
        if skipAck && !skipped && serverAck == 5 {
          skipped := true;
        } else if serverAck + 1 >= U32_LIMIT {
          status := Aborted;
        } else {
          serverAck := serverAck + 1;
          reply := Some(ServerReply(serverSeq, serverAck, ACK));
          sink := sink + payload;
        }
      }
    }

    /** The loop body for a packet with a parsed header h: the handshake branches or the data path. */
    method OnPacket(h: Header, bytes: seq<byte>) returns (reply: Option<Header>)
      requires Packable(h) && status == Listening && serverSeq < U32_LIMIT
      modifies this
      ensures serverSeq < U32_LIMIT
      ensures PacketHandled(h, bytes, reply)
    {
      if IsControl(h) {
        var c := ServerControl(serverAck, serverSeq, h);
        serverAck, serverSeq, reply, status := c.serverAck, c.serverSeq, c.reply, c.status;
      } else {
        reply := OnData(h.seqNo, Body(bytes));
      }
    }

    /** One pass of the loop body, for a datagram whose header has been parsed. */
    method OnArrival(a: Arrival) returns (reply: Option<Header>)
      requires WellFormed(a) && status == Listening && serverSeq < U32_LIMIT
      modifies this
      ensures serverSeq < U32_LIMIT
      ensures Handled(a, reply)
    {
      match a
      case Closed =>
        reply, status := None, Stopped;
      case Truncated =>
        reply, status := None, Aborted;
      case Datagram(h, bytes) =>
        reply := OnPacket(h, bytes);
    }

    /**
     * One datagram off the socket: an empty one ends the loop; one too short
     * for a header makes parse_header raise, which the catch-all handler
     * turns into an abort; any other is handled as the packet it decodes to.
     */
    method OnDatagram(d: seq<byte>) returns (reply: Option<Header>)
      requires status == Listening && serverSeq < U32_LIMIT
      modifies this
      ensures serverSeq < U32_LIMIT
      ensures Handled(Arrived(d), reply)
    {
      reply := OnArrival(Arrived(d));
    }

    /** The file written so far is the first server_ack - 1 chunks, in order and each once. */
    ghost predicate WrotePrefix(source: seq<seq<byte>>)
      reads this
    {
      1 <= serverAck <= |source| + 1 && sink == Flatten(source[..serverAck - 1])
    }

    /**
     * A faithful arrival keeps the file a prefix of the source: an accepted
     * packet carries exactly the chunk server_ack names, and nothing else
     * writes.
     */
    method Receive(source: seq<seq<byte>>, a: Arrival) returns (reply: Option<Header>)
      requires status == Listening && serverSeq < U32_LIMIT && WrotePrefix(source) && Faithful(source, a)
      modifies this
      ensures serverSeq < U32_LIMIT && WrotePrefix(source)
      ensures serverAck == old(serverAck) || serverAck == old(serverAck) + 1
      ensures reply.Some? ==> serverAck == old(serverAck) + 1 && serverAck < U32_LIMIT && reply == Some(ServerReply(serverSeq, serverAck, ACK))
    {
      if !a.Datagram? {
        reply := OnArrival(a);
      } else if IsControl(a.header) {
        ghost var ack, sseq := serverAck, serverSeq;
        reply := OnPacket(a.header, a.bytes);
        FaithfulControl(source, a, ack, sseq);
      } else {
        reply := ReceiveData(source, a);
      }
    }

    /** The data path for a faithful data packet: an accepted packet carries exactly the chunk server_ack names. */
    method ReceiveData(source: seq<seq<byte>>, a: Arrival) returns (reply: Option<Header>)
      requires status == Listening && serverSeq < U32_LIMIT && WrotePrefix(source)
      requires Faithful(source, a) && a.Datagram? && !IsControl(a.header)
      modifies this
      ensures serverSeq < U32_LIMIT && WrotePrefix(source)
      ensures serverAck == old(serverAck) || serverAck == old(serverAck) + 1
      ensures reply.Some? ==> serverAck == old(serverAck) + 1 && serverAck < U32_LIMIT && reply == Some(ServerReply(serverSeq, serverAck, ACK))
    {
      if a.header.seqNo == serverAck {
        FlattenNext(source, serverAck - 1);
      }
      reply := OnData(a.header.seqNo, Body(a.bytes));
    }

    /**
     * The receive loop over the datagrams the network delivers, parsed, until
     * one ends it or they run out. Fed the datagrams of a faithful sender, the
     * file is at every point the chunks 1 .. server_ack - 1 in order, and
     * every reply acknowledges the chunk just written.
     */
    method Serve(source: seq<seq<byte>>, arrivals: seq<Arrival>) returns (replies: seq<Option<Header>>)
      requires status == Listening && serverSeq < U32_LIMIT && WrotePrefix(source)
      requires forall i | 0 <= i < |arrivals| :: Faithful(source, arrivals[i])
      modifies this
      ensures WrotePrefix(source)
      ensures |replies| <= |arrivals|
      ensures status == Listening ==> |replies| == |arrivals|
      ensures old(serverAck) <= serverAck
    {
      replies := [];
      while status == Listening && |replies| < |arrivals|
        invariant serverSeq < U32_LIMIT && WrotePrefix(source)
        invariant |replies| <= |arrivals| && old(serverAck) <= serverAck
        decreases |arrivals| - |replies|
      {
        var reply := Receive(source, arrivals[|replies|]);
        replies := replies + [reply];
      }
    }

    /**
     * Zero loss: after the SYN, the data packets 1 .. DataChunks(source)
     * arriving once each and in order are all accepted, each acknowledged
     * with the next sequence number, and the file written is the whole
     * transfer.
     */
    method ReceiveAll(source: seq<seq<byte>>) returns (replies: seq<Option<Header>>)
      requires SourceOk(source) && !skipAck
      requires status == Listening && serverAck == 1 && sink == [] && serverSeq < U32_LIMIT
      modifies this
      ensures status == Listening && serverAck == DataChunks(source) + 1 && serverSeq == old(serverSeq)
      ensures sink == Flatten(source[..DataChunks(source)])
      ensures |replies| == DataChunks(source)
      ensures forall i | 0 <= i < |replies| :: replies[i] == Some(ServerReply(serverSeq, i + 2, ACK))
    {
      replies := [];
      var n := 1;
      while n <= DataChunks(source)
        invariant 1 <= n <= DataChunks(source) + 1 && |replies| == n - 1
        invariant status == Listening && serverAck == n && serverSeq == old(serverSeq)
        invariant sink == Flatten(source[..n - 1])
        invariant forall i | 0 <= i < |replies| :: replies[i] == Some(ServerReply(serverSeq, i + 2, ACK))
        decreases DataChunks(source) + 1 - n
      {
        FlattenNext(source, n - 1);
        var reply := AcceptNext(source, n);
        replies := replies + [reply];
        n := n + 1;
      }
    }

    /**
     * The datagram of data packet n arriving when server_ack is n: accepted,
     * acknowledged with n + 1, and its chunk appended to the file.
     */
    method AcceptNext(source: seq<seq<byte>>, n: nat) returns (reply: Option<Header>)
      requires SourceOk(source) && !skipAck && 1 <= n <= |source|
      requires status == Listening && serverAck == n && serverSeq < U32_LIMIT
      modifies this
      ensures status == Listening && serverAck == n + 1 && serverSeq == old(serverSeq)
      ensures sink == old(sink) + source[n - 1]
      ensures reply == Some(ServerReply(serverSeq, n + 1, ACK))
    {
      DataPacketArrives(source, n);
      reply := OnDatagram(Encode(PacketFor(source, n)));
    }

    /**
     * The SYN branch is not idempotent: a SYN the network delivers twice
     * bumps server_ack a second time, so data packet 1 is then dropped
     * without a reply and packet 2 is written as the start of the file.
     */
    method DuplicatedSyn(source: seq<seq<byte>>) returns (replies: seq<Option<Header>>)
      requires SourceOk(source) && !skipAck && 2 <= |source|
      requires status == Listening && serverAck == 1 && sink == [] && serverSeq < U32_LIMIT
      modifies this
      ensures status == Listening && serverAck == 3 && serverSeq == old(serverSeq) && sink == source[1]
      ensures replies == [Some(ServerReply(serverSeq, 2, BitOr(SYN, ACK))), None, Some(ServerReply(serverSeq, 3, ACK))]
    {
      ControlFlags();
      assert Pow2(3) == 8;
      var again := OnDatagram(SynPacket());
      PacketForOnWire(source, 1);
      DataPacketArrives(source, 1);
      var first := OnDatagram(Encode(PacketFor(source, 1)));
      var second := AcceptNext(source, 2);
      replies := [again, first, second];
    }
  }
}
