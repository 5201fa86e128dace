/**
 * The server receive loop used with the Selective-Repeat sender: a
 * five-slot reassembly buffer relative to server_ack. A data packet whose
 * sequence number falls in server_ack .. server_ack + 4 is stored in its
 * slot and acknowledged on its own (ACK seq + 1); then the filled slots at
 * the head of the buffer are written out in order, each advancing
 * server_ack by one. Packets outside the buffer are dropped without a reply.
 */
module Reassembly {
  import opened Codec
  import opened Transfer
  import opened Handshake
  import opened Serving

  /** A slot of the buffer: empty (None) or the datagram stored in it. */
  type Slot = Option<seq<byte>>

  /** k empty slots: what the delivery loop appends, one per slot it pops. */
  function Empty(k: nat): (r: seq<Slot>)
    ensures |r| == k && forall i | 0 <= i < k :: r[i].None?
  {
    seq(k, i => None)
  }

  /** The number of filled slots at the head of the buffer: how many the delivery loop pops. */
  function ReadyPrefix(w: seq<Slot>): (k: nat)
    ensures k <= |w|
    ensures forall i | 0 <= i < k :: w[i].Some?
    ensures k < |w| ==> w[k].None?
  {
    if w == [] || w[0].None? then 0 else 1 + ReadyPrefix(w[1..])
  }

  /** The bytes the delivery loop writes for the first k slots, in slot order. */
  function Drained(w: seq<Slot>, k: nat): (b: seq<byte>)
    requires k <= |w|
    ensures k == 0 ==> b == []
  {
    if k == 0 then []
    else Drained(w, k - 1) + (match w[k - 1] case Some(d) => Body(d) case None => [])
  }

  /**
   * Where the delivery loop leaves server_ack ack, the file written so far
   * and the buffer w: the filled head of the buffer is popped and written in
   * slot order, an empty slot is appended per slot popped, and server_ack
   * advances by one per slot.
   */
  function Drain(ack: nat, written: seq<byte>, w: seq<Slot>): (r: (nat, seq<byte>, seq<Slot>))
    ensures |r.2| == |w| && ack <= r.0 <= ack + |w|
    ensures |written| <= |r.1| && r.1[..|written|] == written
    ensures |w| > 0 ==> r.2[0].None?
    ensures |w| > 0 && w[0].Some? ==> r.0 > ack
  {
    var k := ReadyPrefix(w);
    (ack + k, written + Drained(w, k), w[k..] + Empty(k))
  }

  /** Popping the head of the buffer after k pops is the buffer after k + 1 pops. */
  lemma PopSlot(w: seq<Slot>, k: nat)
    requires k < |w|
    ensures (w[k..] + Empty(k))[0] == w[k]
    ensures (w[k..] + Empty(k))[1..] + [None] == w[k + 1..] + Empty(k + 1)
  {
    var v, v' := w[k..] + Empty(k), w[k + 1..] + Empty(k + 1);
    assert |v[1..] + [None]| == |v'|;
    forall i | 0 <= i < |v'|
      ensures (v[1..] + [None])[i] == v'[i]
    {
      if i < |w| - k - 1 {
        assert v'[i] == w[k + 1 + i];
      }
    }
  }

  /**
   * Draining slots that hold the chunks following the ones already written
   * extends the written prefix of the file by exactly those chunks.
   */
  lemma {:induction false} DrainedChunks(source: seq<seq<byte>>, written: nat, w: seq<Slot>, k: nat)
    requires k <= |w| && written + k <= |source|
    requires forall i | 0 <= i < k :: w[i].Some? && Body(w[i].value) == source[written + i]
    ensures Flatten(source[..written]) + Drained(w, k) == Flatten(source[..written + k])
  {
    if k > 0 {
      DrainedChunks(source, written, w, k - 1);
      FlattenNext(source, written + k - 1);
    }
  }

  /**
   * The buffer is consistent with the file at server_ack ack: it has five
   * slots, and a filled slot i holds a packet carrying chunk ack + i.
   */
  ghost predicate SlotsHold(source: seq<seq<byte>>, ack: nat, w: seq<Slot>)
  {
    && |w| == WINDOW_SLOTS
    && forall i | 0 <= i < WINDOW_SLOTS :: w[i].Some? ==>
         1 <= ack + i <= |source| && Body(w[i].value) == source[ack + i - 1]
  }

  /**
   * The receiver's state agrees with the file at server_ack ack: what was
   * written is the first ack - 1 chunks, in order and each once, and the
   * buffer is consistent with it.
   */
  ghost predicate Agrees(source: seq<seq<byte>>, ack: nat, written: seq<byte>, w: seq<Slot>)
  {
    1 <= ack <= |source| + 1 && written == Flatten(source[..ack - 1]) && SlotsHold(source, ack, w)
  }

  /** Storing a faithful data packet in its own slot keeps the state in agreement with the file. */
  lemma StoreKeepsSlots(source: seq<seq<byte>>, ack: nat, written: seq<byte>, w: seq<Slot>, a: Arrival)
    requires Agrees(source, ack, written, w) && a.Datagram? && Faithful(source, a) && !IsControl(a.header)
    requires ack <= a.header.seqNo < ack + WINDOW_SLOTS
    ensures Agrees(source, ack, written, w[a.header.seqNo - ack := Some(a.bytes)])
  {
  }

  /**
   * Draining the filled head of a consistent buffer writes exactly the next
   * chunks of the file and leaves the state in agreement at the new server_ack.
   */
  lemma DrainKeepsPrefix(source: seq<seq<byte>>, ack: nat, written: seq<byte>, w: seq<Slot>)
    requires Agrees(source, ack, written, w)
    ensures var r := Drain(ack, written, w); Agrees(source, r.0, r.1, r.2)
  {
    var k := ReadyPrefix(w);
    if k > 0 {
      assert w[k - 1].Some?;
    }
    DrainedChunks(source, ack - 1, w, k);
    ShiftKeepsSlots(source, ack, w, k);
  }

  /** Popping k slots whose chunks have been written leaves a buffer consistent at server_ack ack + k. */
  lemma ShiftKeepsSlots(source: seq<seq<byte>>, ack: nat, w: seq<Slot>, k: nat)
    requires SlotsHold(source, ack, w) && k <= WINDOW_SLOTS
    ensures SlotsHold(source, ack + k, w[k..] + Empty(k))
  {
    var w' := w[k..] + Empty(k);
    forall i | 0 <= i < WINDOW_SLOTS && w'[i].Some?
      ensures 1 <= ack + k + i <= |source| && Body(w'[i].value) == source[ack + k + i - 1]
    {
      assert i + k < WINDOW_SLOTS && w'[i] == w[i + k];
    }
  }

  /**
   * Where the data path leaves server_ack, the file and the buffer for data
   * packet n, datagram d: unchanged when n is outside the buffer; otherwise d
   * is stored in its slot and, when the packet is acknowledged (drain), the
   * filled head of the buffer is written out.
   */
  function Accepted(ack: nat, written: seq<byte>, w: seq<Slot>, n: nat, d: seq<byte>, drain: bool): (r: (nat, seq<byte>, seq<Slot>))
    requires |w| == WINDOW_SLOTS
    ensures |r.2| == WINDOW_SLOTS && ack <= r.0
    ensures !(ack <= n < ack + WINDOW_SLOTS) ==> r == (ack, written, w)
    ensures ack <= n < ack + WINDOW_SLOTS && !drain ==> r.0 == ack && r.1 == written && r.2[n - ack] == Some(d)
    ensures ack <= n < ack + WINDOW_SLOTS && drain ==> |written| <= |r.1| && r.1[..|written|] == written && r.2[0].None?
    ensures n == ack && drain ==> r.0 > ack
  {
    if !(ack <= n < ack + WINDOW_SLOTS) then (ack, written, w)
    else
      var stored := w[n - ack := Some(d)];
      if !drain then (ack, written, stored)
      else
        Drain(ack, written, stored)
  }

  /**
   * The data path keeps the receiver in agreement with the file for a
   * faithful data packet, whether it is dropped, stored, or stored and
   * drained.
   */
  lemma AcceptedAgrees(source: seq<seq<byte>>, ack: nat, written: seq<byte>, w: seq<Slot>, a: Arrival, drain: bool)
    requires Agrees(source, ack, written, w) && a.Datagram? && Faithful(source, a) && !IsControl(a.header)
    ensures var r := Accepted(ack, written, w, a.header.seqNo, a.bytes, drain); Agrees(source, r.0, r.1, r.2)
  {
    var n := a.header.seqNo;
    if ack <= n < ack + WINDOW_SLOTS {
      StoreKeepsSlots(source, ack, written, w, a);
      if drain {
        DrainKeepsPrefix(source, ack, written, w[n - ack := Some(a.bytes)]);
      }
    }
  }

  /** A packet at server_ack reaching an empty buffer is written at once and leaves the buffer empty. */
  lemma AcceptedInOrder(ack: nat, written: seq<byte>, d: seq<byte>)
    ensures Accepted(ack, written, Empty(WINDOW_SLOTS), ack, d, true) == (ack + 1, written + Body(d), Empty(WINDOW_SLOTS))
  {
    var w := Empty(WINDOW_SLOTS)[0 := Some(d)];
    assert ReadyPrefix(w[1..]) == 0;
    assert Drained(w, 1) == Body(d);
    assert w[1..] + Empty(1) == Empty(WINDOW_SLOTS);
  }

  class SelectiveRepeatReceiver {
    const skipAck: bool  // the skip_ack test case
    var serverAck: nat
    var serverSeq: nat
    var skipped: bool
    var window: seq<Slot>
    var sink: seq<byte>  // the bytes written to the output file
    var status: ServerStatus

    /** The state before the loop: both counters 0, five empty slots, nothing written. */
    constructor (skipAck: bool)
      ensures this.skipAck == skipAck && serverAck == 0 && serverSeq == 0
      ensures !skipped && window == Empty(WINDOW_SLOTS) && sink == [] && status == Listening
    {
      this.skipAck := skipAck;
      serverAck := 0;
      serverSeq := 0;
      skipped := false;
      window := Empty(WINDOW_SLOTS);
      sink := [];
      status := Listening;
    }

    /**
     * The delivery loop: while the head slot is filled, pop it, append an
     * empty slot, advance server_ack and write the stored packet's payload.
     * The filled head of the buffer is written in order, the buffer keeps
     * its five slots, and its head is empty afterwards.
     */
    method Deliver()
      requires |window| == WINDOW_SLOTS
      modifies this`window, this`serverAck, this`sink
      ensures |window| == WINDOW_SLOTS && window[0].None?
      ensures (serverAck, sink, window) == Drain(old(serverAck), old(sink), old(window))
    {
      ghost var k := 0;
      while window[0].Some?
        invariant |window| == WINDOW_SLOTS && k <= ReadyPrefix(old(window))
        invariant window == old(window)[k..] + Empty(k)
        invariant serverAck == old(serverAck) + k && sink == old(sink) + Drained(old(window), k)
        decreases WINDOW_SLOTS - k
      {
        PopSlot(old(window), k);
        var packet := window[0].value;
        window := window[1..] + [None];
        serverAck := serverAck + 1;
        sink := sink + Body(packet);
        k := k + 1;
      }
    }

    /** The slot a packet with sequence number n goes to, when n is within the buffer. */
    predicate InWindow(n: nat)
      reads this
    {
      serverAck <= n < serverAck + WINDOW_SLOTS
    }

    /**
     * What storing data packet d, with sequence number n within the buffer,
     * did: either the skip_ack hook suppresses the acknowledgment once, or
     * the sequence number cannot be acknowledged and the loop aborts, or ACK
     * n + 1 is sent and the filled head of the buffer is drained; server_ack,
     * the file and the buffer are as Accepted says.
     */
    twostate predicate Stored(n: nat, d: seq<byte>, new reply: Option<Header>)
      requires |old(window)| == WINDOW_SLOTS
      reads this
    {
      var fires := SkipAckFires(skipAck, old(skipped), old(serverAck));
      && serverSeq == old(serverSeq)
      && (serverAck, sink, window) ==
           Accepted(old(serverAck), old(sink), old(window), n, d, !fires && n + 1 < U32_LIMIT)
      && if fires then
        reply == None && skipped && status == Listening
      else if n + 1 >= U32_LIMIT then
        reply == None && skipped == old(skipped) && status == Aborted
      else
        && serverSeq < U32_LIMIT && reply == Some(ServerReply(serverSeq, n + 1, ACK))
        && skipped == old(skipped) && status == Listening
    }

    /**
     * What handling data packet d, with sequence number n, did: nothing
     * unless n is within the buffer, and what storing it did otherwise.
     */
    twostate predicate DataHandled(n: nat, d: seq<byte>, new reply: Option<Header>)
      requires |old(window)| == WINDOW_SLOTS
      reads this
    {
      if old(InWindow(n)) then Stored(n, d, reply)
      else
        && reply == None && serverAck == old(serverAck) && serverSeq == old(serverSeq) && window == old(window)
        && sink == old(sink) && skipped == old(skipped) && status == Listening
    }

    /** The loop ended with status s on an empty or short datagram: no reply, nothing else changed. */
    twostate predicate Ended(s: ServerStatus, new reply: Option<Header>)
      reads this
    {
      && reply == None && status == s && serverAck == old(serverAck) && serverSeq == old(serverSeq)
      && window == old(window) && sink == old(sink) && skipped == old(skipped)
    }

    /** What a SYN, FIN or ACK packet with header h did: the handshake branches, the buffer and the file untouched. */
    twostate predicate ControlHandled(h: Header, new reply: Option<Header>)
      requires Packable(h) && IsControl(h) && old(serverSeq) < U32_LIMIT
      reads this
    {
      var c := ServerControl(old(serverAck), old(serverSeq), h);
      && serverAck == c.serverAck && serverSeq == c.serverSeq && reply == c.reply && status == c.status
      && window == old(window) && sink == old(sink) && skipped == old(skipped)
    }

    /** What a packet with header h and datagram bytes did: the handshake branches or the data path. */
    twostate predicate PacketHandled(h: Header, bytes: seq<byte>, new reply: Option<Header>)
      requires Packable(h) && |old(window)| == WINDOW_SLOTS && old(serverSeq) < U32_LIMIT
      reads this
    {
      if IsControl(h) then ControlHandled(h, reply) else DataHandled(h.seqNo, bytes, reply)
    }

    /**
     * What handling arrival a did: an empty datagram ends the loop, a short
     * one aborts it, and a parsed packet is handled as one.
     */
    twostate predicate Handled(a: Arrival, new reply: Option<Header>)
      requires WellFormed(a) && |old(window)| == WINDOW_SLOTS && old(serverSeq) < U32_LIMIT
      reads this
    {
      match a
      case Closed => Ended(Stopped, reply)
      case Truncated => Ended(Aborted, reply)
      case Datagram(h, bytes) => PacketHandled(h, bytes, reply)
    }

    /** A data packet within the buffer: store it, then acknowledge it and drain the buffer. */
    method Store(packetSeq: nat, d: seq<byte>) returns (reply: Option<Header>)
      requires |window| == WINDOW_SLOTS && InWindow(packetSeq) && status == Listening && serverSeq < U32_LIMIT
      modifies this`window, this`serverAck, this`sink, this`skipped, this`status
      ensures |window| == WINDOW_SLOTS
      ensures Stored(packetSeq, d, reply)
    {
      if skipAck && !skipped && serverAck == 5 {
        window := window[packetSeq - serverAck := Some(d)];
        reply, skipped := None, true;
      } else if packetSeq + 1 >= U32_LIMIT {
        window := window[packetSeq - serverAck := Some(d)];
        reply, status := None, Aborted;
      } else {
        reply := Acknowledge(packetSeq, d);
      }
    }

    /** The acknowledged case of Store: ACK packetSeq + 1 goes out and the filled head of the buffer is written. */
    method Acknowledge(packetSeq: nat, d: seq<byte>) returns (reply: Option<Header>)
      requires |window| == WINDOW_SLOTS && InWindow(packetSeq) && status == Listening && serverSeq < U32_LIMIT
      requires !SkipAckFires(skipAck, skipped, serverAck) && packetSeq + 1 < U32_LIMIT
      modifies this`window, this`serverAck, this`sink
      ensures |window| == WINDOW_SLOTS
      ensures Stored(packetSeq, d, reply)
    {
      window := window[packetSeq - serverAck := Some(d)];
      ghost var stored := window;
      reply := Some(ServerReply(serverSeq, packetSeq + 1, ACK));
      Deliver();
      assert (serverAck, sink, window) == Drain(old(serverAck), old(sink), stored);
    }

    /** The data path of the loop body: a packet with none of SYN, FIN and ACK set. */
    method OnData(packetSeq: nat, d: seq<byte>) returns (reply: Option<Header>)
      requires |window| == WINDOW_SLOTS && status == Listening && serverSeq < U32_LIMIT
      modifies this`window, this`serverAck, this`sink, this`skipped, this`status
      ensures |window| == WINDOW_SLOTS
      ensures DataHandled(packetSeq, d, reply)
    {
      if serverAck <= packetSeq < serverAck + WINDOW_SLOTS {
        reply := Store(packetSeq, d);
      } else {
        reply := None;
      }
    }

    /** The loop body for a packet with a parsed header h: the handshake branches or the data path. */
    method OnPacket(h: Header, bytes: seq<byte>) returns (reply: Option<Header>)
      requires Packable(h) && |window| == WINDOW_SLOTS && status == Listening && serverSeq < U32_LIMIT
      modifies this
      ensures |window| == WINDOW_SLOTS && serverSeq < U32_LIMIT
      ensures PacketHandled(h, bytes, reply)
    {
      if IsControl(h) {
        var c := ServerControl(serverAck, serverSeq, h);
        serverAck, serverSeq, reply, status := c.serverAck, c.serverSeq, c.reply, c.status;
      } else {
        reply := OnData(h.seqNo, bytes);
      }
    }

    /** One pass of the loop body, for a datagram whose header has been parsed. */
    method OnArrival(a: Arrival) returns (reply: Option<Header>)
      requires WellFormed(a) && |window| == WINDOW_SLOTS && status == Listening && serverSeq < U32_LIMIT
      modifies this
      ensures |window| == WINDOW_SLOTS && serverSeq < U32_LIMIT
      ensures Handled(a, reply)
    {
      match a
      case Closed =>
        reply, status := None, Stopped;
      case Truncated =>
        reply, status := None, Aborted;
      case Datagram(h, bytes) =>
        reply := OnPacket(h, bytes);
    }

    /**
     * One datagram off the socket: an empty one ends the loop; one too short
     * for a header makes parse_header raise, which the catch-all handler
     * turns into an abort; any other is handled as the packet it decodes to.
     */
    method OnDatagram(d: seq<byte>) returns (reply: Option<Header>)
      requires |window| == WINDOW_SLOTS && status == Listening && serverSeq < U32_LIMIT
      modifies this
      ensures |window| == WINDOW_SLOTS && serverSeq < U32_LIMIT
      ensures Handled(Arrived(d), reply)
    {
      reply := OnArrival(Arrived(d));
    }

    /**
     * The file written so far is the first server_ack - 1 chunks, in order
     * and each once, and every filled slot holds a packet carrying the chunk
     * its position stands for.
     */
    ghost predicate WrotePrefix(source: seq<seq<byte>>)
      reads this
    {
      Agrees(source, serverAck, sink, window)
    }

    /**
     * A faithful arrival keeps the file a prefix of the source and the
     * buffer consistent with it; server_ack never moves back.
     */
    method Receive(source: seq<seq<byte>>, a: Arrival) returns (reply: Option<Header>)
      requires status == Listening && serverSeq < U32_LIMIT && WrotePrefix(source) && Faithful(source, a)
      modifies this
      ensures serverSeq < U32_LIMIT && WrotePrefix(source)
      ensures old(serverAck) <= serverAck
    {
      ghost var ack, sseq := serverAck, serverSeq;
      if !a.Datagram? {
        reply := OnArrival(a);
      } else if IsControl(a.header) {
        reply := OnPacket(a.header, a.bytes);
        FaithfulControl(source, a, ack, sseq);
      } else {
        reply := ReceiveData(source, a);
      }
    }

    /** The data path for a faithful data packet: it keeps the file a prefix of the source and the buffer consistent. */
    method ReceiveData(source: seq<seq<byte>>, a: Arrival) returns (reply: Option<Header>)
      requires status == Listening && serverSeq < U32_LIMIT && WrotePrefix(source)
      requires Faithful(source, a) && a.Datagram? && !IsControl(a.header)
      modifies this
      ensures serverSeq < U32_LIMIT && WrotePrefix(source)
      ensures old(serverAck) <= serverAck
    {
      AcceptedAgrees(source, serverAck, sink, window, a, !SkipAckFires(skipAck, skipped, serverAck) && a.header.seqNo + 1 < U32_LIMIT);
      reply := OnData(a.header.seqNo, a.bytes);
    }

    /**
     * The receive loop over the datagrams the network delivers, parsed, until
     * one ends it or they run out. Fed the datagrams of a faithful sender, the
     * file is at every point the chunks 1 .. server_ack - 1 in order.
     */
    method Serve(source: seq<seq<byte>>, arrivals: seq<Arrival>) returns (replies: seq<Option<Header>>)
      requires status == Listening && serverSeq < U32_LIMIT && WrotePrefix(source)
      requires forall i | 0 <= i < |arrivals| :: Faithful(source, arrivals[i])
      modifies this
      ensures WrotePrefix(source)
      ensures |replies| <= |arrivals|
      ensures status == Listening ==> |replies| == |arrivals|
      ensures old(serverAck) <= serverAck
    {
      replies := [];
      while status == Listening && |replies| < |arrivals|
        invariant serverSeq < U32_LIMIT && WrotePrefix(source)
        invariant |replies| <= |arrivals| && old(serverAck) <= serverAck
        decreases |arrivals| - |replies|
      {
        var reply := Receive(source, arrivals[|replies|]);
        replies := replies + [reply];
      }
    }

    /**
     * Zero loss: after the SYN, the data packets 1 .. DataChunks(source)
     * arriving once each and in order are each written at once, each
     * acknowledged with its own sequence number plus one, and the file
     * written is the whole transfer with the buffer left empty.
     */
    method ReceiveAll(source: seq<seq<byte>>) returns (replies: seq<Option<Header>>)
      requires SourceOk(source) && !skipAck && window == Empty(WINDOW_SLOTS)
      requires status == Listening && serverAck == 1 && sink == [] && serverSeq < U32_LIMIT
      modifies this
      ensures status == Listening && serverAck == DataChunks(source) + 1 && serverSeq == old(serverSeq)
      ensures sink == Flatten(source[..DataChunks(source)]) && window == Empty(WINDOW_SLOTS)
      ensures |replies| == DataChunks(source)
      ensures forall i | 0 <= i < |replies| :: replies[i] == Some(ServerReply(serverSeq, i + 2, ACK))
    {
      replies := [];
      var n := 1;
      while n <= DataChunks(source)
        invariant 1 <= n <= DataChunks(source) + 1 && |replies| == n - 1
        invariant status == Listening && serverAck == n && serverSeq == old(serverSeq)
        invariant sink == Flatten(source[..n - 1]) && window == Empty(WINDOW_SLOTS)
        invariant forall i | 0 <= i < |replies| :: replies[i] == Some(ServerReply(serverSeq, i + 2, ACK))
        decreases DataChunks(source) + 1 - n
      {
        FlattenNext(source, n - 1);
        var reply := AcceptNext(source, n);
        replies := replies + [reply];
        n := n + 1;
      }
    }

    /**
     * The datagram of data packet n arriving at an empty buffer when
     * server_ack is n: written at once, acknowledged with n + 1, and the
     * buffer left empty.
     */
    method AcceptNext(source: seq<seq<byte>>, n: nat) returns (reply: Option<Header>)
      requires SourceOk(source) && !skipAck && 1 <= n <= |source| && window == Empty(WINDOW_SLOTS)
      requires status == Listening && serverAck == n && serverSeq < U32_LIMIT
      modifies this
      ensures status == Listening && serverAck == n + 1 && serverSeq == old(serverSeq)
      ensures sink == old(sink) + source[n - 1] && window == Empty(WINDOW_SLOTS)
      ensures reply == Some(ServerReply(serverSeq, n + 1, ACK))
    {
      var d := Encode(PacketFor(source, n));
      DataPacketArrives(source, n);
      AcceptedInOrder(n, sink, d);
      reply := OnDatagram(d);
    }
  }
}
