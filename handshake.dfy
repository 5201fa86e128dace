/**
 * Connection establishment and teardown.
 *
 * Client side: the fixed SYN and FIN packets, the reaction to the server's
 * SYN-ACK (reply ACK(1, 1) only when both SYN and ACK are set) and the test
 * that ends the wait for the final ACK.
 * Server side: the branches of the receive loop that handle a packet whose
 * SYN, FIN or ACK flag is set; both receiver engines share them.
 */
module Handshake {
  import opened Codec

  /** send_syn: SYN(seq=0, ack=0), window 0, no payload. */
  function SynPacket(): (p: seq<byte>)
    ensures Decode(p) == Some(Packet(Header(0, 0, SYN, 0), []))
    ensures ParseFlags(Decode(p).value.header.flags) == FlagSet(SYN, 0, 0)
  {
    PacketRoundTrip(Packet(Header(0, 0, SYN, 0), []));
    ControlFlags();
    CreatePacket(0, 0, SYN, 0, [])
  }

  /** send_syn_ack: SYN-ACK(seq=0, ack=1) advertising the window of 64. */
  function SynAckPacket(): (p: seq<byte>)
    ensures Decode(p) == Some(Packet(Header(0, 1, BitOr(SYN, ACK), WINDOW_SIZE), []))
    ensures ParseFlags(Decode(p).value.header.flags) == FlagSet(SYN, ACK, 0)
  {
    ControlFlags();
    PacketRoundTrip(Packet(Header(0, 1, BitOr(SYN, ACK), WINDOW_SIZE), []));
    CreatePacket(0, 1, BitOr(SYN, ACK), WINDOW_SIZE, [])
  }

  /** send_fin: FIN(seq=0, ack=0), window 0, no payload. */
  function FinPacket(): (p: seq<byte>)
    ensures Decode(p) == Some(Packet(Header(0, 0, FIN, 0), []))
    ensures ParseFlags(Decode(p).value.header.flags) == FlagSet(0, 0, FIN)
  {
    PacketRoundTrip(Packet(Header(0, 0, FIN, 0), []));
    ControlFlags();
    CreatePacket(0, 0, FIN, 0, [])
  }

  /** The ACK(seq=1, ack=1) the client answers a SYN-ACK with. */
  function HandshakeAckPacket(): (p: seq<byte>)
    ensures Decode(p) == Some(Packet(Header(1, 1, ACK, 0), []))
    ensures ParseFlags(Decode(p).value.header.flags) == FlagSet(0, ACK, 0)
  {
    PacketRoundTrip(Packet(Header(1, 1, ACK, 0), []));
    ControlFlags();
    CreatePacket(1, 1, ACK, 0, [])
  }

  /** What the client does with a received datagram while it waits for the SYN-ACK. */
  datatype SynAckReaction = SendAck(packet: seq<byte>) | Ignore | MalformedReply

  /**
   * handle_syn_ack: a header shorter than 12 bytes makes parse_header raise;
   * otherwise ACK(1, 1) is sent exactly when both SYN and ACK are set, and
   * anything else is ignored (the client then goes on with the transfer).
   */
  function HandleSynAck(d: seq<byte>): (r: SynAckReaction)
    ensures r.MalformedReply? <==> |d| < HEADER_SIZE
    ensures r.SendAck? <==>
      (|d| >= HEADER_SIZE && HasBit(Decode(d).value.header.flags, 3) && HasBit(Decode(d).value.header.flags, 2))
    ensures r.SendAck? ==> r.packet == HandshakeAckPacket()
  {
    match ParseHeader(ReceivePacket(d).0)
    case None => MalformedReply
    case Some(h) =>
      var f := ParseFlags(h.flags);
      if f.syn != 0 && f.ack != 0 then SendAck(HandshakeAckPacket()) else Ignore
  }

  /**
   * The client's wait for the final ACK after its FIN: the first datagram
   * with the ACK flag set ends the wait (Some(true)), any other well-formed
   * one keeps it going (Some(false)); a short header makes parse_header raise.
   */
  function FinalAckObserved(d: seq<byte>): (r: Option<bool>)
    ensures r.None? <==> |d| < HEADER_SIZE
    ensures r == Some(true) <==> |d| >= HEADER_SIZE && HasBit(Decode(d).value.header.flags, 2)
  {
    match ParseHeader(d[..if |d| < HEADER_SIZE then |d| else HEADER_SIZE])
    case None => None
    case Some(h) => Some(ParseFlags(h.flags).ack != 0)
  }

  /** The state of a server receive loop: still reading, left the loop, or left by an exception. */
  datatype ServerStatus = Listening | Stopped | Aborted

  /** A packet the server loop hands to the handshake branches rather than to the data path. */
  predicate IsControl(h: Header)
    requires Packable(h)
    ensures IsControl(h) <==> HasBit(h.flags, 3) || HasBit(h.flags, 2) || HasBit(h.flags, 1)
  {
    var f := ParseFlags(h.flags);
    f.syn != 0 || f.fin != 0 || f.ack != 0
  }

  /** The server's counters, reply and loop status after one handshake branch. */
  datatype ControlOutcome = ControlOutcome(serverAck: nat, serverSeq: nat, reply: Option<Header>, status: ServerStatus)

  /**
   * The header of a server reply: from server_seq, with the given ack number
   * and flags and window 64. It goes out as Encode(Packet(h, [])), a bare
   * 12-byte header.
   */
  function ServerReply(serverSeq: nat, ackNo: nat, flags: nat): (h: Header)
    requires serverSeq < U32_LIMIT && ackNo < U32_LIMIT && flags < U16_LIMIT
    ensures Packable(h)
  {
    Header(serverSeq, ackNo, flags, WINDOW_SIZE)
  }

  /**
   * The SYN, FIN and ACK branches of the server loop, tested in that order.
   * SYN: server_ack grows by one and a SYN-ACK carrying it is sent.
   * FIN: server_ack grows by one, a final ACK carrying it is sent, the loop ends.
   * ACK: the first one with server_seq still 0 sets server_seq to its ack number.
   * An ack number that no longer fits in 32 bits makes struct.pack raise, which
   * the server's catch-all handler turns into an abort.
   */
  function ServerControl(serverAck: nat, serverSeq: nat, h: Header): (r: ControlOutcome)
    requires Packable(h) && IsControl(h) && serverSeq < U32_LIMIT
    ensures r.serverSeq < U32_LIMIT
    ensures r.status == Aborted ==> r.reply == None && r.serverAck == serverAck && r.serverSeq == serverSeq
    ensures r.status == Aborted <==> (HasBit(h.flags, 3) || HasBit(h.flags, 1)) && serverAck + 1 >= U32_LIMIT
    ensures serverAck < U32_LIMIT ==> r.serverAck < U32_LIMIT
    ensures HasBit(h.flags, 3) && r.status != Aborted ==>
      r.serverAck == serverAck + 1 && r.serverSeq == serverSeq && r.status == Listening &&
      r.reply == Some(ServerReply(serverSeq, serverAck + 1, BitOr(SYN, ACK)))
    ensures !HasBit(h.flags, 3) && HasBit(h.flags, 1) && r.status != Aborted ==>
      r.serverAck == serverAck + 1 && r.serverSeq == serverSeq && r.status == Stopped &&
      r.reply == Some(ServerReply(serverSeq, serverAck + 1, ACK))
    ensures !HasBit(h.flags, 3) && !HasBit(h.flags, 1) ==>
      r.serverAck == serverAck && r.reply == None && r.status == Listening &&
      r.serverSeq == (if serverSeq == 0 then h.ackNo else serverSeq)
  {
    ControlFlags();
    var f := ParseFlags(h.flags);
    if f.syn != 0 then
      if serverAck + 1 >= U32_LIMIT then ControlOutcome(serverAck, serverSeq, None, Aborted)
      else ControlOutcome(serverAck + 1, serverSeq, Some(ServerReply(serverSeq, serverAck + 1, BitOr(SYN, ACK))), Listening)
    else if f.fin != 0 then
      if serverAck + 1 >= U32_LIMIT then ControlOutcome(serverAck, serverSeq, None, Aborted)
      else ControlOutcome(serverAck + 1, serverSeq, Some(ServerReply(serverSeq, serverAck + 1, ACK)), Stopped)
    else
      ControlOutcome(serverAck, if serverSeq == 0 then h.ackNo else serverSeq, None, Listening)
  }

  /**
   * The three-way handshake and the teardown, end to end: the client's SYN
   * draws a SYN-ACK to which the client answers ACK(1, 1); that ACK sets
   * server_seq to 1; the client's FIN draws a final ACK that ends the client's
   * wait, and the server leaves its loop.
   */
  lemma HandshakeExchange(serverAck: nat)
    requires serverAck + 2 < U32_LIMIT
    ensures var syn := Decode(SynPacket()).value.header;
      IsControl(syn) &&
      var open := ServerControl(serverAck, 0, syn);
      open.serverAck == serverAck + 1 && open.status == Listening && open.reply.Some? &&
      HandleSynAck(Encode(Packet(open.reply.value, []))) == SendAck(HandshakeAckPacket())
    ensures var ack := Decode(HandshakeAckPacket()).value.header;
      IsControl(ack) && ServerControl(serverAck + 1, 0, ack) == ControlOutcome(serverAck + 1, 1, None, Listening)
    ensures var fin := Decode(FinPacket()).value.header;
      IsControl(fin) &&
      var close := ServerControl(serverAck + 1, 1, fin);
      close.status == Stopped && close.reply.Some? &&
      FinalAckObserved(Encode(Packet(close.reply.value, []))) == Some(true)
  {
    ControlFlags();
    assert Pow2(1) == 2 && Pow2(2) == 4 && Pow2(3) == 8;
    var synAck := Packet(ServerReply(0, serverAck + 1, BitOr(SYN, ACK)), []);
    PacketRoundTrip(synAck);
    assert Decode(Encode(synAck)).value.header.flags == 12;
    var finalAck := Packet(ServerReply(1, serverAck + 2, ACK), []);
    PacketRoundTrip(finalAck);
    assert Encode(finalAck)[..HEADER_SIZE] == ReceivePacket(Encode(finalAck)).0;
  }
}
