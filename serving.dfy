/**
 * What the two server receive loops share beyond the handshake branches:
 * the datagram as the loop sees it once parse_header has run, which
 * datagrams a client that frames the file faithfully can send once the
 * connection is open, and the skip_ack test hook.
 */
module Serving {
  import opened Codec
  import opened Transfer
  import opened Handshake

  /**
   * A datagram after parse_header(packet[:12]): empty (the while condition
   * fails), too short for a header (struct.unpack raises), or a parsed
   * header together with the datagram's bytes.
   */
  datatype Arrival = Closed | Truncated | Datagram(header: Header, bytes: seq<byte>)

  /**
   * The arrival a datagram d becomes: Closed exactly when d is empty,
   * Truncated exactly when it is shorter than a header, and otherwise the
   * header the codec decodes from d, kept with d itself.
   */
  function Arrived(d: seq<byte>): (a: Arrival)
    ensures a.Closed? <==> d == []
    ensures a.Truncated? <==> 0 < |d| < HEADER_SIZE
    ensures a.Datagram? ==> a.bytes == d && |d| >= HEADER_SIZE && Packable(a.header)
    ensures a.Datagram? ==> Decode(d) == Some(Packet(a.header, d[HEADER_SIZE..]))
  {
    match Decode(d)
    case None => if d == [] then Closed else Truncated
    case Some(p) => Datagram(p.header, d)
  }

  /** packet[DRTP_HEADER_SIZE:]: the bytes after the header, none if there are not that many. */
  function Body(d: seq<byte>): (b: seq<byte>)
    ensures |d| >= HEADER_SIZE ==> b == d[HEADER_SIZE..]
    ensures |d| < HEADER_SIZE ==> b == []
  {
    if |d| < HEADER_SIZE then [] else d[HEADER_SIZE..]
  }

  /** What the server writes from a datagram is the payload the codec decodes from it. */
  lemma BodyIsPayload(d: seq<byte>)
    requires |d| >= HEADER_SIZE
    ensures Body(d) == ReceivePacket(d).1
    ensures Decode(d).Some? && Body(d) == Decode(d).value.payload
  {
  }

  /** An arrival the server loop can see: a parsed header is always one struct.pack accepts. */
  predicate WellFormed(a: Arrival)
  {
    a.Datagram? ==> Packable(a.header)
  }

  /**
   * An arrival consistent with the file: an empty or short datagram (they end
   * the loop), or a packet without SYN or FIN whose payload, when it is a data
   * packet, is the chunk of its own sequence number.
   */
  predicate Faithful(source: seq<seq<byte>>, a: Arrival)
  {
    a.Datagram? ==>
      && Packable(a.header)
      && !HasBit(a.header.flags, 3) && !HasBit(a.header.flags, 1)
      && (!IsControl(a.header) ==>
            1 <= a.header.seqNo <= |source| && Body(a.bytes) == source[a.header.seqNo - 1])
  }

  /**
   * The datagrams a sender puts on the wire after the handshake arrive
   * faithful: every data packet it frames, and the ACK(1, 1) that completes
   * the handshake.
   */
  lemma SenderDatagramsFaithful(source: seq<seq<byte>>, n: nat)
    requires SourceOk(source) && 1 <= n <= |source|
    ensures Faithful(source, Arrived(Encode(PacketFor(source, n))))
    ensures Faithful(source, Arrived(HandshakeAckPacket()))
  {
    PacketForOnWire(source, n);
    ArrivedEncoding(PacketFor(source, n));
    var ack := Packet(Header(1, 1, ACK, 0), []);
    assert HandshakeAckPacket() == Encode(ack);
    ArrivedEncoding(ack);
    assert Pow2(1) == 2 && Pow2(2) == 4 && Pow2(3) == 8;
  }

  /** Every packet struct.pack accepts arrives as itself: its own header, with the datagram kept whole. */
  lemma ArrivedEncoding(p: Packet)
    requires Packable(p.header)
    ensures Arrived(Encode(p)) == Datagram(p.header, Encode(p))
  {
    PacketRoundTrip(p);
  }

  /**
   * The framed data packet n arrives as a data packet: its own header, none
   * of SYN, FIN and ACK set, and chunk n as its body.
   */
  lemma DataPacketArrives(source: seq<seq<byte>>, n: nat)
    requires SourceOk(source) && 1 <= n <= |source|
    ensures Arrived(Encode(PacketFor(source, n))) == Datagram(Header(n, 1, 0, 0), Encode(PacketFor(source, n)))
    ensures !IsControl(Header(n, 1, 0, 0)) && Body(Encode(PacketFor(source, n))) == source[n - 1]
  {
    PacketForOnWire(source, n);
    ArrivedEncoding(PacketFor(source, n));
  }

  /** The skip_ack hook fires: it is on, it has not fired yet, and server_ack is 5. */
  predicate SkipAckFires(skipAck: bool, skipped: bool, serverAck: nat)
  {
    skipAck && !skipped && serverAck == 5
  }

  /** A faithful control packet only ever takes the ACK branch: no reply, server_ack unchanged. */
  lemma FaithfulControl(source: seq<seq<byte>>, a: Arrival, serverAck: nat, serverSeq: nat)
    requires Faithful(source, a) && a.Datagram? && IsControl(a.header) && serverSeq < U32_LIMIT
    ensures ServerControl(serverAck, serverSeq, a.header) ==
      ControlOutcome(serverAck, if serverSeq == 0 then a.header.ackNo else serverSeq, None, Listening)
  {
  }
}
