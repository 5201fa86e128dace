/**
 * The Go-Back-N sender: up to five packets in flight. Each round fills the
 * window from the file, transmits the whole window, and then reads at most
 * one reply per packet in it; a reply whose acknowledgment number is one past
 * the oldest packet's sequence number pops that packet. A timeout ends the
 * round early, so the next round transmits the remaining window again.
 */
module GoBackN {
  import opened Codec
  import opened Transfer

  /** How one round's receive loop ends: replies read, packets popped, and whether a header could not be unpacked. */
  datatype AckRun = AckRun(read: nat, popped: nat, broken: bool)

  /**
   * The receive loop of a round whose oldest packet has sequence number base,
   * reading at most budget replies from events: a timeout ends it, a short
   * header ends the client, and a reply acknowledging base + 1 pops the
   * oldest packet (the next one then becomes the oldest).
   */
  function CumulativeAcks(base: nat, budget: nat, events: seq<Event>): (r: AckRun)
    ensures r.popped <= r.read <= budget && r.read <= |events|
    ensures budget > 0 && events != [] ==> r.read >= 1
    decreases budget
  {
    if budget == 0 || events == [] then AckRun(0, 0, false)
    else
      match events[0]
      case Timeout => AckRun(1, 0, false)
      case ShortHeader => AckRun(1, 0, true)
      case Reply(n) =>
        var step := if n == base + 1 then 1 else 0;
        var r := CumulativeAcks(base + step, budget - 1, events[1..]);
        AckRun(r.read + 1, r.popped + step, r.broken)
  }

  /**
   * The receive loop has read used replies and the oldest packet now has
   * sequence number base: what is left of the loop accounts for the rest of
   * the whole loop's outcome.
   */
  ghost predicate AcksSoFar(lo: nat, budget: nat, events: seq<Event>, used: nat, base: nat)
  {
    && used <= budget && used <= |events| && lo <= base
    && var r := CumulativeAcks(base, budget - used, events[used..]);
       CumulativeAcks(lo, budget, events) == AckRun(used + r.read, (base - lo) + r.popped, r.broken)
  }

  lemma AcksStart(lo: nat, budget: nat, events: seq<Event>)
    ensures AcksSoFar(lo, budget, events, 0, lo)
  {
    assert events[0..] == events;
  }

  lemma AcksReply(lo: nat, budget: nat, events: seq<Event>, used: nat, base: nat)
    requires AcksSoFar(lo, budget, events, used, base) && used < budget && used < |events| && events[used].Reply?
    ensures AcksSoFar(lo, budget, events, used + 1, if events[used].ackNo == base + 1 then base + 1 else base)
  {
    assert events[used..][0] == events[used] && events[used..][1..] == events[used + 1..];
  }

  lemma AcksStop(lo: nat, budget: nat, events: seq<Event>, used: nat, base: nat)
    requires AcksSoFar(lo, budget, events, used, base) && used < budget && used < |events| && !events[used].Reply?
    ensures CumulativeAcks(lo, budget, events) == AckRun(used + 1, base - lo, events[used].ShortHeader?)
  {
    assert events[used..][0] == events[used];
  }

  lemma AcksEnd(lo: nat, budget: nat, events: seq<Event>, used: nat, base: nat)
    requires AcksSoFar(lo, budget, events, used, base) && (used == budget || used == |events|)
    ensures CumulativeAcks(lo, budget, events) == AckRun(used, base - lo, false)
  {
  }

  /** Replies that acknowledge the packets of a window one by one, oldest first, pop the whole window. */
  lemma {:induction false} InOrderAcksPopAll(base: nat, budget: nat, events: seq<Event>)
    requires budget <= |events|
    requires forall i | 0 <= i < budget :: Acknowledges(events[i], base + i + 1)
    ensures CumulativeAcks(base, budget, events) == AckRun(budget, budget, false)
    decreases budget
  {
    if budget > 0 {
      assert Acknowledges(events[0], base + 1);
      forall i | 0 <= i < budget - 1
        ensures Acknowledges(events[1..][i], base + 1 + i + 1)
      {
        assert events[1..][i] == events[i + 1];
      }
      InOrderAcksPopAll(base + 1, budget - 1, events[1..]);
    }
  }

  /**
   * Cumulative acknowledgment never skips a packet: a round pops its oldest
   * packet only if one of the replies it read acknowledged exactly that packet.
   */
  lemma {:induction false} PopNeedsOldestAck(base: nat, budget: nat, events: seq<Event>)
    requires CumulativeAcks(base, budget, events).popped > 0
    ensures exists i | 0 <= i < CumulativeAcks(base, budget, events).read :: Acknowledges(events[i], base + 1)
    decreases budget
  {
    if events[0].ackNo == base + 1 {
      assert Acknowledges(events[0], base + 1);
    } else {
      PopNeedsOldestAck(base, budget - 1, events[1..]);
      var i :| 0 <= i < CumulativeAcks(base, budget - 1, events[1..]).read && Acknowledges(events[1..][i], base + 1);
      assert Acknowledges(events[i + 1], base + 1);
    }
  }

  class GoBackNSender {
    const source: seq<seq<byte>>
    const skipSeq: bool  // the skip_seq test case
    var clientSeq: nat
    var imageData: seq<byte>
    var window: seq<Packet>
    var skipped: bool
    var filePos: nat  // file position: how many chunks have been read
    var failed: bool  // a reply header could not be unpacked and the exception ended the client

    /**
     * The window holds at most five packets with the consecutive sequence
     * numbers client_seq - len(window) .. client_seq - 1, each framing its own
     * chunk; image_data is the chunk read for client_seq, and every earlier
     * read returned data.
     */
    ghost predicate Valid()
      reads this
    {
      && SourceOk(source)
      && |window| <= WINDOW_SLOTS
      && |window| < clientSeq <= |source| + 1
      && filePos == clientSeq
      && ReadsNonEmpty(source, clientSeq - 1)
      && imageData == ReadChunk(source, clientSeq - 1)
      && window == PacketRange(source, clientSeq - |window|, clientSeq)
    }

    /** The sequence number of the oldest unacknowledged packet (client_seq when the window is empty). */
    function Base(): (b: nat)
      reads this
      requires |window| <= clientSeq
    {
      clientSeq - |window|
    }

    /** The outer loop goes on: data left to read or packets left unacknowledged, and no exception. */
    predicate Sending()
      reads this
    {
      (imageData != [] || window != []) && !failed
    }

    /** The set-up before the loop: client_seq 1, an empty window and the first chunk read. */
    constructor (source: seq<seq<byte>>, skipSeq: bool)
      requires SourceOk(source)
      ensures Valid() && this.source == source && this.skipSeq == skipSeq
      ensures clientSeq == 1 && window == [] && !skipped && !failed
    {
      this.source := source;
      this.skipSeq := skipSeq;
      clientSeq := 1;
      imageData := ReadChunk(source, 0);
      window := [];
      skipped := false;
      filePos := 1;
      failed := false;
    }

    /** file.read(1460). */
    method Read() returns (chunk: seq<byte>)
      modifies this`filePos
      ensures chunk == ReadChunk(source, old(filePos)) && filePos == old(filePos) + 1
    {
      chunk := ReadChunk(source, filePos);
      filePos := filePos + 1;
    }

    /**
     * One pass of the fill loop: frame the chunk in hand under client_seq,
     * append it to the window and read the next chunk.
     */
    method Push()
      requires Valid() && imageData != [] && |window| < WINDOW_SLOTS
      modifies this`window, this`clientSeq, this`imageData, this`filePos
      ensures Valid()
      ensures window == old(window) + [DataPacket(old(clientSeq), old(imageData))]
      ensures clientSeq == old(clientSeq) + 1
    {
      PacketRangeNext(source, clientSeq - |window|, clientSeq);
      ReadsNonEmptyNext(source, clientSeq - 1);
      var dataPacket := DataPacket(clientSeq, imageData);
      window := window + [dataPacket];
      clientSeq := clientSeq + 1;
      imageData := Read();
    }

    /**
     * The fill loop: frame chunks under successive sequence numbers until the
     * window holds five packets or a read comes back empty. The oldest
     * packet stays where it was and the packets already in the window keep
     * their places.
     */
    method Fill()
      requires Valid()
      modifies this`window, this`clientSeq, this`imageData, this`filePos
      ensures Valid()
      ensures Base() == old(Base()) && clientSeq >= old(clientSeq)
      ensures window[..old(|window|)] == old(window)
      ensures |window| == WINDOW_SLOTS || imageData == []
      ensures old(imageData) != [] && old(|window|) < WINDOW_SLOTS ==> |window| > old(|window|)
    {
      while imageData != [] && |window| < WINDOW_SLOTS
        invariant Valid()
        invariant Base() == old(Base()) && clientSeq >= old(clientSeq)
        invariant window[..old(|window|)] == old(window)
        invariant |window| > old(|window|) || imageData == old(imageData)
        decreases WINDOW_SLOTS - |window|
      {
        Push();
      }
    }

    /**
     * The transmit loop: every packet of the window goes out in order, except
     * that the first time the skip_seq hook meets packet 3 it leaves that one
     * packet out and records that it has fired.
     */
    method Transmit() returns (sent: seq<Packet>)
      requires Valid()
      modifies this`skipped
      ensures SkipFires(skipSeq, old(skipped), Base(), clientSeq) ==>
        skipped && sent == Omit(window, SKIPPED_SEQ - Base())
      ensures !SkipFires(skipSeq, old(skipped), Base(), clientSeq) ==>
        skipped == old(skipped) && sent == window
    {
      var fires := SkipFires(skipSeq, skipped, Base(), clientSeq);
      var k: int := SKIPPED_SEQ - Base();
      sent := [];
      for i := 0 to |window|
        invariant skipped == (old(skipped) || (fires && i > k))
        invariant fires && i > k ==> sent == window[..k] + window[k + 1..i]
        invariant !(fires && i > k) ==> sent == window[..i]
      {
        var packet := window[i];
        if skipSeq && !skipped && packet.header.seqNo == SKIPPED_SEQ {
          skipped := true;
          continue;
        }
        sent := sent + [packet];
      }
    }

    /**
     * One reply's acknowledgment number: the oldest packet is popped exactly
     * when the number is (client_seq + 1) - len(window), the oldest sequence
     * number plus one; any other number leaves the window as it was.
     */
    method OnAck(n: nat)
      requires window != [] && |window| <= clientSeq
      modifies this`window
      ensures n == old(clientSeq + 1 - |window|) ==> window == old(window[1..])
      ensures n != old(clientSeq + 1 - |window|) ==> window == old(window)
    {
      if n == (clientSeq + 1) - |window| {
        window := window[1..];
      }
    }

    /**
     * The receive loop: read at most one reply per packet of the window. The
     * window afterwards starts as many packets later as the replies popped
     * by cumulative acknowledgment; a timeout only ends the reading.
     */
    method ReceiveAcks(events: seq<Event>) returns (used: nat)
      requires |window| <= clientSeq && !failed
      modifies this`window, this`failed
      ensures |window| <= clientSeq && old(Base()) <= Base() && window == old(window)[Base() - old(Base())..]
      ensures var r := CumulativeAcks(old(Base()), old(|window|), events);
        used == r.read && Base() == old(Base()) + r.popped && failed == r.broken
    {
      var budget := |window|;
      ghost var lo := Base();
      ghost var base: nat := lo;
      ghost var initial := window;
      used := 0;
      AcksStart(lo, budget, events);
      while used < budget && used < |events|
        invariant AcksSoFar(lo, budget, events, used, base) && !failed && base <= lo + used
        invariant base + |window| == lo + budget == clientSeq
        invariant window == initial[base - lo..]
        decreases budget - used
      {
        var ev := events[used];
        match ev
        case Timeout =>
          AcksStop(lo, budget, events, used, base);
          used := used + 1;
          return;
        case ShortHeader =>
          AcksStop(lo, budget, events, used, base);
          used := used + 1;
          failed := true;
          return;
        case Reply(n) =>
          AcksReply(lo, budget, events, used, base);
          OnAck(n);
          used, base := used + 1, if n == base + 1 then base + 1 else base;
      }
      AcksEnd(lo, budget, events, used, base);
    }

    /** The receive loop seen from the sender's invariant: the window left over still frames consecutive chunks. */
    method Receive(events: seq<Event>) returns (used: nat)
      requires Valid() && !failed
      modifies this`window, this`failed
      ensures Valid() && old(Base()) <= Base()
      ensures var r := CumulativeAcks(old(Base()), old(|window|), events);
        used == r.read && Base() == old(Base()) + r.popped && failed == r.broken
    {
      ghost var base := Base();
      used := ReceiveAcks(events);
      assert Valid() by {
        PacketRangeDrop(source, base, clientSeq, window);
      }
    }

    /**
     * The first half of a round: fill the window, then transmit it. What goes
     * out is the packets from the old oldest sequence number up to the new
     * client_seq, less packet 3 when the skip_seq hook fires.
     */
    method FillAndTransmit() returns (sent: seq<Packet>)
      requires Valid() && Sending()
      modifies this`window, this`clientSeq, this`imageData, this`filePos, this`skipped
      ensures Valid() && Base() == old(Base())
      ensures old(Base()) < clientSeq && clientSeq - old(Base()) <= WINDOW_SLOTS
      ensures clientSeq - old(Base()) == WINDOW_SLOTS || imageData == []
      ensures SkipFires(skipSeq, old(skipped), old(Base()), clientSeq) ==>
        skipped && sent == Omit(PacketRange(source, old(Base()), clientSeq), SKIPPED_SEQ - old(Base()))
      ensures !SkipFires(skipSeq, old(skipped), old(Base()), clientSeq) ==>
        skipped == old(skipped) && sent == PacketRange(source, old(Base()), clientSeq)
    {
      ghost var base := Base();
      ghost var skippedBefore := skipped;
      Fill();
      assert base < clientSeq <= base + WINDOW_SLOTS;
      ghost var filled := PacketRange(source, base, clientSeq);
      assert window == filled;
      sent := Transmit();
      assert SkipFires(skipSeq, skippedBefore, base, clientSeq) ==> sent == Omit(filled, SKIPPED_SEQ - base);
    }

    /**
     * One iteration of the outer loop: fill, transmit, then read the replies.
     * Whatever the replies leave unacknowledged is transmitted again in the
     * next round.
     */
    method Round(events: seq<Event>) returns (sent: seq<Packet>, used: nat)
      requires Valid() && Sending()
      modifies this
      ensures Valid()
      ensures old(Base()) < clientSeq && clientSeq - old(Base()) <= WINDOW_SLOTS
      ensures clientSeq - old(Base()) == WINDOW_SLOTS || imageData == []
      ensures SkipFires(skipSeq, old(skipped), old(Base()), clientSeq) ==>
        skipped && sent == Omit(PacketRange(source, old(Base()), clientSeq), SKIPPED_SEQ - old(Base()))
      ensures !SkipFires(skipSeq, old(skipped), old(Base()), clientSeq) ==>
        skipped == old(skipped) && sent == PacketRange(source, old(Base()), clientSeq)
      ensures var r := CumulativeAcks(old(Base()), clientSeq - old(Base()), events);
        used == r.read && Base() == old(Base()) + r.popped && failed == r.broken
      ensures events != [] ==> used >= 1
    {
      sent := FillAndTransmit();
      assert |window| == clientSeq - old(Base());
      used := Receive(events);
    }

    /**
     * The outer loop of go_back_n, driven by the events the network
     * delivers, until no data is left to send or acknowledge, a reply cannot
     * be unpacked, or the given events run out. Every packet sent frames its
     * own non-empty chunk, the oldest unacknowledged packet only moves
     * forward, and a loop that ends normally has had every chunk of the file
     * acknowledged.
     */
    method Run(events: seq<Event>) returns (sent: seq<Packet>, used: nat)
      requires Valid()
      modifies this
      ensures Valid()
      ensures used <= |events|
      ensures !Sending() || used == |events|
      ensures FramesChunks(source, sent, clientSeq)
      ensures forall i | 0 <= i < |sent| :: sent[i].payload != []
      ensures old(Base()) <= Base()
      ensures !Sending() && !failed ==> Base() == clientSeq == DataChunks(source) + 1
    {
      sent, used := [], 0;
      while Sending() && used < |events|
        invariant Valid() && used <= |events|
        invariant FramesChunks(source, sent, clientSeq)
        invariant old(Base()) <= Base()
        decreases |events| - used
      {
        ghost var lo := Base();
        ghost var hi := clientSeq;
        var s, n := Round(events[used..]);
        RangeFramesChunks(source, lo, clientSeq, s, SKIPPED_SEQ - lo);
        assert FramesChunks(source, sent, clientSeq) by {
          assert hi <= clientSeq;
        }
        sent, used := sent + s, used + n;
      }
      forall i | 0 <= i < |sent|
        ensures sent[i].payload != []
      {
        assert ReadChunk(source, sent[i].header.seqNo - 1) != [];
      }
      if !Sending() && !failed {
        EndOfData(source, clientSeq - 1);
      }
    }
  }
}
