/**
 * The Selective-Repeat sender: up to five packets in flight, each with its
 * own acknowledgment flag. Each round fills the window, transmits the
 * packets not yet acknowledged, and reads replies while any packet of the
 * window is unacknowledged; a reply acknowledging packet s (number s + 1)
 * marks that packet alone. A timeout ends the round with the window as it
 * is; when every packet is acknowledged the acknowledged head of the window
 * slides out.
 */
module SelectiveRepeat {
  import opened Codec
  import opened Transfer

  /** k acknowledgment flags, all still unset: what the fill loop appends. */
  function Unacked(k: nat): (r: seq<bool>)
    ensures |r| == k && forall i | 0 <= i < k :: !r[i]
  {
    seq(k, i => false)
  }

  /**
   * The packets the transmit loop sends, in window order: those not yet
   * acknowledged, except the one at position omit (the packet the skip_seq
   * hook leaves out; -1 when it does not fire).
   */
  function Pending(window: seq<Packet>, received: seq<bool>, omit: int): (p: seq<Packet>)
    requires |window| == |received|
    ensures |p| <= |window|
    decreases |window|
  {
    if window == [] then []
    else
      var i := |window| - 1;
      Pending(window[..i], received[..i], omit) + (if i == omit || received[i] then [] else [window[i]])
  }

  /** Pending never sends a packet whose acknowledgment has arrived, nor the omitted one, and sends every other one. */
  lemma {:induction false} PendingExactly(window: seq<Packet>, received: seq<bool>, omit: int, p: Packet)
    requires |window| == |received|
    ensures p in Pending(window, received, omit) <==>
      exists i | 0 <= i < |window| :: i != omit && !received[i] && window[i] == p
    decreases |window|
  {
    if window != [] {
      var i := |window| - 1;
      PendingExactly(window[..i], received[..i], omit, p);
      if p in Pending(window, received, omit) && p !in Pending(window[..i], received[..i], omit) {
        assert i != omit && !received[i] && window[i] == p;
      }
    }
  }

  /** The transmit loop's step: the packet at position i is sent unless it is omitted or acknowledged. */
  lemma PendingNext(window: seq<Packet>, received: seq<bool>, omit: int, i: nat)
    requires |window| == |received| && i < |window|
    ensures Pending(window[..i + 1], received[..i + 1], omit) ==
      Pending(window[..i], received[..i], omit) + (if i == omit || received[i] then [] else [window[i]])
  {
    assert window[..i + 1][..i] == window[..i] && received[..i + 1][..i] == received[..i];
  }

  /**
   * The acknowledgment flags after a reply with acknowledgment number n
   * while the window holds the packets start .. end-1: the flag of packet
   * n - 1 is set when that packet is in the window, and nothing changes
   * otherwise. This is the intended check; see AckSlotAsWritten for the one
   * the client makes.
   */
  function Mark(start: nat, end: nat, received: seq<bool>, n: nat): (r: seq<bool>)
    requires |received| == end - start
    ensures |r| == |received|
    ensures forall i | 0 <= i < |r| :: r[i] == (received[i] || start + i + 1 == n)
  {
    if start < n <= end then received[n - 1 - start := true] else received
  }

  /**
   * The check the client's receive loop actually makes before marking a
   * packet: an acknowledgment number n with start < n <= end + 1 (one more
   * than any packet in the window can draw) selects slot n - 1 - start; None when that slot is
   * past the end of received, where the assignment raises IndexError.
   */
  function AckSlotAsWritten(start: nat, end: nat, received: seq<bool>, n: nat): (r: Option<seq<bool>>)
    requires |received| == end - start
    ensures r.None? <==> n == end + 1
    ensures r.Some? ==> |r.value| == |received|
  {
    if start < n <= end + 1 then
      if n - 1 - start < |received| then Some(received[n - 1 - start := true]) else None
    else Some(received)
  }

  /**
   * The check as written lets the acknowledgment number end + 1 through,
   * which no packet in the window can draw, and then indexes one past the
   * flags: the client dies of an IndexError instead of ignoring the reply.
   */
  lemma AsWrittenIndexesPastWindow(start: nat, end: nat, received: seq<bool>)
    requires |received| == end - start
    ensures start < end + 1 <= end + 1
    ensures end + 1 - 1 - start == |received|
    ensures AckSlotAsWritten(start, end, received, end + 1) == None
  {
  }

  /** Everywhere else the check as written and the intended one agree. */
  lemma AsWrittenAgreesElsewhere(start: nat, end: nat, received: seq<bool>, n: nat)
    requires |received| == end - start && n != end + 1
    ensures AckSlotAsWritten(start, end, received, n) == Some(Mark(start, end, received, n))
  {
  }

  /** How the receive loop of a round ends. */
  datatype AckOutcome = AllAcked | TimedOut | Broken | Exhausted

  /** The receive loop's result: the flags, how many events it read, and how it ended. */
  datatype MarkRun = MarkRun(received: seq<bool>, read: nat, outcome: AckOutcome)

  /**
   * The receive loop while the window holds the packets start .. end-1:
   * while some flag is unset, read an event; a timeout ends the round, a
   * short header ends the client, and a reply marks the packet it
   * acknowledges. Exhausted: the given events ran out first.
   */
  function MarkAcks(start: nat, end: nat, received: seq<bool>, events: seq<Event>): (r: MarkRun)
    requires |received| == end - start
    ensures |r.received| == |received| && r.read <= |events|
    ensures r.outcome == AllAcked <==> false !in r.received
    ensures false in received && events != [] ==> r.read >= 1
    decreases |events|
  {
    if false !in received then MarkRun(received, 0, AllAcked)
    else if events == [] then MarkRun(received, 0, Exhausted)
    else
      match events[0]
      case Timeout => MarkRun(received, 1, TimedOut)
      case ShortHeader => MarkRun(received, 1, Broken)
      case Reply(n) =>
        var r := MarkAcks(start, end, Mark(start, end, received, n), events[1..]);
        MarkRun(r.received, r.read + 1, r.outcome)
  }

  /**
   * Selective acknowledgment marks nothing on its own: a packet's flag is set
   * by a round only if one of the events the round read acknowledged exactly
   * that packet.
   */
  lemma {:induction false} MarkNeedsOwnAck(start: nat, end: nat, received: seq<bool>, events: seq<Event>, i: nat)
    requires |received| == end - start && i < |received|
    requires !received[i] && MarkAcks(start, end, received, events).received[i]
    ensures exists j | 0 <= j < MarkAcks(start, end, received, events).read :: events[j] == Reply(start + i + 1)
    decreases |events|
  {
    var n := events[0].ackNo;
    var marked := Mark(start, end, received, n);
    if marked[i] {
      assert events[0] == Reply(start + i + 1);
    } else {
      MarkNeedsOwnAck(start, end, marked, events[1..], i);
      var j :| 0 <= j < MarkAcks(start, end, marked, events[1..]).read && events[1..][j] == Reply(start + i + 1);
      assert events[j + 1] == Reply(start + i + 1);
    }
  }

  /** Replies for every unacknowledged packet, in any order, end the loop with the whole window acknowledged. */
  lemma {:induction false} AllRepliesAckAll(start: nat, end: nat, received: seq<bool>, events: seq<Event>)
    requires |received| == end - start
    requires forall i | 0 <= i < |received| :: received[i] || Reply(start + i + 1) in events
    requires forall j | 0 <= j < |events| :: events[j].Reply?
    ensures MarkAcks(start, end, received, events).outcome == AllAcked
    decreases |events|
  {
    if false in received && events != [] {
      var marked := Mark(start, end, received, events[0].ackNo);
      forall i | 0 <= i < |marked|
        ensures marked[i] || Reply(start + i + 1) in events[1..]
      {
        if !marked[i] {
          assert Reply(start + i + 1) != events[0];
          var j :| 0 <= j < |events| && events[j] == Reply(start + i + 1);
          assert events[1..][j - 1] == events[j];
        }
      }
      AllRepliesAckAll(start, end, marked, events[1..]);
    }
  }

  /** The receive loop has read used events and the flags are now received: the rest accounts for the whole loop. */
  ghost predicate MarksSoFar(start: nat, end: nat, initial: seq<bool>, events: seq<Event>, used: nat, received: seq<bool>)
  {
    && |initial| == end - start && |received| == end - start && used <= |events|
    && var r := MarkAcks(start, end, received, events[used..]);
       MarkAcks(start, end, initial, events) == MarkRun(r.received, used + r.read, r.outcome)
  }

  lemma MarksStart(start: nat, end: nat, initial: seq<bool>, events: seq<Event>)
    requires |initial| == end - start
    ensures MarksSoFar(start, end, initial, events, 0, initial)
  {
    assert events[0..] == events;
  }

  lemma MarksReply(start: nat, end: nat, initial: seq<bool>, events: seq<Event>, used: nat, received: seq<bool>)
    requires MarksSoFar(start, end, initial, events, used, received)
    requires false in received && used < |events| && events[used].Reply?
    ensures MarksSoFar(start, end, initial, events, used + 1, Mark(start, end, received, events[used].ackNo))
  {
    assert events[used..][0] == events[used] && events[used..][1..] == events[used + 1..];
  }

  lemma MarksStop(start: nat, end: nat, initial: seq<bool>, events: seq<Event>, used: nat, received: seq<bool>)
    requires MarksSoFar(start, end, initial, events, used, received)
    requires false in received && used < |events| && !events[used].Reply?
    ensures MarkAcks(start, end, initial, events) ==
      MarkRun(received, used + 1, if events[used].Timeout? then TimedOut else Broken)
  {
    assert events[used..][0] == events[used];
  }

  lemma MarksEnd(start: nat, end: nat, initial: seq<bool>, events: seq<Event>, used: nat, received: seq<bool>)
    requires MarksSoFar(start, end, initial, events, used, received)
    requires false !in received || used == |events|
    ensures MarkAcks(start, end, initial, events) ==
      MarkRun(received, used, if false !in received then AllAcked else Exhausted)
  {
    assert used == |events| ==> events[used..] == [];
  }

  /** The number of acknowledged packets at the head of the window. */
  function AckedPrefix(received: seq<bool>): (k: nat)
    ensures k <= |received|
    ensures forall i | 0 <= i < k :: received[i]
    ensures k < |received| ==> !received[k]
  {
    if received == [] || !received[0] then 0 else 1 + AckedPrefix(received[1..])
  }

  /** Whatever a transmission of a window of consecutive data packets sends frames its own chunk, below the window's end. */
  lemma PendingFramesChunks(source: seq<seq<byte>>, lo: nat, hi: nat, flags: seq<bool>, omit: int)
    requires 1 <= lo <= hi <= |source| + 1 && |flags| == hi - lo
    ensures FramesChunks(source, Pending(PacketRange(source, lo, hi), flags, omit), hi)
  {
    var w := PacketRange(source, lo, hi);
    var p := Pending(w, flags, omit);
    forall i | 0 <= i < |p|
      ensures 1 <= p[i].header.seqNo < hi && p[i].header.seqNo <= |source| && p[i] == PacketFor(source, p[i].header.seqNo)
    {
      PendingExactly(w, flags, omit, p[i]);
      var j :| 0 <= j < |w| && j != omit && !flags[j] && w[j] == p[i];
      assert p[i] == PacketFor(source, lo + j);
    }
  }

  class SelectiveRepeatSender {
    const source: seq<seq<byte>>
    const skipSeq: bool  // the skip_seq test case
    var windowStart: nat
    var windowEnd: nat
    var window: seq<Packet>
    var received: seq<bool>
    var imageData: seq<byte>
    var skipped: bool
    var filePos: nat  // file position: how many chunks have been read
    var failed: bool  // a reply header could not be unpacked and the exception ended the client

    /**
     * window and received run in parallel and hold at most five entries;
     * window holds the packets window_start_seq .. window_end_seq - 1, each
     * framing its own chunk; image_data is the chunk read for
     * window_end_seq, and every earlier read returned data.
     */
    ghost predicate Valid()
      reads this
    {
      && SourceOk(source)
      && |window| == |received| <= WINDOW_SLOTS
      && 1 <= windowStart <= windowEnd <= |source| + 1
      && windowEnd - windowStart == |window|
      && filePos == windowEnd
      && ReadsNonEmpty(source, windowEnd - 1)
      && imageData == ReadChunk(source, windowEnd - 1)
      && window == PacketRange(source, windowStart, windowEnd)
    }

    /** The outer loop goes on: data left to read or packets left unacknowledged, and no exception. */
    predicate Sending()
      reads this
    {
      (imageData != [] || window != []) && !failed
    }

    /** The set-up before the loop: both counters 1, empty deques and the first chunk read. */
    constructor (source: seq<seq<byte>>, skipSeq: bool)
      requires SourceOk(source)
      ensures Valid() && this.source == source && this.skipSeq == skipSeq
      ensures windowStart == windowEnd == 1 && window == [] && received == [] && !skipped && !failed
    {
      this.source := source;
      this.skipSeq := skipSeq;
      windowStart := 1;
      windowEnd := 1;
      window := [];
      received := [];
      imageData := ReadChunk(source, 0);
      skipped := false;
      filePos := 1;
      failed := false;
    }

    /** file.read(1460). */
    method Read() returns (chunk: seq<byte>)
      modifies this`filePos
      ensures chunk == ReadChunk(source, old(filePos)) && filePos == old(filePos) + 1
    {
      chunk := ReadChunk(source, filePos);
      filePos := filePos + 1;
    }

    /**
     * One pass of the fill loop: frame the chunk in hand under
     * window_end_seq, append it to the window with an unset flag and read
     * the next chunk.
     */
    method Push()
      requires Valid() && imageData != [] && |window| < WINDOW_SLOTS
      modifies this`window, this`received, this`windowEnd, this`imageData, this`filePos
      ensures Valid()
      ensures window == old(window) + [DataPacket(old(windowEnd), old(imageData))]
      ensures received == old(received) + [false] && windowEnd == old(windowEnd) + 1
    {
      PacketRangeNext(source, windowStart, windowEnd);
      ReadsNonEmptyNext(source, windowEnd - 1);
      var dataPacket := DataPacket(windowEnd, imageData);
      window := window + [dataPacket];
      received := received + [false];
      windowEnd := windowEnd + 1;
      imageData := Read();
    }

    /**
     * The fill loop: frame chunks under window_end_seq, with an unset flag
     * each, until the window holds five packets or a read comes back empty.
     */
    method Fill()
      requires Valid()
      modifies this`window, this`received, this`windowEnd, this`imageData, this`filePos
      ensures Valid()
      ensures windowEnd >= old(windowEnd)
      ensures received == old(received) + Unacked(windowEnd - old(windowEnd))
      ensures |window| == WINDOW_SLOTS || imageData == []
      ensures old(imageData) != [] && old(|window|) < WINDOW_SLOTS ==> |window| > old(|window|)
    {
      while imageData != [] && |window| < WINDOW_SLOTS
        invariant Valid()
        invariant windowEnd >= old(windowEnd)
        invariant received == old(received) + Unacked(windowEnd - old(windowEnd))
        invariant |window| > old(|window|) || imageData == old(imageData)
        decreases WINDOW_SLOTS - |window|
      {
        Push();
        assert received == old(received) + Unacked(windowEnd - old(windowEnd));
      }
    }

    /**
     * The transmit loop: the packets of the window not yet acknowledged go
     * out in order; the first time the skip_seq hook meets packet 3 it
     * leaves that packet out (whether or not it was acknowledged) and records
     * that it has fired.
     */
    method Transmit() returns (sent: seq<Packet>)
      requires Valid()
      modifies this`skipped
      ensures var fires := SkipFires(skipSeq, old(skipped), windowStart, windowEnd);
        sent == Pending(window, received, if fires then SKIPPED_SEQ - windowStart else -1) &&
        skipped == (old(skipped) || fires)
    {
      ghost var fires := SkipFires(skipSeq, skipped, windowStart, windowEnd);
      ghost var omit: int := if fires then SKIPPED_SEQ - windowStart else -1;
      sent := [];
      for i := 0 to |window|
        invariant skipped == (old(skipped) || (fires && i > omit))
        invariant sent == Pending(window[..i], received[..i], omit)
      {
        PendingNext(window, received, omit, i);
        var packet := window[i];
        assert packet.header.seqNo == windowStart + i;
        if skipSeq && !skipped && packet.header.seqNo == SKIPPED_SEQ {
          skipped := true;
          continue;
        }
        if received[i] {
          continue;
        }
        sent := sent + [packet];
      }
      assert window[..|window|] == window && received[..|received|] == received;
    }

    /**
     * One reply's acknowledgment number n: the flag of packet n - 1 is set
     * when that packet is in the window, and no other flag changes.
     */
    method OnAck(n: nat)
      requires |received| == windowEnd - windowStart
      modifies this`received
      ensures |received| == old(|received|)
      ensures forall i | 0 <= i < |received| :: received[i] == (old(received[i]) || windowStart + i + 1 == n)
    {
      if windowStart < n <= windowEnd {
        received := received[(n - 1) - windowStart := true];
      }
    }

    /**
     * The receive loop: while some packet of the window is unacknowledged,
     * read an event and mark what it acknowledges; a timeout ends it early.
     */
    method ReceiveAcks(events: seq<Event>) returns (used: nat, outcome: AckOutcome)
      requires |received| == windowEnd - windowStart && !failed
      modifies this`received, this`failed
      ensures var r := MarkAcks(windowStart, windowEnd, old(received), events);
        received == r.received && used == r.read && outcome == r.outcome && failed == (outcome == Broken)
    {
      ghost var initial := received;
      used := 0;
      MarksStart(windowStart, windowEnd, initial, events);
      while false in received && used < |events|
        invariant MarksSoFar(windowStart, windowEnd, initial, events, used, received) && !failed
        decreases |events| - used
      {
        var ev := events[used];
        match ev
        case Timeout =>
          MarksStop(windowStart, windowEnd, initial, events, used, received);
          used := used + 1;
          outcome := TimedOut;
          return;
        case ShortHeader =>
          MarksStop(windowStart, windowEnd, initial, events, used, received);
          used := used + 1;
          failed := true;
          outcome := Broken;
          return;
        case Reply(n) =>
          MarksReply(windowStart, windowEnd, initial, events, used, received);
          ghost var marked := Mark(windowStart, windowEnd, received, n);
          OnAck(n);
          assert received == marked;
          used := used + 1;
      }
      MarksEnd(windowStart, windowEnd, initial, events, used, received);
      outcome := if false !in received then AllAcked else Exhausted;
    }

    /**
     * The slide: pop acknowledged packets off the head of the window. The
     * window afterwards is empty or starts with an unacknowledged packet,
     * and window_start_seq has grown by the number of packets popped.
     */
    method Slide()
      requires |window| == |received|
      modifies this`window, this`received, this`windowStart
      ensures received == [] || !received[0]
      ensures var k := AckedPrefix(old(received));
        window == old(window)[k..] && received == old(received)[k..] && windowStart == old(windowStart) + k
    {
      ghost var k := 0;
      while received != [] && received[0]
        invariant |window| == |received| && k <= |old(received)|
        invariant window == old(window)[k..] && received == old(received)[k..] && windowStart == old(windowStart) + k
        invariant AckedPrefix(old(received)) == k + AckedPrefix(received)
        decreases |received|
      {
        window := window[1..];
        received := received[1..];
        windowStart := windowStart + 1;
        k := k + 1;
      }
    }

    /**
     * The receive loop followed by the slide, which the loop reaches only once
     * every packet of the window is acknowledged: the window then empties and
     * window_start_seq catches up with window_end_seq. Otherwise the window
     * stays where it was, holding at least one unacknowledged packet.
     */
    method Receive(events: seq<Event>) returns (used: nat, outcome: AckOutcome)
      requires Valid() && !failed
      modifies this`received, this`failed, this`window, this`windowStart
      ensures Valid()
      ensures var r := MarkAcks(old(windowStart), windowEnd, old(received), events);
        && used == r.read && outcome == r.outcome && failed == (outcome == Broken)
        && (outcome == AllAcked ==> windowStart == windowEnd && window == [])
        && (outcome != AllAcked ==> windowStart == old(windowStart) && window == old(window) && received == r.received)
      ensures window == [] || false in received
    {
      used, outcome := ReceiveAcks(events);
      if outcome == AllAcked {
        assert AckedPrefix(received) == |received|;
        Slide();
      }
    }

    /**
     * The first half of an iteration of the outer loop: fill the window, then
     * transmit what is unacknowledged. Some packet of the window is
     * unacknowledged afterwards, so the receive loop that follows reads at
     * least one event.
     */
    method Send() returns (sent: seq<Packet>)
      requires Valid() && Sending() && (window == [] || false in received)
      modifies this`window, this`received, this`windowEnd, this`imageData, this`filePos, this`skipped
      ensures Valid()
      ensures windowStart == old(windowStart) && old(windowEnd) <= windowEnd
      ensures windowStart < windowEnd && windowEnd - windowStart <= WINDOW_SLOTS
      ensures windowEnd - windowStart == WINDOW_SLOTS || imageData == []
      ensures received == old(received) + Unacked(windowEnd - old(windowEnd)) && false in received
      ensures var fires := SkipFires(skipSeq, old(skipped), windowStart, windowEnd);
        && sent == Pending(PacketRange(source, windowStart, windowEnd), received, if fires then SKIPPED_SEQ - windowStart else -1)
        && skipped == (old(skipped) || fires)
    {
      ghost var before := received;
      Fill();
      assert false in received by {
        if false in before {
          var i :| 0 <= i < |before| && !before[i];
          assert !received[i];
        } else {
          assert !received[|received| - 1];
        }
      }
      assert window == PacketRange(source, windowStart, windowEnd);
      sent := Transmit();
    }

    /**
     * The outer loop of selective_repeat, driven by the events the network
     * delivers, until no data is left to send or acknowledge, a reply cannot
     * be unpacked, or the given events run out. Every packet sent frames its
     * own non-empty chunk, the window only moves forward, and a loop that ends
     * normally has had every chunk of the file acknowledged.
     */
    method Run(events: seq<Event>) returns (sent: seq<Packet>, used: nat)
      requires Valid() && (window == [] || false in received)
      modifies this
      ensures Valid()
      ensures used <= |events|
      ensures !Sending() || used == |events|
      ensures FramesChunks(source, sent, windowEnd)
      ensures forall i | 0 <= i < |sent| :: sent[i].payload != []
      ensures old(windowStart) <= windowStart
      ensures !Sending() && !failed ==> windowStart == windowEnd == DataChunks(source) + 1
    {
      sent, used := [], 0;
      while Sending() && used < |events|
        invariant Valid() && used <= |events|
        invariant window == [] || false in received
        invariant FramesChunks(source, sent, windowEnd)
        invariant old(windowStart) <= windowStart
        decreases |events| - used
      {
        ghost var lo, hi := windowStart, windowEnd;
        ghost var skippedBefore := skipped;
        var s := Send();
        assert FramesChunks(source, sent + s, windowEnd) by {
          PendingFramesChunks(source, lo, windowEnd, received, if SkipFires(skipSeq, skippedBefore, lo, windowEnd) then SKIPPED_SEQ - lo else -1);
          FramesChunksAppend(source, sent, s, hi, windowEnd);
        }
        sent := sent + s;
        var n, _ := Receive(events[used..]);
        used := used + n;
      }
      FramedChunksNonEmpty(source, sent, windowEnd);
      if !Sending() && !failed {
        EndOfData(source, windowEnd - 1);
      }
    }
  }
}
