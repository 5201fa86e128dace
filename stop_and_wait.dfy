/**
 * The Stop-and-Wait sender: one data packet in flight. Each round sends the
 * current packet and waits for one reply; only an acknowledgment number of
 * client_seq + 1 moves on to the next chunk, while a timeout or any other
 * acknowledgment number resends the same packet in the next round.
 */
module StopAndWait {
  import opened Codec
  import opened Transfer

  class StopAndWaitSender {
    const source: seq<seq<byte>>
    var clientSeq: nat
    var imageData: seq<byte>
    var packet: Packet
    var filePos: nat   // file position: how many chunks have been read
    var failed: bool // a reply header could not be unpacked and the exception ended the client

    /**
     * The packet in flight frames the chunk read last under client_seq, and
     * every earlier chunk was non-empty (and acknowledged).
     */
    ghost predicate Valid()
      reads this
    {
      && SourceOk(source)
      && 1 <= clientSeq <= |source| + 1
      && filePos == clientSeq
      && ReadsNonEmpty(source, clientSeq - 1)
      && imageData == ReadChunk(source, clientSeq - 1)
      && packet == DataPacket(clientSeq, imageData)
    }

    /** More rounds follow: there is data in flight and no exception has ended the loop. */
    predicate Sending()
      reads this
    {
      imageData != [] && !failed
    }

    /** The set-up before the loop: client_seq 1, the first chunk read and framed. */
    constructor (source: seq<seq<byte>>)
      requires SourceOk(source)
      ensures Valid() && this.source == source
      ensures clientSeq == 1 && !failed
      ensures packet == DataPacket(1, ReadChunk(source, 0))
    {
      this.source := source;
      clientSeq := 1;
      imageData := ReadChunk(source, 0);
      filePos := 1;
      packet := DataPacket(1, ReadChunk(source, 0));
      failed := false;
    }

    /** file.read(1460). */
    method Read() returns (chunk: seq<byte>)
      modifies this`filePos
      ensures chunk == ReadChunk(source, old(filePos)) && filePos == old(filePos) + 1
    {
      chunk := ReadChunk(source, filePos);
      filePos := filePos + 1;
    }

    /**
     * One iteration of the loop: send the packet in flight, then react to the
     * reply (or the timeout). The counter grows by exactly one, and a new
     * chunk is read and framed, only on the acknowledgment client_seq + 1;
     * anything else leaves every field as it was.
     */
    method Round(ev: Event) returns (sent: Packet)
      requires Valid() && Sending()
      modifies this
      ensures Valid()
      ensures sent == old(packet)
      ensures failed <==> ev.ShortHeader?
      ensures Acknowledges(ev, old(clientSeq) + 1) ==>
        clientSeq == old(clientSeq) + 1 && imageData == ReadChunk(source, old(clientSeq))
      ensures !Acknowledges(ev, old(clientSeq) + 1) ==>
        clientSeq == old(clientSeq) && packet == old(packet) && imageData == old(imageData)
    {
      sent := packet;
      match ev
      case Timeout =>
      case ShortHeader =>
        failed := true;
      case Reply(ackNum) =>
        if ackNum == clientSeq + 1 {
          imageData := Read();
          clientSeq := clientSeq + 1;
          packet := DataPacket(clientSeq, imageData);
        }
    }

    /**
     * The while loop of stop_and_wait, driven by the replies the network
     * delivers, until the data runs out, a reply cannot be unpacked, or the
     * given replies run out. Every packet sent frames a non-empty chunk under
     * its own sequence number; the first goes out under the starting counter,
     * and each next one carries the same number again unless the reply to the
     * previous one acknowledged it, in which case it carries the next number.
     */
    method Run(events: seq<Event>) returns (sent: seq<Packet>, used: nat)
      requires Valid()
      modifies this
      ensures Valid()
      ensures used <= |events| && |sent| == used
      ensures !Sending() || used == |events|
      ensures forall i | 0 <= i < |sent| ::
        1 <= sent[i].header.seqNo <= |source| && sent[i] == PacketFor(source, sent[i].header.seqNo) && source[sent[i].header.seqNo - 1] != []
      ensures |sent| > 0 ==> sent[0].header.seqNo == old(clientSeq)
      ensures forall i | 0 <= i < |sent| - 1 ::
        sent[i + 1].header.seqNo == if Acknowledges(events[i], sent[i].header.seqNo + 1) then sent[i].header.seqNo + 1 else sent[i].header.seqNo
      ensures imageData == [] && !failed ==> clientSeq - 1 == DataChunks(source)
    {
      sent, used := [], 0;
      while Sending() && used < |events|
        invariant Valid()
        invariant used <= |events| && |sent| == used
        invariant forall i | 0 <= i < |sent| ::
          1 <= sent[i].header.seqNo <= |source| && sent[i] == PacketFor(source, sent[i].header.seqNo) && source[sent[i].header.seqNo - 1] != []
        invariant |sent| > 0 ==> sent[0].header.seqNo == old(clientSeq)
        invariant forall i | 0 <= i < |sent| - 1 ::
          sent[i + 1].header.seqNo == if Acknowledges(events[i], sent[i].header.seqNo + 1) then sent[i].header.seqNo + 1 else sent[i].header.seqNo
        invariant |sent| > 0 ==>
          clientSeq == if Acknowledges(events[used - 1], sent[used - 1].header.seqNo + 1) then sent[used - 1].header.seqNo + 1 else sent[used - 1].header.seqNo
        invariant |sent| == 0 ==> clientSeq == old(clientSeq)
        decreases |events| - used
      {
        var p := Round(events[used]);
        sent, used := sent + [p], used + 1;
      }
      if imageData == [] && !failed {
        EndOfData(source, clientSeq - 1);
      }
    }
  }
}
