/**
 * What the three sender engines and the two receiver engines share: the file
 * as a sequence of chunks, the data packets the client frames them into, the
 * events a blocking receive with a timeout can return, and the byte sink.
 */
module Transfer {
  import opened Codec

  /**
   * The file the client sends, as the successive results of file.read(1460):
   * the i-th read (0-based) returns source[i], and every read past the end
   * returns the empty chunk that signals end of data.
   */
  function ReadChunk(source: seq<seq<byte>>, i: nat): (chunk: seq<byte>)
    ensures i < |source| ==> chunk == source[i]
    ensures i >= |source| ==> chunk == []
  {
    if i < |source| then source[i] else []
  }

  /**
   * A source the engines can send without a field overflowing: no read returns
   * more than 1460 bytes, and every sequence number used (at most one past
   * the number of chunks) fits in 32 bits.
   */
  predicate SourceOk(source: seq<seq<byte>>)
  {
    |source| + 1 < U32_LIMIT && forall i | 0 <= i < |source| :: |source[i]| <= DATA_SIZE
  }

  /** Every read before the k-th returned data. */
  predicate ReadsNonEmpty(source: seq<seq<byte>>, k: nat)
  {
    forall j | 0 <= j < k :: ReadChunk(source, j) != []
  }

  /** A non-empty k-th read extends the run of non-empty reads by one. */
  lemma ReadsNonEmptyNext(source: seq<seq<byte>>, k: nat)
    requires ReadsNonEmpty(source, k) && ReadChunk(source, k) != []
    ensures ReadsNonEmpty(source, k + 1)
  {
  }

  /** The number of chunks read before the first empty read: what a sender transfers. */
  function DataChunks(source: seq<seq<byte>>): (n: nat)
    ensures n <= |source|
    ensures ReadsNonEmpty(source, n) && ReadChunk(source, n) == []
  {
    if source == [] || source[0] == [] then 0
    else
      var n := DataChunks(source[1..]);
      assert forall j | 1 <= j < n + 1 :: ReadChunk(source, j) == ReadChunk(source[1..], j - 1);
      n + 1
  }

  /** A sender that has read chunk k and found it empty, after k non-empty reads, has read the whole transfer. */
  lemma {:induction false} EndOfData(source: seq<seq<byte>>, k: nat)
    requires ReadsNonEmpty(source, k) && ReadChunk(source, k) == []
    ensures k == DataChunks(source)
  {
    var n := DataChunks(source);
    if k != n {
      assert false;
    }
  }

  /** The concatenation of chunks, in order. */
  function Flatten(chunks: seq<seq<byte>>): (r: seq<byte>)
    ensures chunks == [] ==> r == []
  {
    if chunks == [] then [] else Flatten(chunks[..|chunks| - 1]) + chunks[|chunks| - 1]
  }

  /** Delivering one more chunk extends the delivered prefix by exactly that chunk. */
  lemma FlattenNext(source: seq<seq<byte>>, k: nat)
    requires k < |source|
    ensures Flatten(source[..k + 1]) == Flatten(source[..k]) + source[k]
  {
    assert source[..k + 1][..k] == source[..k];
  }

  /**
   * The first k reads, concatenated, are the first k chunks of the file, or
   * the whole file once k reaches its end: reads hand the file over in
   * order, and reads past its end add nothing.
   */
  lemma {:induction false} ReadsConcatenate(source: seq<seq<byte>>, k: nat)
    ensures Flatten(seq(k, i requires 0 <= i => ReadChunk(source, i))) ==
      Flatten(source[..if k <= |source| then k else |source|])
  {
    if k > 0 {
      ReadsConcatenate(source, k - 1);
      var got := seq(k, i requires 0 <= i => ReadChunk(source, i));
      assert got[..k - 1] == seq(k - 1, i requires 0 <= i => ReadChunk(source, i));
      if k <= |source| {
        FlattenNext(source, k - 1);
      }
    }
  }

  /** The data packet the client frames the chunk of sequence number n in: ack 1, no flags, window 0. */
  function DataPacket(n: nat, data: seq<byte>): (p: Packet)
  {
    Packet(Header(n, 1, 0, 0), data)
  }

  /** The data packet for sequence number n >= 1, whose payload is the (n-1)-th chunk. */
  function PacketFor(source: seq<seq<byte>>, n: nat): (p: Packet)
    requires 1 <= n <= |source|
  {
    DataPacket(n, source[n - 1])
  }

  /**
   * A data packet of a valid source goes on the wire as at most 1472 bytes,
   * and the receiver decodes exactly that packet back.
   */
  lemma PacketForOnWire(source: seq<seq<byte>>, n: nat)
    requires SourceOk(source) && 1 <= n <= |source|
    ensures Packable(PacketFor(source, n).header)
    ensures |Encode(PacketFor(source, n))| <= PACKET_SIZE
    ensures Decode(Encode(PacketFor(source, n))) == Some(PacketFor(source, n))
  {
    PacketRoundTrip(PacketFor(source, n));
  }

  /**
   * Every packet of sent frames its own chunk: the chunk whose sequence
   * number it carries, which is below hi.
   */
  ghost predicate FramesChunks(source: seq<seq<byte>>, sent: seq<Packet>, hi: nat)
  {
    forall i | 0 <= i < |sent| ::
      1 <= sent[i].header.seqNo < hi && sent[i].header.seqNo <= |source| &&
      sent[i] == PacketFor(source, sent[i].header.seqNo)
  }

  /** Two transmissions that frame their own chunks, the later below a bound no lower than the earlier's, together do too. */
  lemma FramesChunksAppend(source: seq<seq<byte>>, sent: seq<Packet>, more: seq<Packet>, hi: nat, hi': nat)
    requires FramesChunks(source, sent, hi) && FramesChunks(source, more, hi') && hi <= hi'
    ensures FramesChunks(source, sent + more, hi')
  {
  }

  /** Packets that frame chunks read before the first empty read all carry data. */
  lemma FramedChunksNonEmpty(source: seq<seq<byte>>, sent: seq<Packet>, hi: nat)
    requires FramesChunks(source, sent, hi) && hi >= 1 && ReadsNonEmpty(source, hi - 1)
    ensures forall i | 0 <= i < |sent| :: sent[i].payload != []
  {
    forall i | 0 <= i < |sent|
      ensures sent[i].payload != []
    {
      assert ReadChunk(source, sent[i].header.seqNo - 1) != [];
    }
  }

  /** A transmission drawn from a range of packets, whole or with one left out, frames chunks below the range's end. */
  lemma RangeFramesChunks(source: seq<seq<byte>>, lo: nat, hi: nat, sent: seq<Packet>, k: int)
    requires 1 <= lo <= hi <= |source| + 1
    requires sent == PacketRange(source, lo, hi) || (0 <= k < hi - lo && sent == Omit(PacketRange(source, lo, hi), k))
    ensures FramesChunks(source, sent, hi)
  {
  }

  /** The data packets for the sequence numbers lo .. hi-1, in order. */
  function PacketRange(source: seq<seq<byte>>, lo: nat, hi: nat): (w: seq<Packet>)
    requires 1 <= lo <= hi <= |source| + 1
    ensures |w| == hi - lo
    ensures forall i | 0 <= i < |w| :: w[i] == PacketFor(source, lo + i)
  {
    seq(hi - lo, i requires 0 <= i < hi - lo => PacketFor(source, lo + i))
  }

  /** Dropping the oldest packets of a range leaves the range that starts later. */
  lemma PacketRangeDrop(source: seq<seq<byte>>, lo: nat, hi: nat, w: seq<Packet>)
    requires 1 <= lo <= hi <= |source| + 1 && |w| <= hi - lo
    requires w == PacketRange(source, lo, hi)[hi - lo - |w|..]
    ensures w == PacketRange(source, hi - |w|, hi)
  {
  }

  /** Appending the next packet extends a range by one. */
  lemma PacketRangeNext(source: seq<seq<byte>>, lo: nat, hi: nat)
    requires 1 <= lo <= hi <= |source|
    ensures PacketRange(source, lo, hi) + [PacketFor(source, hi)] == PacketRange(source, lo, hi + 1)
  {
  }

  /** window_size of the two windowed senders and of the Selective-Repeat receiver. */
  const WINDOW_SLOTS: nat := 5

  /** The sequence number the skip_seq test hook leaves out once. */
  const SKIPPED_SEQ: nat := 3

  /**
   * The skip_seq hook fires in a transmission of the packets lo .. hi-1: the
   * hook is on, it has not fired before, and packet 3 is among them.
   */
  predicate SkipFires(skipSeq: bool, skipped: bool, lo: nat, hi: nat)
  {
    skipSeq && !skipped && lo <= SKIPPED_SEQ < hi
  }

  /** The sequence without its k-th element. */
  function Omit<T>(w: seq<T>, k: nat): (r: seq<T>)
    requires k < |w|
    ensures |r| == |w| - 1
    ensures forall i | 0 <= i < k :: r[i] == w[i]
    ensures forall i | k <= i < |r| :: r[i] == w[i + 1]
  {
    w[..k] + w[k + 1..]
  }

  /**
   * What a sender's blocking receive with a timeout yields once
   * parse_header(receive_packet(s)[0]) has run on the datagram: the reply's
   * acknowledgment number, a header too short for struct.unpack (which
   * raises), or the timeout.
   */
  datatype Event = Reply(ackNo: nat) | ShortHeader | Timeout

  /**
   * The event a datagram that arrives in time becomes: ShortHeader exactly
   * when it is shorter than a header, otherwise a reply carrying the
   * acknowledgment number the codec decodes from it.
   */
  function Received(d: seq<byte>): (ev: Event)
    ensures ev.ShortHeader? <==> |d| < HEADER_SIZE
    ensures ev.Reply? ==> ev.ackNo < U32_LIMIT && Decode(d) == Some(Packet(Decode(d).value.header, d[HEADER_SIZE..]))
    ensures ev.Reply? ==> ev.ackNo == Decode(d).value.header.ackNo
    ensures !ev.Timeout?
  {
    match ParseHeader(ReceivePacket(d).0)
    case None => ShortHeader
    case Some(h) => Reply(h.ackNo)
  }

  /** A reply sent as the encoding of packet p reaches a sender as p's acknowledgment number. */
  lemma ReceivedEncoding(p: Packet)
    requires Packable(p.header)
    ensures Received(Encode(p)) == Reply(p.header.ackNo)
  {
    PacketRoundTrip(p);
  }

  /** The event is a reply carrying acknowledgment number n. */
  predicate Acknowledges(ev: Event, n: nat)
  {
    ev == Reply(n)
  }
}
