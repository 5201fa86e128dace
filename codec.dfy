/**
 * The DRTP wire format.
 *
 * A DRTP packet is a 12-byte header -- sequence number (u32), acknowledgment
 * number (u32), flags (u16) and advertised window (u16), all in network byte
 * order, the struct format "!IIHH" -- followed by the payload bytes.
 * The codec has no checksum: a header is "malformed" only when it is not
 * exactly 12 bytes long.
 */
module Codec {

  type byte = x: int | 0 <= x < 256

  datatype Option<T> = None | Some(value: T)

  /** Sizes, in bytes, and the window value every server reply advertises. */
  const HEADER_SIZE: nat := 12
  const DATA_SIZE: nat := 1460
  const PACKET_SIZE: nat := 1472
  const WINDOW_SIZE: nat := 64

  /** Flag bits of the header's flags field. */
  const RESET: nat := 1
  const FIN: nat := 2
  const ACK: nat := 4
  const SYN: nat := 8

  /** One past the largest value of an unsigned 32-bit / 16-bit field. */
  const U32_LIMIT: nat := 0x1_0000_0000
  const U16_LIMIT: nat := 0x1_0000

  function Pow256(n: nat): (r: nat)
    ensures r >= 1
  {
    if n == 0 then 1 else 256 * Pow256(n - 1)
  }

  /** The value of a big-endian unsigned integer. */
  function DecodeBE(s: seq<byte>): (x: nat)
    ensures x < Pow256(|s|)
  {
    if s == [] then 0 else DecodeBE(s[..|s| - 1]) * 256 + s[|s| - 1]
  }

  /** The n-byte big-endian representation of x; it decodes back to x. */
  function EncodeBE(x: nat, n: nat): (r: seq<byte>)
    requires x < Pow256(n)
    ensures |r| == n
    ensures DecodeBE(r) == x
  {
    if n == 0 then []
    else
      var r := EncodeBE(x / 256, n - 1) + [x % 256];
      assert r[..n - 1] == EncodeBE(x / 256, n - 1);
      r
  }

  /** Every byte string is the encoding of the value it decodes to. */
  lemma {:induction false} EncodeOfDecode(s: seq<byte>)
    ensures EncodeBE(DecodeBE(s), |s|) == s
  {
    if s != [] {
      var init := s[..|s| - 1];
      EncodeOfDecode(init);
      assert DecodeBE(s) / 256 == DecodeBE(init);
      assert DecodeBE(s) % 256 == s[|s| - 1];
      assert s == init + [s[|s| - 1]];
    }
  }

  datatype Header = Header(seqNo: nat, ackNo: nat, flags: nat, win: nat)

  /** A packet as its sender frames it: the four header fields and the payload. */
  datatype Packet = Packet(header: Header, payload: seq<byte>)

  /** The field ranges struct.pack("!IIHH", ...) accepts without raising. */
  predicate Packable(h: Header)
  {
    h.seqNo < U32_LIMIT && h.ackNo < U32_LIMIT && h.flags < U16_LIMIT && h.win < U16_LIMIT
  }

  /** parse_header: unpacks exactly 12 bytes; any other length makes struct.unpack raise. */
  function ParseHeader(b: seq<byte>): (r: Option<Header>)
    ensures r.Some? <==> |b| == HEADER_SIZE
    ensures r.Some? ==> Packable(r.value)
  {
    if |b| != HEADER_SIZE then None
    else
      assert Pow256(4) == U32_LIMIT && Pow256(2) == U16_LIMIT;
      Some(Header(DecodeBE(b[0..4]), DecodeBE(b[4..8]), DecodeBE(b[8..10]), DecodeBE(b[10..12])))
  }

  /** struct.pack("!IIHH", ...): the fixed-width big-endian header, which parses back to h. */
  function PackHeader(h: Header): (r: seq<byte>)
    requires Packable(h)
    ensures |r| == HEADER_SIZE
    ensures ParseHeader(r) == Some(h)
  {
    assert Pow256(4) == U32_LIMIT && Pow256(2) == U16_LIMIT;
    var s, a, f, w := EncodeBE(h.seqNo, 4), EncodeBE(h.ackNo, 4), EncodeBE(h.flags, 2), EncodeBE(h.win, 2);
    var r := s + a + f + w;
    assert r[0..4] == s && r[4..8] == a && r[8..10] == f && r[10..12] == w;
    r
  }

  /** Unpacking and re-packing a 12-byte header gives back the same bytes. */
  lemma PackOfParse(b: seq<byte>)
    requires |b| == HEADER_SIZE
    ensures PackHeader(ParseHeader(b).value) == b
  {
    var s, a, f, w := b[0..4], b[4..8], b[8..10], b[10..12];
    EncodeOfDecode(s);
    EncodeOfDecode(a);
    EncodeOfDecode(f);
    EncodeOfDecode(w);
    assert Pow256(4) == U32_LIMIT && Pow256(2) == U16_LIMIT;
    var h := Header(DecodeBE(s), DecodeBE(a), DecodeBE(f), DecodeBE(w));
    assert ParseHeader(b) == Some(h);
    assert PackHeader(h) == s + a + f + w;
    assert b == s + a + f + w;
  }

  /** create_packet: the header followed verbatim by the payload. */
  function CreatePacket(seqNo: nat, ackNo: nat, flags: nat, win: nat, data: seq<byte>): (p: seq<byte>)
    requires Packable(Header(seqNo, ackNo, flags, win))
    ensures |p| == HEADER_SIZE + |data|
    ensures ParseHeader(p[..HEADER_SIZE]) == Some(Header(seqNo, ackNo, flags, win))
    ensures p[HEADER_SIZE..] == data
  {
    var header := PackHeader(Header(seqNo, ackNo, flags, win));
    assert (header + data)[..HEADER_SIZE] == header;
    header + data
  }

  /** receive_packet: the first (at most) 12 bytes are the header, the rest the payload. */
  function ReceivePacket(p: seq<byte>): (r: (seq<byte>, seq<byte>))
    ensures r.0 + r.1 == p
    ensures |r.0| == if |p| < HEADER_SIZE then |p| else HEADER_SIZE
  {
    if |p| < HEADER_SIZE then (p, [])
    else
      assert p[..HEADER_SIZE] + p[HEADER_SIZE..] == p;
      (p[..HEADER_SIZE], p[HEADER_SIZE..])
  }

  /** The bytes create_packet produces for a packet. */
  function Encode(p: Packet): (b: seq<byte>)
    requires Packable(p.header)
  {
    CreatePacket(p.header.seqNo, p.header.ackNo, p.header.flags, p.header.win, p.payload)
  }

  /** receive_packet followed by parse_header: None exactly when the datagram is shorter than a header. */
  function Decode(d: seq<byte>): (r: Option<Packet>)
    ensures r.None? <==> |d| < HEADER_SIZE
    ensures r.Some? ==> Packable(r.value.header) && r.value.payload == d[HEADER_SIZE..]
  {
    var (header, data) := ReceivePacket(d);
    match ParseHeader(header)
    case None => None
    case Some(h) => Some(Packet(h, data))
  }

  /** Round trip: decoding a created packet gives back its four fields and its payload. */
  lemma PacketRoundTrip(p: Packet)
    requires Packable(p.header)
    ensures Decode(Encode(p)) == Some(p)
  {
  }

  /** Round trip the other way: every decodable datagram is the encoding of what it decodes to. */
  lemma DecodeThenEncode(d: seq<byte>)
    requires |d| >= HEADER_SIZE
    ensures Decode(d).Some? && Encode(Decode(d).value) == d
  {
    PackOfParse(d[..HEADER_SIZE]);
    assert d == d[..HEADER_SIZE] + d[HEADER_SIZE..];
  }

  function Pow2(k: nat): (r: nat)
    ensures r >= 1
  {
    if k == 0 then 1 else 2 * Pow2(k - 1)
  }

  /** Bit k of a non-negative integer is set. */
  predicate HasBit(flags: nat, k: nat)
  {
    (flags / Pow2(k)) % 2 == 1
  }

  /** `flags & mask` on a 16-bit field. */
  function BitAnd(flags: nat, mask: nat): (r: nat)
    requires flags < U16_LIMIT && mask < U16_LIMIT
  {
    ((flags as bv16) & (mask as bv16)) as nat
  }

  /** `a | b` on 16-bit fields, as in DRTP_SYN | DRTP_ACK. */
  function BitOr(a: nat, b: nat): (r: nat)
    requires a < U16_LIMIT && b < U16_LIMIT
  {
    ((a as bv16) | (b as bv16)) as nat
  }

  /** The three components parse_flags returns: each is the masked flag value, so zero or the flag itself. */
  datatype FlagSet = FlagSet(syn: nat, ack: nat, fin: nat)

  /** parse_flags: nonzero SYN/ACK/FIN components exactly when bits 3/2/1 are set; bit 0 is ignored. */
  function ParseFlags(flags: nat): (r: FlagSet)
    requires flags < U16_LIMIT
    ensures r.syn == 0 || r.syn == SYN
    ensures r.ack == 0 || r.ack == ACK
    ensures r.fin == 0 || r.fin == FIN
    ensures r.syn != 0 <==> HasBit(flags, 3)
    ensures r.ack != 0 <==> HasBit(flags, 2)
    ensures r.fin != 0 <==> HasBit(flags, 1)
  {
    assert Pow2(1) == 2 && Pow2(2) == 4 && Pow2(3) == 8;
    FlagSet(BitAnd(flags, SYN), BitAnd(flags, ACK), BitAnd(flags, FIN))
  }

  /** parse_flags reads nothing but bits 1, 2 and 3. */
  lemma SameBitsSameFlags(a: nat, b: nat)
    requires a < U16_LIMIT && b < U16_LIMIT
    requires HasBit(a, 1) == HasBit(b, 1) && HasBit(a, 2) == HasBit(b, 2) && HasBit(a, 3) == HasBit(b, 3)
    ensures ParseFlags(a) == ParseFlags(b)
  {
  }

  /** Setting bit 0 of an even number leaves bits 1, 2 and 3 as they were. */
  lemma LowBitBits(flags: nat)
    requires flags % 2 == 0
    ensures HasBit(flags + RESET, 1) == HasBit(flags, 1)
    ensures HasBit(flags + RESET, 2) == HasBit(flags, 2)
    ensures HasBit(flags + RESET, 3) == HasBit(flags, 3)
  {
    assert Pow2(1) == 2 && Pow2(2) == 4 && Pow2(3) == 8;
    var q := flags / 2;
    assert flags == 2 * q && flags + RESET == 2 * q + 1;
    assert (flags + RESET) / 2 == q && (flags + RESET) / 4 == q / 2 && (flags + RESET) / 8 == q / 4;
    assert flags / 4 == q / 2 && flags / 8 == q / 4;
  }

  /** Setting the RESET bit (bit 0) never changes what parse_flags reports. */
  lemma ResetBitIgnored(flags: nat)
    requires flags < U16_LIMIT && flags % 2 == 0
    ensures ParseFlags(flags + RESET) == ParseFlags(flags)
  {
    LowBitBits(flags);
    SameBitsSameFlags(flags + RESET, flags);
  }

  /** The flag combinations the roles put on the wire decode as intended. */
  lemma ControlFlags()
    ensures ParseFlags(SYN) == FlagSet(SYN, 0, 0)
    ensures BitOr(SYN, ACK) == 12 && ParseFlags(BitOr(SYN, ACK)) == FlagSet(SYN, ACK, 0)
    ensures ParseFlags(ACK) == FlagSet(0, ACK, 0)
    ensures ParseFlags(FIN) == FlagSet(0, 0, FIN)
    ensures ParseFlags(0) == FlagSet(0, 0, 0)
  {
  }
}
