/**
  The three-wire packet layer (`H5`): a four-byte header with a checksum, a payload, an optional CRC.

  Fields are non-negative numbers, so `x & mask` for a mask of low bits is a remainder, a shift is a
  multiplication or division by a power of two, and `|` of disjoint bit groups is a sum. The CRC is any
  function to 16 bits.
 */
module H5 {
  import opened Bytes
  import opened Slip

  const HEADER_LENGTH := 4

  datatype EncoderData = EncoderData(
    seqNum: nat, ackNum: nat, crcPresent: bool, reliablePacket: bool, packetType: nat, payload: seq<byte>)

  datatype RetCode = SlipPayloadSize | SlipCalculatedPayloadSize | HeaderChecksum | PacketChecksum

  datatype DecoderResult =
    | Packet(
        seqNum: nat, ackNum: nat, crcPresent: bool, reliablePacket: bool, packetType: nat,
        payloadLength: nat, payload: Option<seq<byte>>)
    | Code(code: RetCode)

  type Crc = seq<byte> -> uint16

  function Bit(b: bool): nat {
    if b then 1 else 0
  }

  /** `~((hdr[0] + hdr[1] + hdr[2]) & 0xff) & 0xff` */
  function HeaderSum(hdr: seq<byte>): byte
    requires |hdr| >= 3
  {
    var (a: int, b: int, c: int) := (hdr[0], hdr[1], hdr[2]);
    0xff - (a + b + c) % 0x100
  }

  method AddHeader(packet: seq<byte>, d: EncoderData) returns (r: seq<byte>)
    requires packet == []
    ensures r == Header(d)
  {
    r := packet + [d.seqNum % 8 + (d.ackNum % 8) * 8 + Bit(d.crcPresent) * 64 + Bit(d.reliablePacket) * 128];
    r := r + [d.packetType % 16 + (|d.payload| % 16) * 16];
    r := r + [(|d.payload| / 16) % 0x100];
    r := r + [HeaderSum(r)];
  }

  method AddCrc16(crc: Crc, packet: seq<byte>) returns (r: seq<byte>)
    ensures r == packet + Le16(crc(packet))
  {
    var crc16 := crc(packet);
    r := packet + [crc16 % 0x100];
    r := r + [crc16 / 0x100];
  }

  method Encode(crc: Crc, d: EncoderData) returns (packet: seq<byte>)
    ensures packet == Encoded(crc, d)
  {
    packet := AddHeader([], d);
    packet := packet + d.payload;
    if d.crcPresent {
      packet := AddCrc16(crc, packet);
    }
  }

  function Header(d: EncoderData): (r: seq<byte>)
    ensures |r| == HEADER_LENGTH
  {
    var h := [
      d.seqNum % 8 + (d.ackNum % 8) * 8 + Bit(d.crcPresent) * 64 + Bit(d.reliablePacket) * 128,
      d.packetType % 16 + (|d.payload| % 16) * 16,
      (|d.payload| / 16) % 0x100];
    h + [HeaderSum(h)]
  }

  function Encoded(crc: Crc, d: EncoderData): seq<byte> {
    var packet := Header(d) + d.payload;
    if d.crcPresent then packet + Le16(crc(packet)) else packet
  }

  function PayloadLength(s: seq<byte>): nat
    requires |s| >= HEADER_LENGTH
  {
    var (b: int, c: int) := (s[1], s[2]);
    b / 16 + (c * 16) % 0x100
  }

  predicate CrcPresent(s: seq<byte>)
    requires |s| >= HEADER_LENGTH
  {
    (s[0] / 64) % 2 == 1
  }

  function Decode(crc: Crc, s: seq<byte>): DecoderResult {
    if |s| < HEADER_LENGTH then Code(SlipPayloadSize)
    else
      var n := PayloadLength(s);
      if |s| != n + HEADER_LENGTH + (if CrcPresent(s) then 2 else 0) then Code(SlipCalculatedPayloadSize)
      else if s[3] != HeaderSum(s) then Code(HeaderChecksum)
      else if CrcPresent(s) && ReadLe16(s, n + HEADER_LENGTH) != crc(s[..n + HEADER_LENGTH]) then Code(PacketChecksum)
      else Packet(
        s[0] % 8, (s[0] / 8) % 8, CrcPresent(s), s[0] / 128 == 1, s[1] % 16,
        n, if n > 0 then Some(s[HEADER_LENGTH..HEADER_LENGTH + n]) else None)
  }

  /** The fields as far as the header has room for them. */
  function Masked(d: EncoderData): DecoderResult {
    Packet(d.seqNum % 8, d.ackNum % 8, d.crcPresent, d.reliablePacket, d.packetType % 16,
           |d.payload|, if d.payload == [] then None else Some(d.payload))
  }

  lemma FlagsUnpack(a: nat, b: nat, c: nat, d: nat)
    requires a < 8 && b < 8 && c < 2 && d < 2
    ensures var v := a + b * 8 + c * 64 + d * 128;
      v < 0x100 && v % 8 == a && (v / 8) % 8 == b && (v / 64) % 2 == c && v / 128 == d
  {
  }

  lemma FlagsPack(v: byte)
    ensures v == v % 8 + (v / 8) % 8 * 8 + (v / 64) % 2 * 64 + v / 128 * 128
  {
  }

  lemma Nibbles(x: nat)
    ensures x * 16 % 0x100 == x % 16 * 16
  {
    assert x == (x / 16) * 16 + x % 16;
  }

  lemma LengthBytes(n: nat)
    ensures n % 16 + (n / 16) % 0x100 * 16 % 0x100 == n % 0x100
  {
    Nibbles((n / 16) % 0x100);
    assert (n / 16) % 0x100 % 16 == (n / 16) % 16;
    assert n == (n / 16) / 16 * 0x100 + (n / 16) % 16 * 16 + n % 16;
  }

  lemma HeaderFields(d: EncoderData, s: seq<byte>)
    requires |s| >= HEADER_LENGTH && s[..HEADER_LENGTH] == Header(d)
    ensures s[0] % 8 == d.seqNum % 8 && (s[0] / 8) % 8 == d.ackNum % 8
    ensures CrcPresent(s) == d.crcPresent && (s[0] / 128 == 1) == d.reliablePacket
    ensures s[1] % 16 == d.packetType % 16
    ensures PayloadLength(s) == |d.payload| % 0x100
    ensures s[3] == HeaderSum(s)
  {
    FlagsUnpack(d.seqNum % 8, d.ackNum % 8, Bit(d.crcPresent), Bit(d.reliablePacket));
    LengthBytes(|d.payload|);
    var h := Header(d);
    assert s[0] == h[0] && s[1] == h[1] && s[2] == h[2] && s[3] == h[3];
  }

  /**
    What a packet looks like: sequence and acknowledgement numbers, the two flags, the type and 12 bits of
    length in the first three bytes, a fourth that makes their sum all ones, the payload, and the CRC of
    all that, low byte first.
   */
  lemma Layout(crc: Crc, d: EncoderData)
    ensures var (s, n) := (Encoded(crc, d), 4 + |d.payload|);
      && |s| == n + (if d.crcPresent then 2 else 0)
      && s[0] % 8 == d.seqNum % 8 && s[0] / 8 % 8 == d.ackNum % 8
      && (s[0] / 64 % 2 == 1 <==> d.crcPresent) && (s[0] / 128 == 1 <==> d.reliablePacket)
      && s[1] % 16 == d.packetType % 16
      && s[1] / 16 + 16 * (s[2] as int) == |d.payload| % 0x1000
      && (s[0] as int + s[1] + s[2] + s[3]) % 0x100 == 0xff
      && s[4..n] == d.payload
      && (d.crcPresent ==> s[n] + 0x100 * (s[n + 1] as int) == crc(s[..n]))
  {
    var s := Encoded(crc, d);
    assert s[..HEADER_LENGTH] == Header(d);
    HeaderFields(d, s);
    PayloadPart(crc, d);
    TwelveBits(|d.payload|);
    SumIsOnes(s);
  }

  lemma TwelveBits(n: nat)
    ensures n % 16 + 16 * (n / 16 % 0x100) == n % 0x1000
  {
  }

  lemma SumIsOnes(s: seq<byte>)
    requires |s| >= HEADER_LENGTH
    ensures s[3] == HeaderSum(s) <==> (s[0] as int + s[1] + s[2] + s[3]) % 0x100 == 0xff
  {
  }

  lemma LengthField(s: seq<byte>)
    requires |s| >= HEADER_LENGTH
    ensures PayloadLength(s) == (s[1] / 16 + 16 * (s[2] as int)) % 0x100
  {
    var (low: int, high: int) := (s[1] / 16, s[2]);
    Nibbles(high);
    assert 16 * high == 0x100 * (high / 16) + 16 * (high % 16);
  }

  /** The length is the one announced, which is at most 255, behind the header and before the CRC if there is one. */
  predicate RightLength(s: seq<byte>) {
    |s| >= 4 && |s| == Announced(s) + if s[0] / 64 % 2 == 1 then 2 else 0
  }

  function Announced(s: seq<byte>): nat
    requires |s| >= 4
  {
    4 + (s[1] / 16 + 16 * (s[2] as int)) % 0x100
  }

  predicate RightSum(s: seq<byte>)
    requires |s| >= 4
  {
    (s[0] as int + s[1] + s[2] + s[3]) % 0x100 == 0xff
  }

  predicate RightCrc(crc: Crc, s: seq<byte>)
    requires RightLength(s)
  {
    s[0] / 64 % 2 == 1 ==> var n := Announced(s); s[n] + 0x100 * (s[n + 1] as int) == crc(s[..n])
  }

  /** What is accepted, and for what the rest is refused: the length before the sum, and the CRC last. */
  lemma AcceptedExactly(crc: Crc, s: seq<byte>)
    ensures Decode(crc, s).Packet? <==> RightLength(s) && RightSum(s) && RightCrc(crc, s)
    ensures Decode(crc, s) == Code(SlipPayloadSize) <==> |s| < 4
    ensures Decode(crc, s) == Code(SlipCalculatedPayloadSize) <==> |s| >= 4 && !RightLength(s)
    ensures Decode(crc, s) == Code(HeaderChecksum) <==> RightLength(s) && !RightSum(s)
  {
    if |s| >= HEADER_LENGTH {
      SumIsOnes(s);
      LengthField(s);
      hide HeaderSum, PayloadLength;
    }
  }

  /**
    `decode` undoes `encode`, up to the masks, exactly when the payload has at most 255 bytes; any longer
    one is refused for its size, because the high bits of the length are masked away.
   */
  lemma RoundTrip(crc: Crc, d: EncoderData)
    ensures Decode(crc, Encoded(crc, d)) == Received(d)
  {
    var s := Encoded(crc, d);
    assert s[..HEADER_LENGTH] == Header(d);
    HeaderFields(d, s);
    PayloadPart(crc, d);
    assert |d.payload| > 255 ==> |d.payload| % 0x100 != |d.payload|;
  }

  /** Fields that fit the header arrive as they were sent. */
  lemma FieldsArrive(crc: Crc, d: EncoderData)
    requires d.seqNum < 8 && d.ackNum < 8 && d.packetType < 16 && |d.payload| <= 255
    ensures Decode(crc, Encoded(crc, d)) ==
      Packet(d.seqNum, d.ackNum, d.crcPresent, d.reliablePacket, d.packetType, |d.payload|,
             if d.payload == [] then None else Some(d.payload))
  {
    hide Decode, Encoded;
    RoundTrip(crc, d);
  }

  /** Where the payload and the checksum are found again. */
  lemma PayloadPart(crc: Crc, d: EncoderData)
    ensures |Encoded(crc, d)| == HEADER_LENGTH + |d.payload| + if d.crcPresent then 2 else 0
    ensures Encoded(crc, d)[..|d.payload| + HEADER_LENGTH] == Header(d) + d.payload
    ensures Encoded(crc, d)[HEADER_LENGTH..HEADER_LENGTH + |d.payload|] == d.payload
    ensures d.crcPresent ==> ReadLe16(Encoded(crc, d), |d.payload| + HEADER_LENGTH) == crc(Header(d) + d.payload)
  {
    var body := Header(d) + d.payload;
    if d.crcPresent {
      ReadWriteLe16(crc(body), body, []);
      assert Encoded(crc, d) == body + Le16(crc(body)) + [];
    }
  }

  /** What a decoded packet would be sent on as. */
  function Again(p: DecoderResult): EncoderData
    requires p.Packet?
  {
    EncoderData(p.seqNum, p.ackNum, p.crcPresent, p.reliablePacket, p.packetType,
                if p.payload.Some? then p.payload.value else [])
  }

  lemma SameFlags(d: EncoderData, v: byte)
    requires d.seqNum == v % 8 && d.ackNum == (v / 8) % 8
    requires d.crcPresent == ((v / 64) % 2 == 1) && d.reliablePacket == (v / 128 == 1)
    ensures d.seqNum % 8 + d.ackNum % 8 * 8 + Bit(d.crcPresent) * 64 + Bit(d.reliablePacket) * 128 == v
  {
    FlagsPack(v);
  }

  lemma SameLength(n: nat, low: byte, high: byte, packetType: nat)
    requires high < 16 && n == low / 16 + high * 16 && packetType == low % 16
    ensures packetType % 16 + n % 16 * 16 == low && (n / 16) % 0x100 == high
  {
  }

  lemma SameHeader(d: EncoderData, s: seq<byte>)
    requires |s| >= HEADER_LENGTH && s[3] == HeaderSum(s) && s[2] < 16
    requires d.seqNum == s[0] % 8 && d.ackNum == (s[0] / 8) % 8
    requires d.crcPresent == CrcPresent(s) && d.reliablePacket == (s[0] / 128 == 1)
    requires d.packetType == s[1] % 16 && |d.payload| == PayloadLength(s)
    ensures Header(d) == s[..HEADER_LENGTH]
  {
    SameFlags(d, s[0]);
    SameLength(|d.payload|, s[1], s[2], d.packetType);
    var h := Header(d);
    assert h[0] == s[0];
    assert h[1] == s[1] && h[2] == s[2];
    assert h[3] == s[3];
  }

  /** An accepted packet encodes back to the same bytes exactly when its third byte is below 16. */
  lemma Reencodes(crc: Crc, s: seq<byte>)
    requires Decode(crc, s).Packet?
    ensures Encoded(crc, Again(Decode(crc, s))) == s <==> s[2] < 16
  {
    var p := Decode(crc, s);
    var d := Again(p);
    var n := p.payloadLength;
    assert d.payload == s[HEADER_LENGTH..HEADER_LENGTH + n];
    if s[2] < 16 {
      hide HeaderSum, PayloadLength;
      SameHeader(d, s);
      assert Header(d) + d.payload == s[..HEADER_LENGTH + n];
      if p.crcPresent {
        WriteReadLe16(s, n + HEADER_LENGTH);
      }
    } else {
      assert Encoded(crc, d)[2] == Header(d)[2];
      LengthBelow(s);
    }
  }

  lemma LengthBelow(s: seq<byte>)
    requires |s| >= HEADER_LENGTH
    ensures PayloadLength(s) / 16 < 16
  {
    Nibbles(s[2]);
  }

  lemma SumNotices(a: byte, b: byte, c: byte, a': byte)
    requires a != a'
    ensures (a + b + c) % 0x100 != (a' + b + c) % 0x100
  {
    var (x: int, y: int) := (a + b + c, a' + b + c);
    assert x == x / 0x100 * 0x100 + x % 0x100 && y == y / 0x100 * 0x100 + y % 0x100;
  }

  /** One altered header byte of an accepted packet is always noticed. */
  lemma HeaderDamageIsNoticed(crc: Crc, s: seq<byte>, i: nat, b: byte)
    requires Decode(crc, s).Packet? && i < HEADER_LENGTH && b != s[i]
    ensures Decode(crc, s[i := b]) == Code(HeaderChecksum) || Decode(crc, s[i := b]) == Code(SlipCalculatedPayloadSize)
  {
    var t := s[i := b];
    if i == 0 {
      SumNotices(s[0], s[1], s[2], b);
    } else if i == 1 {
      SumNotices(s[1], s[0], s[2], b);
    } else if i == 2 {
      SumNotices(s[2], s[0], s[1], b);
    }
    assert HeaderSum(t) != t[3];
  }

  /** What a packet sent is received as. */
  function Received(d: EncoderData): DecoderResult {
    if |d.payload| <= 255 then Masked(d) else Code(SlipCalculatedPayloadSize)
  }

  /** Packets sent over SLIP, with the byte stream cut anywhere, arrive as they were sent, the long ones as errors. */
  lemma OverSlip(crc: Crc, packets: seq<EncoderData>, chunks: seq<seq<byte>>, junk: seq<byte>)
    requires Flatten(chunks) == EncodedAll(seq(|packets|, i requires 0 <= i < |packets| => Encoded(crc, packets[i])))
    ensures var frames := FramesOfChunks(Decoder(WaitBeg, junk), chunks);
      |frames| == |packets| && forall i :: 0 <= i < |packets| ==> Decode(crc, frames[i]) == Received(packets[i])
  {
    var sent := seq(|packets|, i requires 0 <= i < |packets| => Encoded(crc, packets[i]));
    StreamRoundTrip(sent, chunks, junk);
    forall i | 0 <= i < |packets|
      ensures Decode(crc, sent[i]) == Received(packets[i])
    {
      RoundTrip(crc, packets[i]);
    }
  }
}
