/** The dataplane wire format (`r2n-proto`) and its reception (`r2n-transport`). */
module Header {
  import opened Bytes
  import opened Common

  const PROTOCOL_VERSION: u8 := 2
  const CONTROL_MAGIC: seq<u8> := [0x52, 0x32, 0x4E, 0x43]
  const DATA_MAGIC: seq<u8> := [0x52, 0x32, 0x4E, 0x44]
  const HEADER_SIZE: nat := 148

  datatype PacketType = IPv4 | IPv6 | Broadcast | Multicast | Discovery | Keepalive | Ping | Pong | Ethernet

  datatype DataHeader = DataHeader(
    version: u8, flags: u8, packetType: PacketType, reserved: u8, ttl: u8,
    roomId: RoomId, srcNode: NodeId, dstNode: NodeId, originNode: NodeId,
    sessionId: u64, nonce: u64, packetId: u64, payloadLen: u16)

  datatype HeaderError =
    BufferTooShort | InvalidMagic | InvalidPacketType | UnsupportedVersion | InvalidPayloadLength

  datatype Result<T> = Ok(value: T) | Err(error: HeaderError)

  function AsU8(t: PacketType): (b: u8) {
    match t
    case IPv4 => 0 case IPv6 => 1 case Broadcast => 2 case Multicast => 3 case Discovery => 4
    case Keepalive => 5 case Ping => 6 case Pong => 7 case Ethernet => 8
  }

  /** The inverse of `AsU8`, refusing every other byte. */
  function FromU8(b: u8): (r: Result<PacketType>)
    ensures r.Ok? <==> b <= 8
    ensures r.Ok? ==> AsU8(r.value) == b
    ensures r.Err? ==> r.error == InvalidPacketType
  {
    match b
    case 0 => Ok(IPv4) case 1 => Ok(IPv6) case 2 => Ok(Broadcast) case 3 => Ok(Multicast) case 4 => Ok(Discovery)
    case 5 => Ok(Keepalive) case 6 => Ok(Ping) case 7 => Ok(Pong) case 8 => Ok(Ethernet)
    case _ => Err(InvalidPacketType)
  }

  function Prefix(h: DataHeader): (s: seq<u8>)
    ensures |s| == 8
  {
    DATA_MAGIC + [h.version, h.flags, AsU8(h.packetType), h.ttl]
  }

  function Ids(h: DataHeader): (s: seq<u8>)
    ensures |s| == 112
  {
    h.roomId + h.srcNode + h.dstNode + h.originNode
  }

  function Numbers(h: DataHeader): (s: seq<u8>)
    ensures |s| == 26
  {
    ToBe(h.sessionId, 8) + ToBe(h.nonce, 8) + ToBe(h.packetId, 8) + ToBe(h.payloadLen, 2)
  }

  /** The 148 bytes of an encoded header. */
  function Encode(h: DataHeader): (s: seq<u8>)
    ensures |s| == HEADER_SIZE
  {
    Prefix(h) + Ids(h) + Numbers(h) + [h.reserved, 0]
  }

  function Decode(buf: seq<u8>): (r: Result<DataHeader>) {
    if |buf| < HEADER_SIZE then Err(BufferTooShort)
    else if buf[0..4] != DATA_MAGIC then Err(InvalidMagic)
    else if buf[4] != PROTOCOL_VERSION then Err(UnsupportedVersion)
    else
      match FromU8(buf[6])
      case Err(e) => Err(e)
      case Ok(t) => Ok(Fields(buf, t))
  }

  /** The header fields of a buffer whose packet type is `t`. */
  function Fields(buf: seq<u8>, t: PacketType): (h: DataHeader)
    requires |buf| >= HEADER_SIZE
  {
    RadixValues();
    DataHeader(
      buf[4], buf[5], t, buf[146], buf[7],
      buf[8..24], buf[24..56], buf[56..88], buf[88..120],
      FromBe(buf[120..128]), FromBe(buf[128..136]), FromBe(buf[136..144]), FromBe(buf[144..146]))
  }

  lemma RadixValues()
    ensures Radix(8) == 0x1_0000_0000_0000_0000 && Radix(2) == 0x1_0000
  {
    assert Radix(4) == 256 * 256 * 256 * 256;
    assert Radix(6) == 256 * 256 * Radix(4);
  }

  function FrameLen(h: DataHeader): (n: nat) {
    HEADER_SIZE + h.payloadLen
  }

  // ---------- Round trips ----------

  lemma Slice(a: seq<u8>, b: seq<u8>, c: seq<u8>)
    ensures (a + b + c)[|a|..|a| + |b|] == b
  {
  }

  /** Where each part of an encoded header lies. */
  lemma Layout(h: DataHeader, rest: seq<u8>)
    ensures var s := Encode(h) + rest;
            && s[..8] == Prefix(h) && s[8..120] == Ids(h) && s[120..146] == Numbers(h)
            && s[146] == h.reserved && s[147] == 0
  {
    var s := Encode(h) + rest;
    assert s == Prefix(h) + (Ids(h) + Numbers(h) + [h.reserved, 0] + rest);
    assert s == Prefix(h) + Ids(h) + (Numbers(h) + [h.reserved, 0] + rest);
    Slice(Prefix(h), Ids(h), Numbers(h) + [h.reserved, 0] + rest);
    assert s == (Prefix(h) + Ids(h)) + Numbers(h) + ([h.reserved, 0] + rest);
    Slice(Prefix(h) + Ids(h), Numbers(h), [h.reserved, 0] + rest);
  }

  lemma IdSlices(h: DataHeader)
    ensures var s := Ids(h);
            s[..16] == h.roomId && s[16..48] == h.srcNode && s[48..80] == h.dstNode && s[80..112] == h.originNode
  {
  }

  lemma NumberSlices(h: DataHeader)
    ensures var s := Numbers(h);
            && FromBe(s[..8]) == h.sessionId && FromBe(s[8..16]) == h.nonce
            && FromBe(s[16..24]) == h.packetId && FromBe(s[24..26]) == h.payloadLen
  {
    Quarters(ToBe(h.sessionId, 8), ToBe(h.nonce, 8), ToBe(h.packetId, 8), ToBe(h.payloadLen, 2));
    U64RoundTrip(h.sessionId);
    U64RoundTrip(h.nonce);
    U64RoundTrip(h.packetId);
    U16RoundTrip(h.payloadLen);
  }

  lemma Quarters(a: seq<u8>, b: seq<u8>, c: seq<u8>, d: seq<u8>)
    requires |a| == |b| == |c| == 8 && |d| == 2
    ensures var s := a + b + c + d; s[..8] == a && s[8..16] == b && s[16..24] == c && s[24..26] == d
  {
  }

  lemma U64RoundTrip(n: u64)
    ensures FromBe(ToBe(n, 8)) == n
  {
    RadixValues();
    FromBeToBe(n, 8);
  }

  lemma U16RoundTrip(n: u16)
    ensures FromBe(ToBe(n, 2)) == n
  {
    RadixValues();
    FromBeToBe(n, 2);
  }

  /** Decoding an encoded header, with anything behind it, gives the header back. */
  lemma DecodeEncode(h: DataHeader, rest: seq<u8>)
    ensures Decode(Encode(h) + rest) == if h.version == PROTOCOL_VERSION then Ok(h) else Err(UnsupportedVersion)
  {
    var s := Encode(h) + rest;
    Layout(h, rest);
    IdSlices(h);
    NumberSlices(h);
    assert s[0..4] == s[..8][0..4] == DATA_MAGIC;
    assert s[4] == s[..8][4] && s[5] == s[..8][5] && s[6] == s[..8][6] && s[7] == s[..8][7];
    assert s[8..24] == s[8..120][..16] && s[24..56] == s[8..120][16..48];
    assert s[56..88] == s[8..120][48..80] && s[88..120] == s[8..120][80..112];
    assert s[120..128] == s[120..146][..8] && s[128..136] == s[120..146][8..16];
    assert s[136..144] == s[120..146][16..24] && s[144..146] == s[120..146][24..26];
  }

  /** Re-encoding a decoded header reproduces its bytes, except that byte 147 becomes zero. */
  lemma EncodeDecode(buf: seq<u8>)
    requires Decode(buf).Ok?
    ensures Encode(Decode(buf).value) == buf[..147] + [0]
  {
    var h := Decode(buf).value;
    assert Prefix(h) == buf[..8];
    assert Ids(h) == buf[8..120];
    assert Numbers(h) == buf[120..146] by {
      ToBeFromBe(buf[120..128]);
      ToBeFromBe(buf[128..136]);
      ToBeFromBe(buf[136..144]);
      ToBeFromBe(buf[144..146]);
    }
    assert buf[..8] + buf[8..120] == buf[..120];
    assert buf[..120] + buf[120..146] == buf[..146];
    assert buf[..146] + [buf[146], 0] == buf[..147] + [0];
  }

  // ---------- Encoding in place ----------

  method Put(buf: array<u8>, at: nat, bytes: seq<u8>, ghost done: seq<u8>)
    requires at + |bytes| <= buf.Length && buf[..at] == done
    modifies buf
    ensures buf[..at + |bytes|] == done + bytes
    ensures forall i :: at + |bytes| <= i < buf.Length ==> buf[i] == old(buf[i])
  {
    forall i | 0 <= i < |bytes| { buf[at + i] := bytes[i]; }
  }

  /** `encode_into`: a short buffer is refused and left alone. */
  method EncodeInto(h: DataHeader, buf: array<u8>) returns (r: Result<()>)
    modifies buf
    ensures buf.Length < HEADER_SIZE ==> r == Err(BufferTooShort) && buf[..] == old(buf[..])
    ensures buf.Length >= HEADER_SIZE ==>
              r == Ok(()) && buf[..HEADER_SIZE] == Encode(h) && buf[HEADER_SIZE..] == old(buf[HEADER_SIZE..])
  {
    if buf.Length < HEADER_SIZE {
      return Err(BufferTooShort);
    }
    ghost var tail := buf[HEADER_SIZE..];
    Put(buf, 0, DATA_MAGIC, []);
    Put(buf, 4, [h.version, h.flags, AsU8(h.packetType), h.ttl], DATA_MAGIC);
    assert buf[..8] == Prefix(h);
    assert buf[HEADER_SIZE..] == tail;
    PutIds(h, buf);
    PutNumbers(h, buf);
    Put(buf, 146, [h.reserved, 0], Prefix(h) + Ids(h) + Numbers(h));
    return Ok(());
  }

  method PutIds(h: DataHeader, buf: array<u8>)
    requires buf.Length >= HEADER_SIZE && buf[..8] == Prefix(h)
    modifies buf
    ensures buf[..120] == Prefix(h) + Ids(h)
    ensures buf[HEADER_SIZE..] == old(buf[HEADER_SIZE..])
  {
    ghost var done, tail := Prefix(h), buf[HEADER_SIZE..];
    Put(buf, 8, h.roomId, done);
    Put(buf, 24, h.srcNode, done + h.roomId);
    Put(buf, 56, h.dstNode, done + h.roomId + h.srcNode);
    Put(buf, 88, h.originNode, done + h.roomId + h.srcNode + h.dstNode);
    assert buf[HEADER_SIZE..] == tail;
    assert done + h.roomId + h.srcNode + h.dstNode + h.originNode == done + Ids(h);
  }

  method PutNumbers(h: DataHeader, buf: array<u8>)
    requires buf.Length >= HEADER_SIZE && buf[..120] == Prefix(h) + Ids(h)
    modifies buf
    ensures buf[..146] == Prefix(h) + Ids(h) + Numbers(h)
    ensures buf[HEADER_SIZE..] == old(buf[HEADER_SIZE..])
  {
    ghost var done, tail := Prefix(h) + Ids(h), buf[HEADER_SIZE..];
    Put(buf, 120, ToBe(h.sessionId, 8), done);
    Put(buf, 128, ToBe(h.nonce, 8), done + ToBe(h.sessionId, 8));
    Put(buf, 136, ToBe(h.packetId, 8), done + ToBe(h.sessionId, 8) + ToBe(h.nonce, 8));
    Put(buf, 144, ToBe(h.payloadLen, 2), done + ToBe(h.sessionId, 8) + ToBe(h.nonce, 8) + ToBe(h.packetId, 8));
    assert buf[HEADER_SIZE..] == tail;
  }

  // ---------- Reception ----------

  /** What a received datagram is: a control frame (still serialised) or a data frame. */
  datatype Packet = Control(body: seq<u8>) | Data(header: DataHeader, payload: seq<u8>)

  function RecvPacket(datagram: seq<u8>): (r: Result<Packet>) {
    if |datagram| >= 4 && datagram[0..4] == CONTROL_MAGIC then Ok(Control(datagram[4..]))
    else if |datagram| < HEADER_SIZE then Err(BufferTooShort)
    else
      match Decode(datagram[..HEADER_SIZE])
      case Err(e) => Err(e)
      case Ok(h) =>
        if FrameLen(h) != |datagram| then Err(InvalidPayloadLength)
        else Ok(Data(h, datagram[HEADER_SIZE..]))
  }

  /** An encoded frame is received as itself, and never taken for a control frame. */
  lemma RecvEncoded(h: DataHeader, payload: seq<u8>)
    requires h.version == PROTOCOL_VERSION && |payload| == h.payloadLen
    ensures RecvPacket(Encode(h) + payload) == Ok(Data(h, payload))
  {
    var d := Encode(h) + payload;
    DecodeEncode(h, []);
    assert d[..HEADER_SIZE] == Encode(h) == Encode(h) + [];
    assert d[HEADER_SIZE..] == payload;
    Layout(h, payload);
    assert d[0..4] == d[..8][0..4] == DATA_MAGIC;
    assert d[3] == DATA_MAGIC[3];
    assert d[0..4][3] == 0x44;
  }

  /** Whatever is received as data is its re-encoded header and payload, byte 147 aside. */
  lemma RecvDecoded(datagram: seq<u8>)
    requires RecvPacket(datagram).Ok? && RecvPacket(datagram).value.Data?
    ensures var Data(h, payload) := RecvPacket(datagram).value;
            Encode(h) + payload == datagram[147 := 0] && |payload| == h.payloadLen
  {
    EncodeDecode(datagram[..HEADER_SIZE]);
    var Data(h, payload) := RecvPacket(datagram).value;
    assert datagram[147 := 0] == datagram[..147] + [0] + datagram[148..];
    assert datagram[..HEADER_SIZE][..147] == datagram[..147];
  }
}
