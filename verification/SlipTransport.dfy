/** `UdpIpSlipTransport`: CoAP datagrams in UDP over IPv4 over SLIP. */
module SlipTransport {
  import opened Bytes
  import opened Pdu
  import opened Slip

  const IP_HEADER_SIZE := 20
  const UDP_HEADER_SIZE := 8
  const MAX_MESSAGE_SIZE := 1232

  type IpAddress = a: Span | |a| == 4 witness [0, 0, 0, 0]

  // --------------------------------------------------------- header checksum

  /** The sum of the 16-bit words of `bytes`. */
  function WordSum(bytes: Span): nat {
    if |bytes| < 2 then 0 else FromBigEndian16(bytes[0], bytes[1]) as int + WordSum(bytes[2..])
  }

  /** One's-complement addition keeps a positive sum in 1..0xFFFF, modulo 0xFFFF. */
  function OnesSum(sum: nat): nat {
    if sum == 0 then 0 else (sum - 1) % 0xFFFF + 1
  }

  /** One folding step keeps the one's-complement sum and makes the number smaller. */
  lemma FoldStep(sum: nat)
    requires sum >= 0x1_0000
    ensures OnesSum(sum % 0x1_0000 + sum / 0x1_0000) == OnesSum(sum)
    ensures sum % 0x1_0000 + sum / 0x1_0000 < sum
  {
    var q, r := sum / 0x1_0000, sum % 0x1_0000;
    assert sum - 1 == 0xFFFF * q + (q + r - 1);
    AddMultiple(q + r - 1, q);
  }

  lemma AddMultiple(x: int, q: nat)
    ensures (0xFFFF * q + x) % 0xFFFF == x % 0xFFFF
  {
  }

  /** `while (sum >> 16) sum = (sum & 0xFFFF) + (sum >> 16)`. */
  method Fold(sum0: uint32) returns (sum: uint32)
    ensures sum == OnesSum(sum0) <= 0xFFFF
  {
    hide OnesSum;
    sum := sum0;
    while sum / 0x1_0000 != 0
      invariant OnesSum(sum) == OnesSum(sum0)
      decreases sum
    {
      FoldStep(sum);
      sum := sum % 0x1_0000 + sum / 0x1_0000;
    }
    FoldedIsSum(sum);
  }

  lemma FoldedIsSum(sum: nat)
    requires sum <= 0xFFFF
    ensures OnesSum(sum) == sum
  {
  }

  function Checksum(header: Span): uint16 {
    0xFFFF - OnesSum(WordSum(header))
  }

  lemma {:induction false} WordSumPrefix(bytes: Span, k: nat)
    requires k % 2 == 0 && k + 2 <= |bytes|
    ensures WordSum(bytes[..k + 2]) == WordSum(bytes[..k]) + FromBigEndian16(bytes[k], bytes[k + 1])
    decreases k
  {
    if k > 0 {
      assert bytes[..k + 2][2..] == bytes[2..][..k] && bytes[..k][2..] == bytes[2..][..k - 2];
      WordSumPrefix(bytes[2..], k - 2);
    } else {
      assert bytes[..2][2..] == [];
    }
  }

  method Ipv4Checksum(header: array<byte>) returns (checksum: uint16)
    requires header.Length >= IP_HEADER_SIZE
    ensures checksum == Checksum(header[..IP_HEADER_SIZE])
  {
    hide OnesSum, WordSum;
    ghost var bytes := header[..IP_HEADER_SIZE];
    var sum: uint32 := 0;
    var i := 0;
    NoWords(bytes);
    while i < IP_HEADER_SIZE
      invariant 0 <= i <= IP_HEADER_SIZE && i % 2 == 0
      invariant sum == WordSum(bytes[..i]) <= i * 0xFFFF
      decreases IP_HEADER_SIZE - i
    {
      WordSumPrefix(bytes, i);
      sum := sum + (header[i] as int * 0x100 + header[i + 1]);
      i := i + 2;
    }
    assert bytes[..IP_HEADER_SIZE] == bytes;
    sum := Fold(sum);
    return 0xFFFF - sum;
  }

  lemma NoWords(bytes: Span)
    ensures WordSum(bytes[..0]) == 0
  {
  }

  /** A sum and the complement of its one's-complement sum add up to "all ones". */
  lemma ComplementCompletes(sum: nat)
    ensures OnesSum(sum + (0xFFFF - OnesSum(sum))) == 0xFFFF
  {
    if sum > 0 {
      var q := (sum - 1) / 0xFFFF;
      assert sum - 1 == 0xFFFF * q + (sum - 1) % 0xFFFF;
      AddMultiple(0xFFFE, q);
    }
  }

  lemma {:induction false} WordSumAppend(xs: Span, ys: Span)
    requires |xs| % 2 == 0
    ensures WordSum(xs + ys) == WordSum(xs) + WordSum(ys)
  {
    if xs == [] {
      assert xs + ys == ys;
    } else {
      WordSumAppend(xs[2..], ys);
      assert (xs + ys)[2..] == xs[2..] + ys;
    }
  }

  // ------------------------------------------------------------------ packets

  /** The first ten bytes of the IPv4 header: everything before the checksum. */
  function IpStart(totalLength: uint16, id: uint16): Span {
    [0x45, 0x00] + BigEndian16(totalLength) + BigEndian16(id) + [0x40, 0x00, 64, 17]
  }

  function IpHeader(totalLength: uint16, id: uint16, checksum: uint16, source: IpAddress, dest: IpAddress): Span {
    IpStart(totalLength, id) + BigEndian16(checksum) + (source + dest)
  }

  /** The header as it is sent, with the checksum of the header whose checksum field is zero. */
  function SentHeader(totalLength: uint16, id: uint16, source: IpAddress, dest: IpAddress): Span {
    IpHeader(totalLength, id, Checksum(IpHeader(totalLength, id, 0, source, dest)), source, dest)
  }

  lemma HeaderSum(totalLength: uint16, id: uint16, checksum: uint16, source: IpAddress, dest: IpAddress)
    ensures WordSum(IpHeader(totalLength, id, checksum, source, dest)) ==
      WordSum(IpStart(totalLength, id)) + checksum + WordSum(source + dest)
  {
    hide IpStart, WordSum, BigEndian16;
    IpStartLength(totalLength, id);
    WordSumAppend(IpStart(totalLength, id), BigEndian16(checksum) + (source + dest));
    WordSumAppend(BigEndian16(checksum), source + dest);
    assert IpHeader(totalLength, id, checksum, source, dest)
      == IpStart(totalLength, id) + (BigEndian16(checksum) + (source + dest));
    WordOfChecksum(checksum);
  }

  lemma IpStartLength(totalLength: uint16, id: uint16)
    ensures |IpStart(totalLength, id)| == 10
    ensures forall x: uint16 :: |BigEndian16(x)| == 2
  {
  }

  lemma WordOfChecksum(checksum: uint16)
    ensures WordSum(BigEndian16(checksum)) == checksum
  {
    assert BigEndian16(checksum)[2..] == [];
  }

  /** Section 3.1 of RFC 791: a receiver sums the sent header to 0xFFFF, for every address, length and id. */
  lemma SentHeaderSumsToAllOnes(totalLength: uint16, id: uint16, source: IpAddress, dest: IpAddress)
    ensures OnesSum(WordSum(SentHeader(totalLength, id, source, dest))) == 0xFFFF
  {
    var zero := IpHeader(totalLength, id, 0, source, dest);
    HeaderSum(totalLength, id, 0, source, dest);
    HeaderSum(totalLength, id, Checksum(zero), source, dest);
    hide IpHeader, WordSum, OnesSum;
    ComplementCompletes(WordSum(zero));
  }

  function UdpHeader(sourcePort: uint16, destPort: Span, length: uint16): Span {
    BigEndian16(sourcePort) + destPort + BigEndian16(length) + [0x00, 0x00]
  }

  /** The IPv4 packet for a datagram: `dest` holds address and port in network order. */
  function Packet(localIp: IpAddress, localPort: uint16, id: uint16, dest: Endpoint, data: Span): Span
    requires |data| <= MAX_MESSAGE_SIZE
  {
    var udpLength := UDP_HEADER_SIZE + |data|;
    SentHeader(IP_HEADER_SIZE + udpLength, id, localIp, dest[..4]) + UdpHeader(localPort, dest[4..6], udpLength) + data
  }

  function MakeEndpoint(ip: IpAddress, port: uint16): Endpoint {
    ip + BigEndian16(port) + seq(26, _ => 0)
  }

  /** The sender and the payload of a frame that is a UDP datagram for `localIp`:`localPort`. */
  function ParseFrame(localIp: IpAddress, localPort: uint16, frame: Span): Option<(Endpoint, Span)> {
    if |frame| < IP_HEADER_SIZE + UDP_HEADER_SIZE || frame[0] / 0x10 != 4 then None
    else
      var ihl := frame[0] % 0x10 * 4;
      if ihl < IP_HEADER_SIZE || |frame| < ihl + UDP_HEADER_SIZE || frame[9] != 17 || frame[16..20] != localIp then None
      else
        var udp := frame[ihl..];
        var length := FromBigEndian16(udp[4], udp[5]);
        if FromBigEndian16(udp[2], udp[3]) != localPort || length < UDP_HEADER_SIZE || length as int > |udp| then None
        else Some((frame[12..16] + udp[..2] + seq(26, _ => 0), udp[UDP_HEADER_SIZE..length]))
  }

  lemma PacketShape(localIp: IpAddress, localPort: uint16, id: uint16, dest: Endpoint, data: Span)
    requires |data| <= MAX_MESSAGE_SIZE
    ensures var p := Packet(localIp, localPort, id, dest, data);
      && |p| == 28 + |data| && p[0] == 0x45 && p[9] == 17
      && p[12..16] == localIp && p[16..20] == dest[..4]
      && p[20..] == UdpHeader(localPort, dest[4..6], UDP_HEADER_SIZE + |data|) + data
  {
    hide Checksum, BigEndian16;
    IpStartLength(IP_HEADER_SIZE + UDP_HEADER_SIZE + |data|, id);
    var start := IpStart(IP_HEADER_SIZE + UDP_HEADER_SIZE + |data|, id);
    var p := Packet(localIp, localPort, id, dest, data);
    assert p[..10] == start;
    assert p[12..16] == localIp;
    assert p[16..20] == dest[..4];
  }

  /** The sum of the ten 16-bit words of an IPv4 header. */
  function HeaderWords(p: Span, words: nat): nat
    requires 2 * words <= |p|
  {
    if words == 0 then 0 else HeaderWords(p, words - 1) + p[2 * words - 2] as int * 256 + p[2 * words - 1]
  }

  lemma {:induction false} WordsAreSummed(p: Span, words: nat)
    requires 2 * words <= |p|
    ensures HeaderWords(p, words) == WordSum(p[..2 * words])
  {
    hide WordSum;
    if words > 0 {
      WordsAreSummed(p, words - 1);
      WordSumPrefix(p, 2 * words - 2);
    } else {
      NoWords(p);
    }
  }

  lemma HighByteFirst(x: uint16)
    ensures BigEndian16(x)[0] as int * 256 + BigEndian16(x)[1] == x && |BigEndian16(x)| == 2
  {
  }

  lemma IpHeaderInNumbers(totalLength: uint16, id: uint16, checksum: uint16, source: IpAddress, dest: IpAddress)
    ensures var p := IpHeader(totalLength, id, checksum, source, dest);
      && |p| == 20 && p[0] == 0x45 && p[1] == 0
      && p[2] as int * 256 + p[3] == totalLength && p[4] as int * 256 + p[5] == id
      && p[6] == 0x40 && p[7] == 0 && p[8] == 64 && p[9] == 17
      && p[10] as int * 256 + p[11] == checksum && p[12..16] == source && p[16..20] == dest
  {
    hide BigEndian16;
    HighByteFirst(totalLength);
    HighByteFirst(id);
    HighByteFirst(checksum);
  }

  lemma UdpHeaderInNumbers(sourcePort: uint16, destPort: Span, length: uint16)
    requires |destPort| == 2
    ensures var p := UdpHeader(sourcePort, destPort, length);
      && |p| == 8 && p[0] as int * 256 + p[1] == sourcePort && p[2..4] == destPort
      && p[4] as int * 256 + p[5] == length && p[6] == 0 && p[7] == 0
  {
    hide BigEndian16;
    HighByteFirst(sourcePort);
    HighByteFirst(length);
  }

  lemma SentHeaderInNumbers(totalLength: uint16, id: uint16, source: IpAddress, dest: IpAddress)
    ensures var p := SentHeader(totalLength, id, source, dest);
      && |p| == 20 && p[0] == 0x45 && p[1] == 0
      && p[2] as int * 256 + p[3] == totalLength && p[4] as int * 256 + p[5] == id
      && p[6] == 0x40 && p[7] == 0 && p[8] == 64 && p[9] == 17
      && HeaderWords(p, 10) > 0 && HeaderWords(p, 10) % 0xFFFF == 0 && p[12..16] == source && p[16..20] == dest
  {
    hide IpHeader, Checksum, WordSum, OnesSum, HeaderWords;
    var checksum := Checksum(IpHeader(totalLength, id, 0, source, dest));
    IpHeaderInNumbers(totalLength, id, checksum, source, dest);
    SentHeaderSumsToAllOnes(totalLength, id, source, dest);
    var p := SentHeader(totalLength, id, source, dest);
    WordsAreSummed(p, 10);
    assert p[..20] == p;
    AllOnesIsMultiple(WordSum(p));
  }

  /**
   * The packet of a datagram, byte for byte (RFC 791, RFC 768): version 4 and five words of header, total length,
   * id, "don't fragment", a time to live of 64, protocol 17, a checksum that makes the ten words of the
   * header sum to a multiple of 65535, the addresses, the ports, the UDP length, no UDP checksum, the data.
   */
  lemma PacketOnTheWire(localIp: IpAddress, localPort: uint16, id: uint16, dest: Endpoint, data: Span)
    requires |data| <= MAX_MESSAGE_SIZE
    ensures var p := Packet(localIp, localPort, id, dest, data);
      && |p| == 28 + |data| && p[0] == 0x45 && p[1] == 0
      && p[2] as int * 256 + p[3] == |p| && p[4] as int * 256 + p[5] == id
      && p[6] == 0x40 && p[7] == 0 && p[8] == 64 && p[9] == 17
      && HeaderWords(p, 10) > 0 && HeaderWords(p, 10) % 0xFFFF == 0
      && p[12..16] == localIp && p[16..20] == dest[..4]
      && p[20] as int * 256 + p[21] == localPort && p[22..24] == dest[4..6]
      && p[24] as int * 256 + p[25] == 8 + |data| && p[26] == 0 && p[27] == 0 && p[28..] == data
  {
    hide SentHeader, UdpHeader, HeaderWords;
    var length := UDP_HEADER_SIZE + |data|;
    var header, udp := SentHeader(IP_HEADER_SIZE + length, id, localIp, dest[..4]), UdpHeader(localPort, dest[4..6], length);
    SentHeaderInNumbers(IP_HEADER_SIZE + length, id, localIp, dest[..4]);
    UdpHeaderInNumbers(localPort, dest[4..6], length);
    var p := Packet(localIp, localPort, id, dest, data);
    assert p == header + udp + data && header + udp + data == header + (udp + data);
    SameWords(header, p, 10);
    PrefixSlice(header, udp + data, 12, 16);
    PrefixSlice(header, udp + data, 16, 20);
    InnerSlice(header, udp, data);
  }

  lemma InnerSlice(header: Span, udp: Span, data: Span)
    requires |header| == 20 && |udp| == 8
    ensures var p := header + udp + data;
      && (forall i :: 0 <= i < 8 ==> p[20 + i] == udp[i]) && p[22..24] == udp[2..4] && p[28..] == data
      && p[20] == udp[0] && p[21] == udp[1] && p[24] == udp[4] && p[25] == udp[5] && p[26] == udp[6] && p[27] == udp[7]
  {
  }

  lemma PrefixSlice(xs: Span, ys: Span, lo: nat, hi: nat)
    requires lo <= hi <= |xs|
    ensures (xs + ys)[lo..hi] == xs[lo..hi]
  {
  }

  lemma AllOnesIsMultiple(sum: nat)
    requires OnesSum(sum) == 0xFFFF
    ensures sum > 0 && sum % 0xFFFF == 0
  {
    var q := (sum - 1) / 0xFFFF;
    assert sum == 0xFFFF * (q + 1);
  }

  lemma {:induction false} SameWords(p: Span, q: Span, words: nat)
    requires 2 * words <= |p| <= |q| && forall i :: 0 <= i < |p| ==> p[i] == q[i]
    ensures HeaderWords(p, words) == HeaderWords(q, words)
  {
    if words > 0 {
      SameWords(p, q, words - 1);
    }
  }

  lemma PortRoundTrip(x: uint16)
    ensures var b := BigEndian16(x); |b| == 2 && FromBigEndian16(b[0], b[1]) == x
  {
  }

  lemma UdpShape(sourcePort: uint16, destPort: Span, length: uint16, data: Span)
    requires |destPort| == 2
    ensures var udp := UdpHeader(sourcePort, destPort, length) + data;
      && |udp| == UDP_HEADER_SIZE + |data| && udp[..2] == BigEndian16(sourcePort)
      && [udp[2], udp[3]] == destPort && [udp[4], udp[5]] == BigEndian16(length)
      && udp[UDP_HEADER_SIZE..] == data
  {
    hide BigEndian16;
    PortRoundTrip(sourcePort);
    PortRoundTrip(length);
    var udp := UdpHeader(sourcePort, destPort, length) + data;
    assert udp[..2] == BigEndian16(sourcePort);
    assert [udp[2], udp[3]] == udp[2..4] == destPort;
    assert [udp[4], udp[5]] == udp[4..6] == BigEndian16(length);
  }

  /** A packet sent to an endpoint is understood there, with the sender's local endpoint. */
  lemma PacketRoundTrip(fromIp: IpAddress, fromPort: uint16, id: uint16, toIp: IpAddress, toPort: uint16, data: Span)
    requires |data| <= MAX_MESSAGE_SIZE
    ensures var packet := Packet(fromIp, fromPort, id, MakeEndpoint(toIp, toPort), data);
      && IsDeliverable(packet)
      && ParseFrame(toIp, toPort, packet) == Some((MakeEndpoint(fromIp, fromPort), data))
  {
    hide Packet, UdpHeader, BigEndian16, FromBigEndian16;
    PortRoundTrip(toPort);
    PortRoundTrip(fromPort);
    PortRoundTrip(UDP_HEADER_SIZE + |data|);
    var dest := MakeEndpoint(toIp, toPort);
    assert dest[..4] == toIp && dest[4..6] == BigEndian16(toPort);
    PacketShape(fromIp, fromPort, id, dest, data);
    UdpShape(fromPort, dest[4..6], UDP_HEADER_SIZE + |data|, data);
    var udp := Packet(fromIp, fromPort, id, dest, data)[20..];
    assert FromBigEndian16([udp[2], udp[3]][0], [udp[2], udp[3]][1]) == toPort;
    assert FromBigEndian16([udp[4], udp[5]][0], [udp[4], udp[5]][1]) as int == |udp|;
    assert udp[UDP_HEADER_SIZE..|udp|] == data;
  }

  /** A frame cut into its parts; `trailer` is what stands behind the UDP datagram. */
  datatype UdpFrame = UdpFrame(
    ipHeader: Span, sourcePort: Span, destPort: uint16, checksum: Span, data: Span, trailer: Span)

  /** An IPv4 header of 20 to 60 bytes with protocol UDP, and a UDP header whose length fits. */
  predicate IsUdpFrame(u: UdpFrame) {
    && IP_HEADER_SIZE <= |u.ipHeader| <= 60 && u.ipHeader[0] as int == 0x40 + |u.ipHeader| / 4 && |u.ipHeader| % 4 == 0
    && u.ipHeader[9] == 17 && |u.sourcePort| == 2 && |u.checksum| == 2 && UDP_HEADER_SIZE + |u.data| <= 0xFFFF
  }

  function UdpPart(u: UdpFrame): Span
    requires IsUdpFrame(u)
  {
    u.sourcePort + BigEndian16(u.destPort) + BigEndian16(UDP_HEADER_SIZE + |u.data|) + u.checksum + u.data + u.trailer
  }

  function Reassembled(u: UdpFrame): Span
    requires IsUdpFrame(u)
  {
    u.ipHeader + UdpPart(u)
  }

  lemma UdpPartShape(u: UdpFrame)
    requires IsUdpFrame(u)
    ensures var udp := UdpPart(u);
      && |udp| == UDP_HEADER_SIZE + |u.data| + |u.trailer| && udp[..2] == u.sourcePort
      && FromBigEndian16(udp[2], udp[3]) == u.destPort
      && FromBigEndian16(udp[4], udp[5]) as int == UDP_HEADER_SIZE + |u.data|
      && udp[UDP_HEADER_SIZE..UDP_HEADER_SIZE + |u.data|] == u.data
  {
    hide BigEndian16, FromBigEndian16;
    PortRoundTrip(u.destPort);
    PortRoundTrip(UDP_HEADER_SIZE + |u.data|);
    var udp := UdpPart(u);
    assert udp[2] == BigEndian16(u.destPort)[0] && udp[3] == BigEndian16(u.destPort)[1];
    var length := BigEndian16(UDP_HEADER_SIZE + |u.data|);
    assert udp[4] == length[0] && udp[5] == length[1];
  }

  /** A well-formed frame is delivered exactly when address and port are the local ones. */
  lemma UdpFrameIsDelivered(localIp: IpAddress, localPort: uint16, u: UdpFrame)
    requires IsUdpFrame(u)
    ensures ParseFrame(localIp, localPort, Reassembled(u)) ==
      if u.ipHeader[16..20] == localIp && u.destPort == localPort
      then Some((u.ipHeader[12..16] + u.sourcePort + seq(26, _ => 0), u.data)) else None
  {
    hide UdpPart, FromBigEndian16;
    UdpPartShape(u);
    var frame := Reassembled(u);
    assert frame[0] / 0x10 == 4 && frame[0] % 0x10 * 4 == |u.ipHeader|;
    assert frame[|u.ipHeader|..] == UdpPart(u);
    assert frame[16..20] == u.ipHeader[16..20] && frame[12..16] == u.ipHeader[12..16];
  }

  /** Whatever is delivered comes from a well-formed frame. */
  lemma DeliveredIsUdpFrame(localIp: IpAddress, localPort: uint16, frame: Span) returns (u: UdpFrame)
    requires ParseFrame(localIp, localPort, frame).Some?
    ensures IsUdpFrame(u) && frame == Reassembled(u)
  {
    var ihl := frame[0] % 0x10 * 4;
    var udp := frame[ihl..];
    var length := FromBigEndian16(udp[4], udp[5]);
    u := UdpFrame(frame[..ihl], udp[..2], localPort, udp[6..8], udp[UDP_HEADER_SIZE..length], udp[length..]);
    HeaderLength(frame[0]);
    BigEndianRoundTrip(udp[2], udp[3]);
    BigEndianRoundTrip(udp[4], udp[5]);
    hide BigEndian16, FromBigEndian16, IsUdpFrame;
    assert IsUdpFrame(u) by { DeliveredIsWellFormed(localIp, localPort, frame, u); }
    UdpIsItsParts(udp, length as int);
    assert frame == frame[..ihl] + udp;
  }

  lemma DeliveredIsWellFormed(localIp: IpAddress, localPort: uint16, frame: Span, u: UdpFrame)
    requires ParseFrame(localIp, localPort, frame).Some?
    requires u.ipHeader == frame[..frame[0] % 0x10 * 4]
    requires |u.sourcePort| == 2 && |u.checksum| == 2 && UDP_HEADER_SIZE + |u.data| <= 0xFFFF
    ensures IsUdpFrame(u)
  {
    HeaderLength(frame[0]);
    hide FromBigEndian16;
  }

  lemma HeaderLength(versionIhl: byte)
    ensures versionIhl / 0x10 == 4 ==> versionIhl == 0x40 + versionIhl % 0x10 * 4 / 4
    ensures versionIhl % 0x10 * 4 <= 60 && versionIhl % 0x10 * 4 % 4 == 0
  {
  }

  lemma UdpIsItsParts(udp: Span, length: nat)
    requires UDP_HEADER_SIZE <= length <= |udp|
    ensures udp == udp[..2] + [udp[2], udp[3]] + [udp[4], udp[5]] + udp[6..8] + udp[UDP_HEADER_SIZE..length] + udp[length..]
  {
  }

  // ----------------------------------------------------------------- streams

  function ParseAll(localIp: IpAddress, localPort: uint16, frames: seq<Span>): seq<(Endpoint, Span)> {
    if frames == [] then []
    else AsSeq(ParseFrame(localIp, localPort, frames[0])) + ParseAll(localIp, localPort, frames[1..])
  }

  function AsSeq<T>(x: Option<T>): seq<T> {
    if x.Some? then [x.value] else []
  }

  /** What a receive loop that reads `bytes` from its start delivers. */
  function Received(localIp: IpAddress, localPort: uint16, bytes: Span): seq<(Endpoint, Span)> {
    ParseAll(localIp, localPort, Feed(IDLE, bytes).1)
  }

  predicate AreMessages(list: seq<Span>) {
    forall i :: 0 <= i < |list| ==> |list[i]| <= MAX_MESSAGE_SIZE
  }

  /** The packets of consecutive sends; the identification wraps at 16 bits. */
  function Packets(localIp: IpAddress, localPort: uint16, id: uint16, dest: Endpoint, list: seq<Span>): seq<Span>
    requires AreMessages(list)
    decreases list
  {
    if list == [] then []
    else [Packet(localIp, localPort, id, dest, list[0])] + Packets(localIp, localPort, ToU16(id + 1), dest, list[1..])
  }

  function From(sender: Endpoint, list: seq<Span>): seq<(Endpoint, Span)> {
    if list == [] then [] else [(sender, list[0])] + From(sender, list[1..])
  }

  lemma {:induction false} PacketsAreUnderstood(
    fromIp: IpAddress, fromPort: uint16, id: uint16, toIp: IpAddress, toPort: uint16, list: seq<Span>)
    requires AreMessages(list)
    ensures var packets := Packets(fromIp, fromPort, id, MakeEndpoint(toIp, toPort), list);
      && Deliverable(packets) == packets
      && ParseAll(toIp, toPort, packets) == From(MakeEndpoint(fromIp, fromPort), list)
    decreases list
  {
    hide Packet, ParseFrame, MakeEndpoint, IsDeliverable;
    if list != [] {
      PacketRoundTrip(fromIp, fromPort, id, toIp, toPort, list[0]);
      PacketsAreUnderstood(fromIp, fromPort, ToU16(id + 1), toIp, toPort, list[1..]);
    }
  }

  lemma FirstFrameFromIdle(list: seq<Span>)
    ensures Feed(IDLE, Frames(list)).1 == Deliverable(list)
  {
    if list == [] {
    } else {
      hide IsDeliverable, Frame, OnByte;
      FeedFrame(IDLE, list[0]);
      FeedFrames(list[1..]);
      FeedAppend(IDLE, Frame(list[0]), Frames(list[1..]));
      hide Feed;
      var delivered := if IsDeliverable(list[0]) then [list[0]] else [];
      assert Completed(IDLE) + delivered == delivered;
    }
  }

  /** A list of messages sent by one transport to another is delivered exactly, in order and with the sender. */
  lemma StreamRoundTrip(
    fromIp: IpAddress, fromPort: uint16, id: uint16, toIp: IpAddress, toPort: uint16, list: seq<Span>)
    requires AreMessages(list)
    ensures Received(toIp, toPort, Frames(Packets(fromIp, fromPort, id, MakeEndpoint(toIp, toPort), list)))
      == From(MakeEndpoint(fromIp, fromPort), list)
  {
    PacketsAreUnderstood(fromIp, fromPort, id, toIp, toPort, list);
    FirstFrameFromIdle(Packets(fromIp, fromPort, id, MakeEndpoint(toIp, toPort), list));
  }

  // ---------------------------------------------------------------- the code

  datatype TransportError = Ok | Error

  /** Copies `bytes` to `a[at..]`. */
  method CopyTo(a: array<byte>, at: nat, bytes: Span)
    requires at + |bytes| <= a.Length
    modifies a
    ensures a[..at + |bytes|] == old(a[..at]) + bytes && a[at + |bytes|..] == old(a[at + |bytes|..])
  {
    ghost var before := a[..];
    for i := 0 to |bytes|
      invariant a[..] == before[..at] + bytes[..i] + before[at + i..]
    {
      ghost var now := a[..];
      a[at + i] := bytes[i];
      assert a[..] == now[at + i := bytes[i]];
    }
    assert a[..] == before[..at] + bytes + before[at + |bytes|..];
  }

  /** The conversion `static_cast<uint8_t>`. */
  function LowByte(c: int): byte {
    c % 0x100
  }

  /** The bytes of a sequence of `ReadByte` results: negative ones are timeouts. */
  function BytesOf(results: seq<int>): Span {
    if results == [] then []
    else BytesOf(results[..|results| - 1]) + if results[|results| - 1] < 0 then [] else [LowByte(results[|results| - 1])]
  }

  class UdpIpSlipTransport {
    const serial: SerialPort
    const localIp: IpAddress
    const localPort: uint16
    var ipId: uint16
    /** The calls of the registered receiver's `OnReceive`. */
    var delivered: seq<(Endpoint, Span)>

    constructor (serial: SerialPort, localIp: IpAddress, localPort: uint16)
      ensures this.serial == serial && this.localIp == localIp && this.localPort == localPort
      ensures ipId == 0 && delivered == []
    {
      this.serial, this.localIp, this.localPort := serial, localIp, localPort;
      ipId, delivered := 0, [];
    }

    /** The IPv4 header with a zero checksum field, byte by byte. */
    method FillIpHeader(packet: array<byte>, totalLength: uint16, id: uint16, dest: Endpoint)
      requires packet.Length >= IP_HEADER_SIZE
      modifies packet
      ensures packet[..IP_HEADER_SIZE] == IpHeader(totalLength, id, 0, localIp, dest[..4])
    {
      FillIpStart(packet, totalLength, id);
      ghost var start := packet[..12];
      hide IpStart, BigEndian16;
      CopyTo(packet, 12, localIp);
      CopyTo(packet, 16, dest[..4]);
      assert start + localIp + dest[..4] == start + (localIp + dest[..4]);
    }

    method FillIpStart(packet: array<byte>, totalLength: uint16, id: uint16)
      requires packet.Length >= IP_HEADER_SIZE
      modifies packet
      ensures packet[..12] == IpStart(totalLength, id) + BigEndian16(0)
    {
      packet[0], packet[1] := 0x45, 0x00;
      packet[2], packet[3] := totalLength / 0x100, totalLength % 0x100;
      packet[4], packet[5] := id / 0x100, id % 0x100;
      ghost var lengths := packet[..6];
      assert lengths == [0x45, 0x00] + BigEndian16(totalLength) + BigEndian16(id);
      FillFixedFields(packet);
      assert BigEndian16(0) == [0x00, 0x00];
      hide BigEndian16;
      assert lengths + [0x40, 0x00, 64, 17, 0x00, 0x00] == lengths + [0x40, 0x00, 64, 17] + [0x00, 0x00];
    }

    method FillFixedFields(packet: array<byte>)
      requires packet.Length >= IP_HEADER_SIZE
      modifies packet
      ensures packet[..12] == old(packet[..6]) + [0x40, 0x00, 64, 17, 0x00, 0x00]
    {
      packet[6], packet[7] := 0x40, 0x00;
      packet[8], packet[9] := 64, 17;
      packet[10], packet[11] := 0x00, 0x00;
    }

    method FillChecksum(packet: array<byte>, checksum: uint16)
      requires packet.Length >= IP_HEADER_SIZE
      modifies packet
      ensures var before := old(packet[..IP_HEADER_SIZE]);
        packet[..IP_HEADER_SIZE] == before[..10] + BigEndian16(checksum) + before[12..]
    {
      packet[10] := checksum / 0x100;
      packet[11] := checksum % 0x100;
    }

    method Send(dest: Endpoint, data: Span) returns (error: TransportError)
      modifies this`ipId, serial
      ensures error.Ok? <==> |data| <= 1232
      ensures error.Ok? ==> ipId == ToU16(old(ipId) + 1)
      ensures error.Ok? ==> serial.line == old(serial.line) + Frame(Packet(localIp, localPort, old(ipId), dest, data))
      ensures !error.Ok? ==> ipId == old(ipId) && serial.line == old(serial.line)
    {
      if |data| > MAX_MESSAGE_SIZE {
        return Error;
      }
      hide Frame, WordSum, OnesSum, IpHeader, SentHeader, UdpHeader, BigEndian16, Checksum, Packet, ToU16;
      var udpLength: uint16 := UDP_HEADER_SIZE + |data|;
      var totalLength: uint16 := IP_HEADER_SIZE + udpLength;
      var packet := new byte[MAX_FRAME](_ => 0);
      var id := ipId;
      ipId := ToU16(ipId + 1);
      FillIpHeader(packet, totalLength, id, dest);
      var checksum := Ipv4Checksum(packet);
      FillChecksum(packet, checksum);
      ChecksumFilledIn(totalLength, id, localIp, dest[..4]);
      PacketParts(localIp, localPort, id, dest, data);
      CopyTo(packet, 20, BigEndian16(localPort));
      CopyTo(packet, 22, dest[4..6]);
      CopyTo(packet, 24, BigEndian16(udpLength) + [0x00, 0x00]);
      CopyTo(packet, 28, data);
      SlipSendFrame(serial, packet[..28 + |data|]);
      return Ok;
    }

    /** Validates a frame and hands its payload to the receiver. */
    method ProcessFrame(frame: Span)
      modifies this`delivered
      ensures delivered == old(delivered) + AsSeq(ParseFrame(localIp, localPort, frame))
    {
      if |frame| < IP_HEADER_SIZE + UDP_HEADER_SIZE {
        return;
      }
      var versionIhl := frame[0];
      if versionIhl / 0x10 != 4 {
        return;
      }
      var ihl := versionIhl % 0x10 * 4;
      if ihl < IP_HEADER_SIZE || |frame| < ihl + UDP_HEADER_SIZE {
        return;
      }
      if frame[9] != 17 || frame[16..20] != localIp {
        return;
      }
      var dstPort := frame[ihl + 2] as int * 0x100 + frame[ihl + 3];
      if dstPort != localPort {
        return;
      }
      var udpLen := frame[ihl + 4] as int * 0x100 + frame[ihl + 5];
      if udpLen < UDP_HEADER_SIZE {
        return;
      }
      var coapSize := udpLen - UDP_HEADER_SIZE;
      var payloadOffset := ihl + UDP_HEADER_SIZE;
      if payloadOffset + coapSize > |frame| {
        return;
      }
      assert frame[ihl..][..2] == [frame[ihl], frame[ihl + 1]];
      assert frame[ihl..][UDP_HEADER_SIZE..udpLen] == frame[payloadOffset..payloadOffset + coapSize];
      var sender: Endpoint := frame[12..16] + [frame[ihl], frame[ihl + 1]] + seq(26, _ => 0);
      delivered := delivered + [(sender, frame[payloadOffset..payloadOffset + coapSize])];
    }

    /** One byte of the receive loop. */
    method OnRead(rx: SlipReceiver, b: byte)
      requires rx.Valid()
      modifies this`delivered, rx, rx.frameBuf
      ensures rx.Valid() && rx.State() == OnByte(old(rx.State()), b).0
      ensures delivered == old(delivered) + ParseAll(localIp, localPort, OnByte(old(rx.State()), b).1)
    {
      hide ParseFrame, ParseAll, OnByte;
      var frame := rx.Accept(b);
      ParseAtMostOne(localIp, localPort, frame);
      assert delivered + [] == delivered;
      if frame.Some? {
        ProcessFrame(frame.value);
      }
    }

    /** The receive loop over the results of its `ReadByte` calls. */
    method ReceiveLoop(results: seq<int>)
      modifies this`delivered
      ensures delivered == old(delivered) + Received(localIp, localPort, BytesOf(results))
    {
      hide ParseFrame, ParseAll, OnByte, Received, BytesOf, Feed, LowByte;
      var rx := new SlipReceiver();
      ReceivedNothing(localIp, localPort);
      assert results[..0] == [] && delivered + [] == delivered;
      for i := 0 to |results|
        invariant rx.Valid() && fresh(rx) && fresh(rx.frameBuf)
        invariant rx.State() == Feed(IDLE, BytesOf(results[..i])).0
        invariant delivered == old(delivered) + Received(localIp, localPort, BytesOf(results[..i]))
      {
        var c := results[i];
        ghost var before := BytesOf(results[..i]);
        assert results[..i + 1] == results[..i] + [c];
        BytesOfOneMore(results[..i], c);
        if c >= 0 {
          var b := LowByte(c);
          ReceivedOneMore(localIp, localPort, before, b);
          ghost var soFar := Received(localIp, localPort, before);
          ghost var more := ParseAll(localIp, localPort, OnByte(rx.State(), b).1);
          OnRead(rx, b);
          assert old(delivered) + soFar + more == old(delivered) + (soFar + more);
        }
      }
      assert results[..|results|] == results;
    }
  }

  lemma ReceivedNothing(localIp: IpAddress, localPort: uint16)
    ensures BytesOf([]) == [] && Feed(IDLE, []).0 == IDLE && Received(localIp, localPort, []) == []
  {
  }

  lemma BytesOfOneMore(results: seq<int>, c: int)
    ensures BytesOf(results + [c]) == if c < 0 then BytesOf(results) else BytesOf(results) + [LowByte(c)]
  {
    assert (results + [c])[..|results|] == results;
    assert BytesOf(results) + [] == BytesOf(results);
  }

  /** One more byte. */
  lemma ReceivedOneMore(localIp: IpAddress, localPort: uint16, before: Span, b: byte)
    ensures var s := Feed(IDLE, before).0;
      && Feed(IDLE, before + [b]).0 == OnByte(s, b).0
      && Received(localIp, localPort, before + [b]) ==
        Received(localIp, localPort, before) + ParseAll(localIp, localPort, OnByte(s, b).1)
  {
    hide ParseFrame, OnByte, Feed, ParseAll;
    FeedAppend(IDLE, before, [b]);
    FeedOne(Feed(IDLE, before).0, b);
    ParseAllAppend(localIp, localPort, Feed(IDLE, before).1, OnByte(Feed(IDLE, before).0, b).1);
  }

  lemma ParseAtMostOne(localIp: IpAddress, localPort: uint16, frame: Option<Span>)
    ensures ParseAll(localIp, localPort, if frame.Some? then [frame.value] else []) ==
      if frame.Some? then AsSeq(ParseFrame(localIp, localPort, frame.value)) else []
  {
    hide ParseFrame;
    if frame.Some? {
      assert [frame.value][1..] == [];
    }
  }

  /** The packet as it is filled in, part after part. */
  lemma PacketParts(localIp: IpAddress, localPort: uint16, id: uint16, dest: Endpoint, data: Span)
    requires |data| <= MAX_MESSAGE_SIZE
    ensures var length := UDP_HEADER_SIZE + |data|;
      && (forall x: uint16 :: |BigEndian16(x)| == 2)
      && Packet(localIp, localPort, id, dest, data) ==
        SentHeader(IP_HEADER_SIZE + length, id, localIp, dest[..4]) + BigEndian16(localPort) + dest[4..6]
        + (BigEndian16(length) + [0x00, 0x00]) + data
  {
    hide SentHeader;
  }

  lemma ChecksumFilledIn(totalLength: uint16, id: uint16, source: IpAddress, dest: IpAddress)
    ensures var zero := IpHeader(totalLength, id, 0, source, dest);
      var c := Checksum(zero);
      |zero| == IP_HEADER_SIZE && zero[..10] + BigEndian16(c) + zero[12..] == SentHeader(totalLength, id, source, dest)
  {
  }

  lemma {:induction false} ParseAllAppend(localIp: IpAddress, localPort: uint16, xs: seq<Span>, ys: seq<Span>)
    ensures ParseAll(localIp, localPort, xs + ys) == ParseAll(localIp, localPort, xs) + ParseAll(localIp, localPort, ys)
  {
    hide ParseFrame, AsSeq;
    if xs == [] {
      assert xs + ys == ys;
    } else {
      ParseAllAppend(localIp, localPort, xs[1..], ys);
      assert (xs + ys)[1..] == xs[1..] + ys && (xs + ys)[0] == xs[0];
      var head := AsSeq(ParseFrame(localIp, localPort, xs[0]));
      var a, b := ParseAll(localIp, localPort, xs[1..]), ParseAll(localIp, localPort, ys);
      assert head + (a + b) == head + a + b;
    }
  }

  // ------------------------------------------------------- from end to end

  lemma {:induction false} PacketsAppend(
    localIp: IpAddress, localPort: uint16, id: uint16, dest: Endpoint, list: seq<Span>, data: Span)
    requires AreMessages(list) && |data| <= MAX_MESSAGE_SIZE
    ensures Packets(localIp, localPort, id, dest, list + [data]) ==
      Packets(localIp, localPort, id, dest, list) + [Packet(localIp, localPort, ToU16(id + |list|), dest, data)]
    decreases list
  {
    hide Packet;
    if list == [] {
      assert list + [data] == [data] && [data][1..] == [];
    } else {
      PacketsAppend(localIp, localPort, ToU16(id + 1), dest, list[1..], data);
      assert (list + [data])[1..] == list[1..] + [data];
      NextId(id, |list|);
    }
  }

  lemma NextId(id: uint16, k: nat)
    requires k > 0
    ensures ToU16(ToU16(id + 1) + (k - 1)) == ToU16(id + k)
  {
  }

  lemma AfterId(id: uint16, k: nat)
    ensures ToU16(ToU16(id + k) + 1) == ToU16(id + (k + 1))
  {
  }

  lemma {:induction false} FramesAppend(list: seq<Span>, data: Span)
    ensures Frames(list + [data]) == Frames(list) + Frame(data)
  {
    hide Frame;
    if list == [] {
      assert list + [data] == [data] && [data][1..] == [];
      assert Frame(data) + Frames([]) == [] + Frame(data);
    } else {
      FramesAppend(list[1..], data);
      assert (list + [data])[1..] == list[1..] + [data];
      assert Frame(list[0]) + (Frames(list[1..]) + Frame(data)) == Frame(list[0]) + Frames(list[1..]) + Frame(data);
    }
  }

  /** What one more `Send` adds to the line. */
  lemma LineAfterSend(line: Span, localIp: IpAddress, localPort: uint16, id: uint16, dest: Endpoint, list: seq<Span>, i: nat)
    requires AreMessages(list) && i < |list|
    ensures line + Frames(Packets(localIp, localPort, id, dest, list[..i]))
        + Frame(Packet(localIp, localPort, ToU16(id + i), dest, list[i]))
      == line + Frames(Packets(localIp, localPort, id, dest, list[..i + 1]))
  {
    hide Packet, Packets, Frame, Frames;
    assert list[..i + 1] == list[..i] + [list[i]];
    PacketsAppend(localIp, localPort, id, dest, list[..i], list[i]);
    FramesAppend(Packets(localIp, localPort, id, dest, list[..i]), Packet(localIp, localPort, ToU16(id + i), dest, list[i]));
    var before := Packets(localIp, localPort, id, dest, list[..i]);
    var last := Packet(localIp, localPort, ToU16(id + i), dest, list[i]);
    assert line + (Frames(before) + Frame(last)) == line + Frames(before) + Frame(last);
  }

  /** An application that sends the messages of a list one after the other. */
  method SendList(sender: UdpIpSlipTransport, dest: Endpoint, list: seq<Span>)
    requires AreMessages(list)
    modifies sender`ipId, sender.serial
    ensures sender.serial.line == old(sender.serial.line)
      + Frames(Packets(sender.localIp, sender.localPort, old(sender.ipId), dest, list))
  {
    hide Packet, Packets, Frame, Frames, ToU16;
    ghost var line, id := sender.serial.line, sender.ipId;
    NothingSent(line, sender.localIp, sender.localPort, id, dest, list);
    for i := 0 to |list|
      invariant sender.ipId == ToU16(id + i)
      invariant sender.serial.line == line + Frames(Packets(sender.localIp, sender.localPort, id, dest, list[..i]))
    {
      LineAfterSend(line, sender.localIp, sender.localPort, id, dest, list, i);
      AfterId(id, i);
      var _ := sender.Send(dest, list[i]);
    }
    assert list[..|list|] == list;
  }

  lemma NothingSent(line: Span, localIp: IpAddress, localPort: uint16, id: uint16, dest: Endpoint, list: seq<Span>)
    requires AreMessages(list)
    ensures line + Frames(Packets(localIp, localPort, id, dest, list[..0])) == line && ToU16(id + 0) == id
  {
    assert list[..0] == [] && line + [] == line;
  }

  /** `ReadByte` results that deliver a line, with a timeout before the byte at `k` for every `k` in `late`. */
  function ReadResults(line: Span, late: set<nat>): seq<int> {
    if line == [] then []
    else
      var k := |line| - 1;
      Waited(ReadResults(line[..k], late), k in late) + [line[k]]
  }

  function Waited(results: seq<int>, late: bool): seq<int> {
    if late then results + [-1] else results
  }

  lemma {:induction false} ResultsCarryLine(line: Span, late: set<nat>)
    ensures BytesOf(ReadResults(line, late)) == line
  {
    hide BytesOf, Waited, ReadResults;
    if line == [] {
      NothingRead(late);
    } else {
      var k := |line| - 1;
      ResultsCarryLine(line[..k], late);
      ReadOneMore(line, late);
      WaitingAddsNothing(ReadResults(line[..k], late), k in late);
      ByteIsRead(Waited(ReadResults(line[..k], late), k in late), line[k]);
      assert line == line[..k] + [line[k]];
    }
  }

  lemma NothingRead(late: set<nat>)
    ensures ReadResults([], late) == [] && BytesOf([]) == []
  {
  }

  lemma ReadOneMore(line: Span, late: set<nat>)
    requires line != []
    ensures var k := |line| - 1;
      ReadResults(line, late) == Waited(ReadResults(line[..k], late), k in late) + [line[k]]
  {
  }

  lemma WaitingAddsNothing(results: seq<int>, late: bool)
    ensures BytesOf(Waited(results, late)) == BytesOf(results)
  {
    if late {
      assert (results + [-1])[..|results|] == results;
      assert BytesOf(results) + [] == BytesOf(results);
    }
  }

  lemma ByteIsRead(results: seq<int>, b: byte)
    ensures BytesOf(results + [b]) == BytesOf(results) + [b]
  {
    assert (results + [b])[..|results|] == results;
  }

  /**
   * End to end over the code's own bytes: whatever `Send` puts on an empty line, a receive loop
   * that starts there and reads it, with timeouts anywhere, hands on exactly the messages, in
   * order and with the sender's endpoint.
   */
  method Exchange(sender: UdpIpSlipTransport, receiver: UdpIpSlipTransport, list: seq<Span>, late: set<nat>)
    requires AreMessages(list) && sender.serial.line == []
    modifies sender`ipId, sender.serial, receiver`delivered
    ensures receiver.delivered == old(receiver.delivered) + From(MakeEndpoint(sender.localIp, sender.localPort), list)
  {
    hide MakeEndpoint, Frames, Packets, Received, From;
    ghost var id := sender.ipId;
    var dest := MakeEndpoint(receiver.localIp, receiver.localPort);
    SendList(sender, dest, list);
    var line := sender.serial.line;
    ghost var frames := Frames(Packets(sender.localIp, sender.localPort, id, dest, list));
    assert [] + frames == frames == line;
    ResultsCarryLine(line, late);
    StreamRoundTrip(sender.localIp, sender.localPort, id, receiver.localIp, receiver.localPort, list);
    receiver.ReceiveLoop(ReadResults(line, late));
  }
}
