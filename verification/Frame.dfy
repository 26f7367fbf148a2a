/** Parsing captured Ethernet frames (exporter/internal/ntpframe/frame.go), and the packets it must recover. */
module Frame {
  import opened Bytes

  const ETH_HDR_LEN := 14
  const ETHERTYPE_IPV4 := 0x0800
  const ETHERTYPE_IPV6 := 0x86DD
  const ETHERTYPE_VLAN := 0x8100
  const PROTO_UDP := 17
  const NTP_PORT := 123
  const NTP_PAYLOAD_MIN := 48

  datatype Direction = Request | Response
  datatype Family = Ipv4 | Ipv6

  /** version is the text of the version field, or None when the payload is too short to have one. */
  datatype Parsed = Parsed(
    dir: Direction, client: Bytes, src: Bytes, dst: Bytes, family: Family, version: Option<string>, xid: Option<Bytes>)

  function U16(p: Bytes, i: nat): nat
    requires i + 2 <= |p|
  {
    256 * (p[i] as int) + p[i + 1]
  }

  function NtpVersion(b: byte): string {
    var v := b / 8 % 8;
    if v == 1 then "1" else if v == 2 then "2" else if v == 3 then "3" else if v == 4 then "4" else "other"
  }

  // --- The parser, with its cursor `off`

  function Parse(p: Bytes): Option<Parsed> {
    if |p| < ETH_HDR_LEN then None
    else if U16(p, 12) == ETHERTYPE_VLAN then
      if |p| < ETH_HDR_LEN + 4 then None else ParseIp(p, ETH_HDR_LEN + 4, U16(p, ETH_HDR_LEN + 2))
    else ParseIp(p, ETH_HDR_LEN, U16(p, 12))
  }

  function ParseIp(p: Bytes, off: nat, ethertype: nat): Option<Parsed> {
    if ethertype == ETHERTYPE_IPV4 then
      if |p| < off + 20 then None
      else
        var ihl := p[off] % 16 * 4;
        if ihl < 20 || |p| < off + ihl || p[off + 9] != PROTO_UDP then None
        else ParseUdp(p, off + ihl, Ipv4, p[off + 12..off + 16], p[off + 16..off + 20])
    else if ethertype == ETHERTYPE_IPV6 then
      if |p| < off + 40 || p[off + 6] != PROTO_UDP then None
      else ParseUdp(p, off + 40, Ipv6, p[off + 8..off + 24], p[off + 24..off + 40])
    else None
  }

  function ParseUdp(p: Bytes, off: nat, family: Family, src: Bytes, dst: Bytes): Option<Parsed> {
    if |p| < off + 8 then None
    else Classify(U16(p, off), U16(p, off + 2), p[off + 8..], family, src, dst)
  }

  /** A packet to port 123 is a request even when it also comes from port 123. */
  function Classify(sport: nat, dport: nat, payload: Bytes, family: Family, src: Bytes, dst: Bytes): Option<Parsed> {
    if dport == NTP_PORT then Some(Describe(Request, src, payload, family, src, dst))
    else if sport == NTP_PORT then Some(Describe(Response, dst, payload, family, src, dst))
    else None
  }

  function Describe(dir: Direction, client: Bytes, payload: Bytes, family: Family, src: Bytes, dst: Bytes): Parsed {
    if |payload| >= NTP_PAYLOAD_MIN then
      Parsed(dir, client, src, dst, family, Some(NtpVersion(payload[0])),
             Some(if dir.Request? then payload[40..48] else payload[24..32]))
    else Parsed(dir, client, src, dst, family, None, None)
  }

  // --- Packets as they are laid out

  /** The IPv4 header of section 3.1 of RFC 791 and the fixed IPv6 header of section 3 of RFC 8200, fields the
      parser never looks at kept as raw bytes. */
  datatype Ip =
    | V4(hi: nat, ihl: nat, pre: Bytes, checksum: Bytes, src: Bytes, dst: Bytes, options: Bytes)
    | V6(pre: Bytes, hopLimit: byte, src: Bytes, dst: Bytes)

  /** An Ethernet frame, with or without one VLAN tag, carrying a UDP datagram (RFC 768). */
  datatype Packet = Packet(
    macs: Bytes, vlan: Option<Bytes>, ip: Ip, sport: nat, dport: nat, lenSum: Bytes, payload: Bytes)

  predicate WellFormedIp(ip: Ip) {
    match ip
    case V4(hi, ihl, pre, checksum, src, dst, options) =>
      hi < 16 && 5 <= ihl <= 15 && |pre| == 8 && |checksum| == 2 && |src| == |dst| == 4 && |options| == 4 * (ihl - 5)
    case V6(pre, _, src, dst) => |pre| == 6 && |src| == |dst| == 16
  }

  predicate WellFormed(k: Packet) {
    && |k.macs| == 12 && (k.vlan.Some? ==> |k.vlan.value| == 2)
    && WellFormedIp(k.ip) && k.sport < 65536 && k.dport < 65536 && |k.lenSum| == 4
  }

  function Bytes16(n: nat): (s: Bytes)
    requires n < 65536
    ensures |s| == 2 && U16(s, 0) == n
  {
    [n / 256, n % 256]
  }

  function EtherType(ip: Ip): nat { if ip.V4? then 0x0800 else 0x86DD }

  function EncodeLink(k: Packet): (s: Bytes)
    requires WellFormed(k)
    ensures |s| == if k.vlan.Some? then 18 else 14
  {
    if k.vlan.Some? then k.macs + Bytes16(0x8100) + k.vlan.value + Bytes16(EtherType(k.ip))
    else k.macs + Bytes16(EtherType(k.ip))
  }

  function EncodeIp(ip: Ip): (s: Bytes)
    requires WellFormedIp(ip)
    ensures |s| == if ip.V4? then ip.ihl * 4 else 40
  {
    match ip
    case V4(hi, ihl, pre, checksum, src, dst, options) =>
      [hi * 16 + ihl] + pre + [17] + checksum + src + dst + options
    case V6(pre, hopLimit, src, dst) => pre + [17] + [hopLimit] + src + dst
  }

  function EncodeUdp(k: Packet): (s: Bytes)
    requires WellFormed(k)
    ensures |s| == 8 + |k.payload|
  {
    Bytes16(k.sport) + Bytes16(k.dport) + k.lenSum + k.payload
  }

  function Encode(k: Packet): Bytes
    requires WellFormed(k)
  {
    EncodeLink(k) + (EncodeIp(k.ip) + EncodeUdp(k))
  }

  /** What the parser must make of a packet. */
  function Meaning(k: Packet): Option<Parsed> {
    Classify(k.sport, k.dport, k.payload, if k.ip.V4? then Ipv4 else Ipv6, k.ip.src, k.ip.dst)
  }

  // --- The parser looks only at what follows its cursor

  lemma ShiftedSlice(a: Bytes, b: Bytes, i: nat, j: nat)
    requires i <= j <= |b|
    ensures (a + b)[|a| + i..|a| + j] == b[i..j]
  {
  }

  lemma ShiftedU16(a: Bytes, b: Bytes, i: nat)
    requires i + 2 <= |b|
    ensures U16(a + b, |a| + i) == U16(b, i)
  {
  }

  lemma UdpShift(a: Bytes, b: Bytes, i: nat, family: Family, src: Bytes, dst: Bytes)
    ensures ParseUdp(a + b, |a| + i, family, src, dst) == ParseUdp(b, i, family, src, dst)
  {
    if i + 8 <= |b| {
      ShiftedU16(a, b, i);
      ShiftedU16(a, b, i + 2);
      ShiftedSlice(a, b, i + 8, |b|);
      assert (a + b)[|a| + i + 8..] == b[i + 8..];
    }
  }

  lemma IpShift(a: Bytes, b: Bytes, ethertype: nat)
    ensures ParseIp(a + b, |a|, ethertype) == ParseIp(b, 0, ethertype)
  {
    if ethertype == ETHERTYPE_IPV4 && |b| >= 20 {
      var ihl := b[0] % 16 * 4;
      ShiftedSlice(a, b, 12, 16);
      ShiftedSlice(a, b, 16, 20);
      UdpShift(a, b, ihl, Ipv4, b[12..16], b[16..20]);
    } else if ethertype == ETHERTYPE_IPV6 && |b| >= 40 {
      ShiftedSlice(a, b, 8, 24);
      ShiftedSlice(a, b, 24, 40);
      UdpShift(a, b, 40, Ipv6, b[8..24], b[24..40]);
    }
  }

  // --- Recovery

  lemma UdpRecovered(k: Packet)
    requires WellFormed(k)
    ensures ParseUdp(EncodeUdp(k), 0, if k.ip.V4? then Ipv4 else Ipv6, k.ip.src, k.ip.dst) == Meaning(k)
  {
    var u := EncodeUdp(k);
    assert U16(u, 0) == U16(Bytes16(k.sport), 0) && U16(u, 2) == U16(Bytes16(k.dport), 0);
    assert u[8..] == k.payload;
  }

  lemma Ipv4Header(ip: Ip)
    requires WellFormedIp(ip) && ip.V4?
    ensures var h := EncodeIp(ip);
      h[0] % 16 * 4 == |h| && h[9] == PROTO_UDP && h[12..16] == ip.src && h[16..20] == ip.dst
  {
    var start := [ip.hi * 16 + ip.ihl] + ip.pre + [PROTO_UDP] + ip.checksum;
    assert EncodeIp(ip) == start + (ip.src + (ip.dst + ip.options));
    assert |start| == 12 && start[0] % 16 == ip.ihl && start[9] == PROTO_UDP;
    ShiftedSlice(start, ip.src + (ip.dst + ip.options), 0, 4);
    ShiftedSlice(start, ip.src + (ip.dst + ip.options), 4, 8);
    assert (ip.src + (ip.dst + ip.options))[0..4] == ip.src && (ip.src + (ip.dst + ip.options))[4..8] == ip.dst;
  }

  lemma PrefixSlice(a: Bytes, b: Bytes, i: nat, j: nat)
    requires i <= j <= |a|
    ensures (a + b)[i..j] == a[i..j]
  {
  }

  lemma Ipv4Recovered(ip: Ip, rest: Bytes)
    requires WellFormedIp(ip) && ip.V4?
    ensures ParseIp(EncodeIp(ip) + rest, 0, ETHERTYPE_IPV4) == ParseUdp(rest, 0, Ipv4, ip.src, ip.dst)
  {
    var h := EncodeIp(ip);
    var p := h + rest;
    Ipv4Header(ip);
    PrefixSlice(h, rest, 12, 16);
    PrefixSlice(h, rest, 16, 20);
    assert p[0] == h[0] && p[9] == h[9];
    assert ParseIp(p, 0, ETHERTYPE_IPV4) == ParseUdp(p, |h|, Ipv4, ip.src, ip.dst);
    UdpShift(h, rest, 0, Ipv4, ip.src, ip.dst);
  }

  lemma Ipv6Recovered(ip: Ip, rest: Bytes)
    requires WellFormedIp(ip) && ip.V6?
    ensures ParseIp(EncodeIp(ip) + rest, 0, ETHERTYPE_IPV6) == ParseUdp(rest, 0, Ipv6, ip.src, ip.dst)
  {
    var h := EncodeIp(ip);
    var p := h + rest;
    assert p[6] == PROTO_UDP && p[8..24] == ip.src && p[24..40] == ip.dst;
    UdpShift(h, rest, 0, Ipv6, ip.src, ip.dst);
  }

  lemma LinkRecovered(k: Packet, rest: Bytes)
    requires WellFormed(k)
    ensures Parse(EncodeLink(k) + rest) == ParseIp(rest, 0, EtherType(k.ip))
  {
    var l := EncodeLink(k);
    var p := l + rest;
    assert U16(p, 12) == U16(l, 12);
    if k.vlan.Some? {
      assert U16(l, 12) == U16(Bytes16(ETHERTYPE_VLAN), 0) && U16(p, 16) == U16(Bytes16(EtherType(k.ip)), 0);
    } else {
      assert U16(l, 12) == U16(Bytes16(EtherType(k.ip)), 0);
    }
    IpShift(l, rest, EtherType(k.ip));
  }

  /** Every well-formed UDP packet, any header length, tagged or not, is recovered field by field; one with
      neither port 123 is refused. */
  lemma ParseRecovers(k: Packet)
    requires WellFormed(k)
    ensures Parse(Encode(k)) == Meaning(k)
  {
    LinkRecovered(k, EncodeIp(k.ip) + EncodeUdp(k));
    if k.ip.V4? {
      Ipv4Recovered(k.ip, EncodeUdp(k));
    } else {
      Ipv6Recovered(k.ip, EncodeUdp(k));
    }
    UdpRecovered(k);
  }

  /** The same field by field. */
  lemma ParsedFields(k: Packet)
    requires WellFormed(k)
    ensures Parse(Encode(k)).Some? <==> k.sport == 123 || k.dport == 123
    ensures Parse(Encode(k)).Some? ==>
      var r, full := Parse(Encode(k)).value, |k.payload| >= 48;
      && (r.dir == Request <==> k.dport == 123)
      && r.src == k.ip.src && r.dst == k.ip.dst && r.client == (if k.dport == 123 then k.ip.src else k.ip.dst)
      && (r.family == Ipv4 <==> k.ip.V4?)
      && (r.xid.Some? <==> full) && (r.version.Some? <==> full)
      && (full ==>
            && r.xid.value == (if k.dport == 123 then k.payload[40..48] else k.payload[24..32])
            && var v := k.payload[0] / 8 % 8;
               if 1 <= v <= 4 then r.version.value == ['0' + v as char] else r.version.value == "other")
  {
    ParseRecovers(k);
  }
}
