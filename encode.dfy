/**
 * Wire images of the headers the sniffers decode: Ethernet II, IPv4
 * (section 3.1 of RFC 791), IPv6 (section 3 of RFC 8200), TCP (section 3.1
 * of RFC 9293), UDP (RFC 768) and ICMP (RFC 792). They make synthetic
 * packets with known field values, against which the decoders' round trips
 * are stated.
 */
module Encode {
  import opened Wire

  /** Ethernet II: destination MAC, source MAC, EtherType (network order), payload. */
  function EthernetBytes(dest: seq<byte>, src: seq<byte>, etherType: u16, payload: seq<byte>): (r: seq<byte>)
    requires |dest| == 6 && |src| == 6
    ensures |r| == 14 + |payload|
    ensures r[0..6] == dest && r[6..12] == src && Be16(r, 12) == etherType && r[14..] == payload
  {
    var r := dest + src + Bytes16(etherType) + payload;
    assert r[0..6] == dest;
    assert r[6..12] == src;
    assert r[12..14] == Bytes16(etherType);
    assert r[14..] == payload;
    r
  }

  /** The fixed part of an IPv4 header, field by field. */
  datatype Ipv4Fields = Ipv4Fields(
    version: nat, ihl: nat, tos: byte, totalLength: u16, identification: u16,
    flagsFragment: u16, ttl: byte, proto: byte, checksum: u16,
    src: seq<byte>, dest: seq<byte>)
  {
    predicate Valid() { version < 16 && ihl < 16 && |src| == 4 && |dest| == 4 }
  }

  function Ipv4FixedBytes(f: Ipv4Fields): (r: seq<byte>)
    requires f.Valid()
    ensures |r| == 20
    ensures r[0] == f.version * 16 + f.ihl && r[8] == f.ttl && r[9] == f.proto
    ensures r[12..16] == f.src && r[16..20] == f.dest
  {
    var r := [f.version * 16 + f.ihl, f.tos] + Bytes16(f.totalLength) + Bytes16(f.identification)
      + Bytes16(f.flagsFragment) + [f.ttl, f.proto] + Bytes16(f.checksum) + f.src + f.dest;
    assert r[12..16] == f.src;
    assert r[16..20] == f.dest;
    r
  }

  /** A whole IPv4 packet: the fixed header, then options, then the payload. */
  function Ipv4Bytes(f: Ipv4Fields, options: seq<byte>, payload: seq<byte>): (r: seq<byte>)
    requires f.Valid()
    ensures |r| == 20 + |options| + |payload|
    ensures r[..20] == Ipv4FixedBytes(f) && r[20..] == options + payload
    ensures r[20 + |options|..] == payload
  {
    var h := Ipv4FixedBytes(f);
    var r := h + options + payload;
    assert r[..20] == h;
    assert r[20..] == options + payload;
    assert r[20 + |options|..] == payload;
    r
  }

  /** The fixed part of a TCP header; `dataOffset` is the header length in 32-bit words. */
  datatype TcpFields = TcpFields(
    srcPort: u16, destPort: u16, seqNo: u32, ackNo: u32, dataOffset: nat,
    reserved: nat, flags: byte, window: u16, checksum: u16, urgent: u16)
  {
    predicate Valid() { dataOffset < 16 && reserved < 16 }
  }

  function TcpFixedBytes(f: TcpFields): (r: seq<byte>)
    requires f.Valid()
    ensures |r| == 20
    ensures Be16(r, 0) == f.srcPort && Be16(r, 2) == f.destPort
    ensures Be32(r, 4) == f.seqNo && Be32(r, 8) == f.ackNo
    ensures r[12] == f.dataOffset * 16 + f.reserved && Be16(r, 14) == f.window && Be16(r, 16) == f.checksum
  {
    var a, b, c, d := Bytes16(f.srcPort), Bytes16(f.destPort), Bytes32(f.seqNo), Bytes32(f.ackNo);
    var e, g, h := Bytes16(f.window), Bytes16(f.checksum), Bytes16(f.urgent);
    var r := a + b + c + d + [f.dataOffset * 16 + f.reserved, f.flags] + e + g + h;
    assert r[0..2] == a && r[2..4] == b && r[4..8] == c && r[8..12] == d && r[14..16] == e && r[16..18] == g;
    assert r[4] == c[0] && r[5] == c[1] && r[6] == c[2] && r[7] == c[3];
    assert r[8] == d[0] && r[9] == d[1] && r[10] == d[2] && r[11] == d[3];
    r
  }

  /** A whole TCP segment: the fixed header, then options, then the payload. */
  function TcpBytes(f: TcpFields, options: seq<byte>, payload: seq<byte>): (r: seq<byte>)
    requires f.Valid()
    ensures |r| == 20 + |options| + |payload|
    ensures r[..20] == TcpFixedBytes(f) && r[20..] == options + payload
    ensures r[20 + |options|..] == payload
  {
    var h := TcpFixedBytes(f);
    var r := h + options + payload;
    assert r[..20] == h;
    assert r[20..] == options + payload;
    assert r[20 + |options|..] == payload;
    r
  }

  /** A UDP datagram: ports, length, checksum, payload. */
  function UdpBytes(srcPort: u16, destPort: u16, length: u16, checksum: u16, payload: seq<byte>): (r: seq<byte>)
    ensures |r| == 8 + |payload|
    ensures Be16(r, 0) == srcPort && Be16(r, 2) == destPort && Be16(r, 4) == length
    ensures r[8..] == payload
  {
    var a, b, c, d := Bytes16(srcPort), Bytes16(destPort), Bytes16(length), Bytes16(checksum);
    var r := a + b + c + d + payload;
    assert r[0..2] == a && r[2..4] == b && r[4..6] == c && r[8..] == payload;
    r
  }

  /** An ICMP message: type, code, checksum, rest of the message. */
  function IcmpBytes(icmpType: byte, code: byte, checksum: u16, rest: seq<byte>): (r: seq<byte>)
    ensures |r| == 4 + |rest|
    ensures r[0] == icmpType && r[1] == code && Be16(r, 2) == checksum && r[4..] == rest
  {
    var c := Bytes16(checksum);
    var r := [icmpType, code] + c + rest;
    assert r[2..4] == c && r[4..] == rest;
    r
  }

  /** The fixed IPv6 header, field by field. */
  datatype Ipv6Fields = Ipv6Fields(
    version: nat, trafficClass: nat, flowLabel: nat, payloadLength: u16,
    nextHeader: byte, hopLimit: byte, src: seq<byte>, dest: seq<byte>)
  {
    predicate Valid() {
      version < 0x10 && trafficClass < 0x100 && flowLabel < 0x10_0000 && |src| == 16 && |dest| == 16
    }

    /** The first 32-bit word: version, traffic class and flow label packed together. */
    function FirstWord(): u32
      requires Valid()
    {
      version * 0x1000_0000 + trafficClass * 0x10_0000 + flowLabel
    }
  }

  /** A whole IPv6 packet: the 40-byte fixed header, then the payload. */
  function Ipv6Bytes(f: Ipv6Fields, payload: seq<byte>): (r: seq<byte>)
    requires f.Valid()
    ensures |r| == 40 + |payload|
    ensures Be32(r, 0) == f.FirstWord() && Be16(r, 4) == f.payloadLength
    ensures r[6] == f.nextHeader && r[7] == f.hopLimit
    ensures r[8..24] == f.src && r[24..40] == f.dest && r[40..] == payload
  {
    var w, l := Bytes32(f.FirstWord()), Bytes16(f.payloadLength);
    var r := w + l + [f.nextHeader, f.hopLimit] + f.src + f.dest + payload;
    assert r[0..4] == w && r[4..6] == l;
    assert r[8..24] == f.src && r[24..40] == f.dest && r[40..] == payload;
    r
  }
}
