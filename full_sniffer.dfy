/**
 * The detailed sniffer (assignment1/full_sniffer.py): header decoders for
 * Ethernet II, IPv4, IPv6, TCP, UDP and ICMP, the HTTP and TLS heuristics,
 * the per-frame dispatch on EtherType and protocol number, and the capture
 * loop that counts captured and saved frames.
 *
 * Every decoder hands `struct.unpack` a slice of fixed size; when the buffer
 * is shorter the unpack raises `struct.error`, which the capture loop does
 * not catch, so the failure is a `Failure(StructError(..))` here and it ends
 * the capture.
 */
module FullSniffer {
  import opened Wire
  import opened Text
  import opened Results
  import opened Encode

  datatype EthernetHeader = EthernetHeader(destMac: string, srcMac: string, ethProto: u16, data: seq<byte>)

  datatype Ipv4Header = Ipv4Header(
    version: nat, headerLength: nat, ttl: byte, proto: byte,
    srcIp: string, destIp: string, data: seq<byte>)

  datatype Ipv6Header = Ipv6Header(
    version: nat, trafficClass: nat, flowLabel: nat, payloadLength: u16,
    nextHeader: byte, hopLimit: byte, srcIp: string, destIp: string, data: seq<byte>)

  datatype TcpHeader = TcpHeader(srcPort: u16, destPort: u16, seqNo: u32, ackNo: u32, headerLength: nat, data: seq<byte>)

  datatype UdpHeader = UdpHeader(srcPort: u16, destPort: u16, length: u16, data: seq<byte>)

  datatype IcmpHeader = IcmpHeader(icmpType: byte, code: byte, checksum: u16, data: seq<byte>)

  /** `parse_ethernet_header`: two MAC addresses, then the EtherType passed through `socket.htons`. */
  function ParseEthernet(host: Endian, raw: seq<byte>): (r: Result<EthernetHeader, StructError>)
    ensures r.Success? <==> |raw| >= 14
    ensures r.Success? ==> r.value.data == raw[14..] && |r.value.destMac| == |r.value.srcMac| == 17
  {
    var _ :- Unpackable(raw, 14);
    var h := raw[..14];
    MacFormatShape(h[0..6]);
    MacFormatShape(h[6..12]);
    Success(EthernetHeader(MacFormat(h[0..6]), MacFormat(h[6..12]), Htons(host, Be16(h, 12)), raw[14..]))
  }

  /**
   * `parse_ipv4_header`: version and header length from the first byte, TTL,
   * protocol and the two addresses of the 20-byte fixed header; the data
   * after the header starts at the IHL-derived length, whatever it is.
   */
  function ParseIpv4(raw: seq<byte>): (r: Result<Ipv4Header, StructError>)
    ensures r.Success? <==> |raw| >= 20
    ensures r.Success? ==> r.value.version < 16 && r.value.headerLength % 4 == 0 && r.value.headerLength <= 60
    ensures r.Success? ==> r.value.data == Tail(raw, r.value.headerLength)
  {
    var _ :- Unpackable(raw, 20);
    var h := raw[..20];
    var headerLength := (h[0] % 16) * 4;
    Success(Ipv4Header(h[0] / 16, headerLength, h[8], h[9], IpFormat(h[12..16]), IpFormat(h[16..20]), Tail(raw, headerLength)))
  }

  /** `parse_ipv6_header`: the first 32-bit word split into version, traffic class and flow label, then the fixed fields. */
  function ParseIpv6(raw: seq<byte>): (r: Result<Ipv6Header, StructError>)
    ensures r.Success? <==> |raw| >= 40
    ensures r.Success? ==> r.value.version < 0x10 && r.value.trafficClass < 0x100 && r.value.flowLabel < 0x10_0000
    ensures r.Success? ==> r.value.data == raw[40..]
  {
    var _ :- Unpackable(raw, 40);
    var h := raw[..40];
    var word := Be32(h, 0);
    Success(Ipv6Header(word / 0x1000_0000, (word / 0x10_0000) % 0x100, word % 0x10_0000, Be16(h, 4),
      h[6], h[7], Ipv6Format(h[8..24]), Ipv6Format(h[24..40]), raw[40..]))
  }

  /** `parse_tcp_header`: ports, sequence and acknowledgment numbers, and the data-offset header length. */
  function ParseTcp(raw: seq<byte>): (r: Result<TcpHeader, StructError>)
    ensures r.Success? <==> |raw| >= 20
    ensures r.Success? ==> r.value.headerLength % 4 == 0 && r.value.headerLength <= 60
    ensures r.Success? ==> r.value.data == Tail(raw, r.value.headerLength)
  {
    var _ :- Unpackable(raw, 20);
    var h := raw[..20];
    var headerLength := (h[12] / 16) * 4;
    Success(TcpHeader(Be16(h, 0), Be16(h, 2), Be32(h, 4), Be32(h, 8), headerLength, Tail(raw, headerLength)))
  }

  /** `parse_udp_header`: ports and length of the fixed 8-byte header. */
  function ParseUdp(raw: seq<byte>): (r: Result<UdpHeader, StructError>)
    ensures r.Success? <==> |raw| >= 8
    ensures r.Success? ==> r.value.data == raw[8..]
  {
    var _ :- Unpackable(raw, 8);
    var h := raw[..8];
    Success(UdpHeader(Be16(h, 0), Be16(h, 2), Be16(h, 4), raw[8..]))
  }

  /** `parse_icmp_header`: type, code and checksum of the 4-byte ICMP header. */
  function ParseIcmp(raw: seq<byte>): (r: Result<IcmpHeader, StructError>)
    ensures r.Success? <==> |raw| >= 4
    ensures r.Success? ==> r.value.data == raw[4..]
  {
    var _ :- Unpackable(raw, 4);
    var h := raw[..4];
    Success(IcmpHeader(h[0], h[1], Be16(h, 2), raw[4..]))
  }

  /** The ASCII bytes of `GET `, `POST` and `HTTP`. */
  const HttpSignatures: seq<seq<byte>> := [[0x47, 0x45, 0x54, 0x20], [0x50, 0x4f, 0x53, 0x54], [0x48, 0x54, 0x54, 0x50]]

  /** `is_http`: the first four payload bytes are one of the HTTP signatures. */
  function IsHttp(payload: seq<byte>): (r: bool)
    ensures r ==> |payload| >= 4
  {
    Head(payload, 4) in HttpSignatures
  }

  /** `is_ssl`: either port is 443. */
  function IsSsl(srcPort: u16, destPort: u16): (r: bool)
    ensures r <==> 443 in {srcPort, destPort}
  {
    srcPort == 443 || destPort == 443
  }

  /** The message the capture loop prints about the application behind a frame. */
  datatype App = Http | Ssl | Dns | Unclassified

  /** The transport column: "TCP", "UDP" or the default "N/A". */
  datatype Transport = Tcp | Udp | NotAvailable

  const NA := "N/A"

  /**
   * One CSV row: Ethernet source and destination, EtherType (after htons),
   * IP source and destination, transport, ports (None is "N/A") and the
   * frame's length.
   */
  datatype Row = Row(
    srcMac: string, destMac: string, ethProto: u16, srcIp: string, destIp: string,
    transport: Transport, srcPort: Option<u16>, destPort: Option<u16>, packetSize: nat)

  datatype Record = Record(row: Row, app: App)

  /** Ports from a decoded transport header, in the row. */
  function WithPorts(row: Row, transport: Transport, srcPort: u16, destPort: u16): Row
  {
    row.(transport := transport, srcPort := Some(srcPort), destPort := Some(destPort))
  }

  /**
   * The IPv4 branch: addresses into the row, then TCP (where HTTP is looked
   * for before TLS) or UDP (where DNS is looked for), or neither.
   */
  function DissectIpv4(base: Row, data: seq<byte>): (r: Result<Record, StructError>)
    ensures r.Success? ==> r.value.row.packetSize == base.packetSize && r.value.row.ethProto == base.ethProto
    ensures r.Success? && r.value.app == Http ==> r.value.row.transport == Tcp
    ensures r.Success? && r.value.app == Ssl ==>
      r.value.row.transport == Tcp && (r.value.row.srcPort == Some(443) || r.value.row.destPort == Some(443))
    ensures r.Success? && r.value.app == Dns ==>
      r.value.row.transport == Udp && (r.value.row.srcPort == Some(53) || r.value.row.destPort == Some(53))
    ensures r.Success? && base.transport == NotAvailable && r.value.row.transport == Udp ==>
      (r.value.app == Dns <==> r.value.row.srcPort == Some(53) || r.value.row.destPort == Some(53))
    ensures (r.Success? && base.transport == NotAvailable && r.value.row.transport == Tcp
             && (r.value.row.srcPort == Some(443) || r.value.row.destPort == Some(443))) ==>
      r.value.app in {Http, Ssl}
  {
    var ip :- ParseIpv4(data);
    var row := base.(srcIp := ip.srcIp, destIp := ip.destIp);
    if ip.proto == 6 then
      var tcp :- ParseTcp(ip.data);
      var app := if IsHttp(tcp.data) then Http else if IsSsl(tcp.srcPort, tcp.destPort) then Ssl else Unclassified;
      Success(Record(WithPorts(row, Tcp, tcp.srcPort, tcp.destPort), app))
    else if ip.proto == 17 then
      var udp :- ParseUdp(ip.data);
      var app := if udp.srcPort == 53 || udp.destPort == 53 then Dns else Unclassified;
      Success(Record(WithPorts(row, Udp, udp.srcPort, udp.destPort), app))
    else
      Success(Record(row, Unclassified))
  }

  /** The IPv6 branch: addresses into the row, then TCP or UDP ports; no application is detected. */
  function DissectIpv6(base: Row, data: seq<byte>): (r: Result<Record, StructError>)
    ensures r.Success? ==> r.value.app == Unclassified
    ensures r.Success? ==> r.value.row.packetSize == base.packetSize && r.value.row.ethProto == base.ethProto
  {
    var ip :- ParseIpv6(data);
    var row := base.(srcIp := ip.srcIp, destIp := ip.destIp);
    if ip.nextHeader == 6 then
      var tcp :- ParseTcp(ip.data);
      Success(Record(WithPorts(row, Tcp, tcp.srcPort, tcp.destPort), Unclassified))
    else if ip.nextHeader == 17 then
      var udp :- ParseUdp(ip.data);
      Success(Record(WithPorts(row, Udp, udp.srcPort, udp.destPort), Unclassified))
    else
      Success(Record(row, Unclassified))
  }

  /**
   * One turn of the capture loop: the dispatch on EtherType (IPv4 is tested
   * as 8, IPv6 as 0x86DD), the CSV row and the application detected. HTTP
   * and TLS are only looked for in IPv4/TCP, DNS only in IPv4/UDP.
   */
  function Dissect(host: Endian, raw: seq<byte>): (r: Result<Record, StructError>)
    ensures |raw| < 14 ==> r == Failure(StructError(14, |raw|))
    ensures r.Success? ==> r.value.row.packetSize == |raw|
    ensures r.Success? && r.value.app != Unclassified ==> r.value.row.ethProto == 8
    ensures r.Success? && r.value.app == Http ==> r.value.row.transport == Tcp
    ensures r.Success? && r.value.app == Ssl ==>
      r.value.row.transport == Tcp && (r.value.row.srcPort == Some(443) || r.value.row.destPort == Some(443))
    ensures r.Success? && r.value.app == Dns ==>
      r.value.row.transport == Udp && (r.value.row.srcPort == Some(53) || r.value.row.destPort == Some(53))
    ensures r.Success? && r.value.row.ethProto == 8 && r.value.row.transport == Udp ==>
      (r.value.app == Dns <==> r.value.row.srcPort == Some(53) || r.value.row.destPort == Some(53))
    ensures (r.Success? && r.value.row.ethProto == 8 && r.value.row.transport == Tcp
             && (r.value.row.srcPort == Some(443) || r.value.row.destPort == Some(443))) ==>
      r.value.app in {Http, Ssl}
  {
    var eth :- ParseEthernet(host, raw);
    var base := Row(eth.srcMac, eth.destMac, eth.ethProto, NA, NA, NotAvailable, None, None, |raw|);
    if eth.ethProto == 8 then DissectIpv4(base, eth.data)
    else if eth.ethProto == 0x86DD then DissectIpv6(base, eth.data)
    else Success(Record(base, Unclassified))
  }

  /** The counters and the rows written so far; `crash` is the error that ended the capture, if any. */
  datatype Session = Session(records: seq<Record>, captured: nat, saved: nat, crash: Option<StructError>)

  /** `Dissect` on a given host, as the decoder the capture loop applies to each frame. */
  function DissectOn(host: Endian): seq<byte> -> Result<Record, StructError>
  {
    raw => Dissect(host, raw)
  }

  /**
   * The capture loop after the given frames, each turned into a row or an
   * error by `decode`: it counts each frame, then either writes its row or
   * stops.
   */
  function Capture(decode: seq<byte> -> Result<Record, StructError>, frames: seq<seq<byte>>): Session
    decreases |frames|
  {
    if frames == [] then Session([], 0, 0, None)
    else
      var s := Capture(decode, frames[..|frames| - 1]);
      if s.crash.Some? then s
      else match decode(frames[|frames| - 1])
        case Failure(e) => s.(captured := s.captured + 1, crash := Some(e))
        case Success(rec) => Session(s.records + [rec], s.captured + 1, s.saved + 1, None)
  }

  /**
   * What a capture comes to: one row per frame up to the first frame that
   * does not decode; every saved frame was captured, and a crash leaves
   * exactly one captured frame unsaved.
   */
  lemma {:induction false} CaptureCharacterized(decode: seq<byte> -> Result<Record, StructError>, frames: seq<seq<byte>>)
    ensures var s := Capture(decode, frames);
      s.saved == |s.records| <= s.captured <= |frames|
      && (forall i :: 0 <= i < |s.records| ==> decode(frames[i]) == Success(s.records[i]))
      && (s.crash.None? ==> s.captured == s.saved == |frames|)
      && (s.crash.Some? ==> s.captured == s.saved + 1 && decode(frames[s.saved]) == Failure(s.crash.value))
    decreases |frames|
  {
    if frames != [] {
      var init := frames[..|frames| - 1];
      CaptureCharacterized(decode, init);
      var s := Capture(decode, init);
      assert forall i :: 0 <= i < |init| ==> init[i] == frames[i];
      if s.crash.None? {
        var r := decode(frames[|frames| - 1]);
        if r.Success? {
          var s' := Session(s.records + [r.value], s.captured + 1, s.saved + 1, None);
          assert Capture(decode, frames) == s';
          forall i | 0 <= i < |s'.records|
            ensures decode(frames[i]) == Success(s'.records[i])
          {
            if i < |s.records| {
              assert s'.records[i] == s.records[i];
            }
          }
        }
      }
    }
  }

  /** Once a frame has crashed the loop, later frames change nothing. */
  lemma {:induction false} CaptureStopsAtCrash(decode: seq<byte> -> Result<Record, StructError>, frames: seq<seq<byte>>, more: seq<seq<byte>>)
    requires Capture(decode, frames).crash.Some?
    ensures Capture(decode, frames + more) == Capture(decode, frames)
    decreases |more|
  {
    if more != [] {
      var init := more[..|more| - 1];
      CaptureStopsAtCrash(decode, frames, init);
      var all := frames + more;
      assert all[..|all| - 1] == frames + init;
      assert Capture(decode, all[..|all| - 1]).crash.Some?;
    } else {
      assert frames + more == frames;
    }
  }

  /**
   * The `while True` loop of the capture: `total_captured_packets` and
   * `total_saved_packets` are updated per frame, the rows go to the CSV
   * sink, and an undecodable frame ends the loop; `decode` is the parsing
   * of one frame.
   */
  method SniffWith(decode: seq<byte> -> Result<Record, StructError>, frames: seq<seq<byte>>) returns (records: seq<Record>, captured: nat, saved: nat, crash: Option<StructError>)
    ensures Session(records, captured, saved, crash) == Capture(decode, frames)
    ensures saved <= captured
  {
    records, captured, saved, crash := [], 0, 0, None;
    var i := 0;
    while i < |frames| && crash.None?
      invariant 0 <= i <= |frames|
      invariant Session(records, captured, saved, crash) == Capture(decode, frames[..i])
    {
      assert frames[..i + 1][..i] == frames[..i];
      captured := captured + 1;
      var r := decode(frames[i]);
      if r.Failure? {
        crash := Some(r.error);
      } else {
        records := records + [r.value];
        saved := saved + 1;
      }
      i := i + 1;
    }
    if i < |frames| {
      CaptureStopsAtCrash(decode, frames[..i], frames[i..]);
      assert frames[..i] + frames[i..] == frames;
    } else {
      assert frames[..i] == frames;
    }
    CaptureCharacterized(decode, frames);
  }

  /** The script itself: the loop with the parsers above as its decoding step. */
  method Sniff(host: Endian, frames: seq<seq<byte>>) returns (records: seq<Record>, captured: nat, saved: nat, crash: Option<StructError>)
    ensures Session(records, captured, saved, crash) == Capture(DissectOn(host), frames)
    ensures saved <= captured
  {
    records, captured, saved, crash := SniffWith(DissectOn(host), frames);
  }

  /*
   * Round trips: decoding a header built from known field values gives
   * those values back, and the data after it is exactly the payload.
   */

  lemma ParseEthernetRoundTrip(host: Endian, dest: seq<byte>, src: seq<byte>, etherType: u16, payload: seq<byte>)
    requires |dest| == 6 && |src| == 6
    ensures ParseEthernet(host, EthernetBytes(dest, src, etherType, payload))
      == Success(EthernetHeader(MacFormat(dest), MacFormat(src), Htons(host, etherType), payload))
  {
    var r := EthernetBytes(dest, src, etherType, payload);
    var h := r[..14];
    assert h[0..6] == r[0..6] && h[6..12] == r[6..12];
    assert h[12] == r[12] && h[13] == r[13];
  }

  lemma ParseIpv4RoundTrip(f: Ipv4Fields, options: seq<byte>, payload: seq<byte>)
    requires f.Valid() && f.ihl * 4 == 20 + |options|
    ensures ParseIpv4(Ipv4Bytes(f, options, payload))
      == Success(Ipv4Header(f.version, f.ihl * 4, f.ttl, f.proto, IpFormat(f.src), IpFormat(f.dest), payload))
  {
    var r := Ipv4Bytes(f, options, payload);
    var h := r[..20];
    assert h == Ipv4FixedBytes(f);
    NibblesOfByte(f.version, f.ihl);
    assert Tail(r, f.ihl * 4) == payload;
  }

  /** The three parts of the first IPv6 word recombine into the word. */
  lemma Ipv6FirstWordSplit(word: u32)
    ensures (word / 0x1000_0000) * 0x1000_0000 + ((word / 0x10_0000) % 0x100) * 0x10_0000 + word % 0x10_0000 == word
  {
    var high := word / 0x10_0000;
    assert word == high * 0x10_0000 + word % 0x10_0000;
    assert high == (high / 0x100) * 0x100 + high % 0x100;
    assert high / 0x100 == word / 0x1000_0000;
  }

  /** The version, traffic class and flow label come back out of the first IPv6 word. */
  lemma FirstWordFields(f: Ipv6Fields)
    requires f.Valid()
    ensures var w := f.FirstWord();
      w / 0x1000_0000 == f.version && (w / 0x10_0000) % 0x100 == f.trafficClass && w % 0x10_0000 == f.flowLabel
  {
    var w := f.FirstWord();
    var high := f.version * 0x100 + f.trafficClass;
    assert w == high * 0x10_0000 + f.flowLabel;
    assert w / 0x10_0000 == high && w % 0x10_0000 == f.flowLabel;
    assert high / 0x100 == f.version && high % 0x100 == f.trafficClass;
    assert w / 0x1000_0000 == high / 0x100;
  }

  lemma ParseIpv6RoundTrip(f: Ipv6Fields, payload: seq<byte>)
    requires f.Valid()
    ensures ParseIpv6(Ipv6Bytes(f, payload)) == Success(Ipv6Header(
      f.version, f.trafficClass, f.flowLabel, f.payloadLength, f.nextHeader, f.hopLimit,
      Ipv6Format(f.src), Ipv6Format(f.dest), payload))
  {
    var r := Ipv6Bytes(f, payload);
    var h := r[..40];
    assert h[0] == r[0] && h[1] == r[1] && h[2] == r[2] && h[3] == r[3] && h[4] == r[4] && h[5] == r[5];
    assert h[8..24] == r[8..24] && h[24..40] == r[24..40];
    FirstWordFields(f);
  }

  lemma ParseTcpRoundTrip(f: TcpFields, options: seq<byte>, payload: seq<byte>)
    requires f.Valid() && f.dataOffset * 4 == 20 + |options|
    ensures ParseTcp(TcpBytes(f, options, payload))
      == Success(TcpHeader(f.srcPort, f.destPort, f.seqNo, f.ackNo, f.dataOffset * 4, payload))
  {
    var r := TcpBytes(f, options, payload);
    assert r[..20] == TcpFixedBytes(f);
  }

  lemma ParseUdpRoundTrip(srcPort: u16, destPort: u16, length: u16, checksum: u16, payload: seq<byte>)
    ensures ParseUdp(UdpBytes(srcPort, destPort, length, checksum, payload))
      == Success(UdpHeader(srcPort, destPort, length, payload))
  {
  }

  lemma ParseIcmpRoundTrip(icmpType: byte, code: byte, checksum: u16, rest: seq<byte>)
    ensures ParseIcmp(IcmpBytes(icmpType, code, checksum, rest)) == Success(IcmpHeader(icmpType, code, checksum, rest))
  {
  }

  /**
   * The IHL is trusted as it is: below 5 words the data handed on starts
   * inside the header, and past the end of the buffer it is empty; in no
   * case is anything outside the buffer handed on.
   */
  lemma Ipv4UntrustedLength(raw: seq<byte>)
    requires |raw| >= 20
    ensures var h := ParseIpv4(raw).value;
      (raw[0] % 16 == 0 ==> h.data == raw)
      && (h.headerLength > |raw| ==> h.data == [])
      && (h.headerLength <= |raw| ==> h.data == raw[h.headerLength..])
  {
  }

  /*
   * The EtherType tests against `socket.htons` of the network-order value.
   */

  /** On a little-endian host, `== 8` holds exactly for frames whose wire EtherType is 0x0800 (IPv4). */
  lemma LittleEndianIpv4Test(raw: seq<byte>)
    requires |raw| >= 14
    ensures ParseEthernet(LittleEndian, raw).value.ethProto == 8 <==> Be16(raw, 12) == 0x0800
  {
    HtonsOfWireField(LittleEndian, raw, 12);
  }

  /**
   * On a little-endian host, `== 0x86DD` holds exactly for frames whose wire
   * EtherType is 0xDD86; a real IPv6 frame (wire 0x86DD) shows as 0xDD86.
   */
  lemma LittleEndianIpv6Test(raw: seq<byte>)
    requires |raw| >= 14
    ensures ParseEthernet(LittleEndian, raw).value.ethProto == 0x86DD <==> Be16(raw, 12) == 0xDD86
    ensures Be16(raw, 12) == 0x86DD ==> ParseEthernet(LittleEndian, raw).value.ethProto == 0xDD86
  {
    HtonsOfWireField(LittleEndian, raw, 12);
  }

  /** On a big-endian host htons changes nothing, so the `== 8` test matches wire EtherType 0x0008 instead of IPv4. */
  lemma BigEndianIpv4Test(raw: seq<byte>)
    requires |raw| >= 14
    ensures ParseEthernet(BigEndian, raw).value.ethProto == 8 <==> Be16(raw, 12) == 0x0008
  {
  }

  /** `is_http` looks at the first four bytes only; anything shorter never matches. */
  lemma IsHttpPrefix(payload: seq<byte>, more: seq<byte>)
    ensures |payload| >= 4 ==> IsHttp(payload + more) == IsHttp(payload[..4])
    ensures IsHttp(payload) <==> |payload| >= 4 && payload[..4] in HttpSignatures
  {
    if |payload| >= 4 {
      assert (payload + more)[..4] == payload[..4];
      assert Head(payload + more, 4) == payload[..4] == Head(payload[..4], 4);
    }
  }

  /**
   * A whole IPv4/TCP frame on a little-endian host: the row carries the
   * frame's addresses and ports, and the payload's HTTP signature wins over
   * port 443, which wins over nothing.
   */
  lemma DissectIpv4Tcp(
    dest: seq<byte>, src: seq<byte>, ip: Ipv4Fields, ipOptions: seq<byte>,
    tcp: TcpFields, tcpOptions: seq<byte>, payload: seq<byte>)
    requires |dest| == 6 && |src| == 6
    requires ip.Valid() && ip.ihl * 4 == 20 + |ipOptions| && ip.proto == 6
    requires tcp.Valid() && tcp.dataOffset * 4 == 20 + |tcpOptions|
    ensures var frame := EthernetBytes(dest, src, 0x0800, Ipv4Bytes(ip, ipOptions, TcpBytes(tcp, tcpOptions, payload)));
      Dissect(LittleEndian, frame) == Success(Record(
        Row(MacFormat(src), MacFormat(dest), 8, IpFormat(ip.src), IpFormat(ip.dest),
          Tcp, Some(tcp.srcPort), Some(tcp.destPort), |frame|),
        if IsHttp(payload) then Http else if tcp.srcPort == 443 || tcp.destPort == 443 then Ssl else Unclassified))
  {
    var segment := TcpBytes(tcp, tcpOptions, payload);
    var packet := Ipv4Bytes(ip, ipOptions, segment);
    var frame := EthernetBytes(dest, src, 0x0800, packet);
    ParseEthernetRoundTrip(LittleEndian, dest, src, 0x0800, packet);
    assert Htons(LittleEndian, 0x0800) == 8;
    ParseIpv4RoundTrip(ip, ipOptions, segment);
    ParseTcpRoundTrip(tcp, tcpOptions, payload);
  }
}
