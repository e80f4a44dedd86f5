/**
 * The fast sniffer (assignment1/fast_sniffer.py): lighter decoders that
 * ignore the IPv4 IHL and the TCP data offset, a dispatch that skips every
 * frame whose EtherType after `socket.htons` is neither 8 nor 0x86DD, a
 * protocol tag for TCP, UDP, ICMP,
 * IGMP or "Other", and a capture loop whose saved count can fall behind the
 * captured count.
 */
module FastSniffer {
  import opened Wire
  import opened Text
  import opened Results
  import opened Encode

  datatype EthernetHeader = EthernetHeader(ethProto: u16, data: seq<byte>)

  /** What both IP decoders return: the protocol number, the two addresses and the data after a fixed-size header. */
  datatype IpHeader = IpHeader(proto: byte, srcIp: string, destIp: string, data: seq<byte>)

  datatype PortsHeader = PortsHeader(srcPort: u16, destPort: u16, data: seq<byte>)

  /** `parse_ethernet_header`: the EtherType through `socket.htons`, and the data after the 14-byte header. */
  function ParseEthernet(host: Endian, raw: seq<byte>): (r: Result<EthernetHeader, StructError>)
    ensures r.Success? <==> |raw| >= 14
    ensures r.Success? ==> r.value.data == raw[14..]
  {
    var _ :- Unpackable(raw, 14);
    Success(EthernetHeader(Htons(host, Be16(raw[..14], 12)), raw[14..]))
  }

  /** `parse_ipv4_header`: protocol and addresses, and everything after byte 20 whatever the IHL says. */
  function ParseIpv4(raw: seq<byte>): (r: Result<IpHeader, StructError>)
    ensures r.Success? <==> |raw| >= 20
    ensures r.Success? ==> r.value.data == raw[20..]
  {
    var _ :- Unpackable(raw, 20);
    var h := raw[..20];
    Success(IpHeader(h[9], IpFormat(h[12..16]), IpFormat(h[16..20]), raw[20..]))
  }

  /** `parse_ipv6_header`: next header, the two addresses, and everything after byte 40. */
  function ParseIpv6(raw: seq<byte>): (r: Result<IpHeader, StructError>)
    ensures r.Success? <==> |raw| >= 40
    ensures r.Success? ==> r.value.data == raw[40..] && |r.value.srcIp| == |r.value.destIp| == 39
  {
    var _ :- Unpackable(raw, 40);
    var h := raw[..40];
    Ipv6FormatShape(h[8..24]);
    Ipv6FormatShape(h[24..40]);
    Success(IpHeader(h[6], Ipv6Format(h[8..24]), Ipv6Format(h[24..40]), raw[40..]))
  }

  /**
   * `parse_tcp_udp_header`: the first two 16-bit fields as ports, and the
   * data after a header of 20 bytes for TCP or 8 for UDP; the TCP data
   * offset is not looked at.
   */
  function ParseTcpUdp(raw: seq<byte>, isTcp: bool): (r: Result<PortsHeader, StructError>)
    ensures var size := if isTcp then 20 else 8;
      (r.Success? <==> |raw| >= size) && (r.Success? ==> r.value.data == raw[size..])
  {
    var size := if isTcp then 20 else 8;
    var _ :- Unpackable(raw, size);
    var h := raw[..size];
    Success(PortsHeader(Be16(h, 0), Be16(h, 2), raw[size..]))
  }

  /** `parse_icmp_igmp_header`: type and code only; no data is handed on. */
  function ParseIcmpIgmp(raw: seq<byte>): (r: Result<(byte, byte), StructError>)
    ensures r.Success? <==> |raw| >= 2
    ensures r.Success? ==> r.value == (raw[0], raw[1])
  {
    var _ :- Unpackable(raw, 2);
    var h := raw[..2];
    Success((h[0], h[1]))
  }

  /** The "Protocol" column. */
  datatype Transport = Tcp | Udp | Icmp | Igmp | Other
  {
    function Label(): string
    {
      match this
      case Tcp => "TCP"
      case Udp => "UDP"
      case Icmp => "ICMP"
      case Igmp => "IGMP"
      case Other => "Other"
    }
  }

  /** The tag for an IP protocol number: 6, 17, 1 and 2 are named, everything else is "Other". */
  function TransportOf(proto: byte): (t: Transport)
    ensures t == Other <==> proto !in {1, 2, 6, 17}
  {
    if proto == 6 then Tcp
    else if proto == 17 then Udp
    else if proto == 1 then Icmp
    else if proto == 2 then Igmp
    else Other
  }

  /** One CSV row: addresses, protocol tag, ports (None is "N/A") and the frame's length. */
  datatype Row = Row(srcIp: string, destIp: string, transport: Transport, srcPort: Option<u16>, destPort: Option<u16>, packetSize: nat)

  const NA := "N/A"

  const CsvHeader := ["Src IP", "Dest IP", "Protocol", "Src Port", "Dest Port", "Packet Size"]

  function PortText(p: Option<u16>): string
  {
    match p
    case None => NA
    case Some(n) => Decimal(n)
  }

  /** The cells `csv.writer` writes for a row, in the order of the header. */
  function Cells(row: Row): (r: seq<string>)
    ensures |r| == |CsvHeader|
    ensures ParseDecimal(r[|r| - 1]) == Some(row.packetSize)
  {
    DecimalRoundTrip(row.packetSize);
    [row.srcIp, row.destIp, row.transport.Label(), PortText(row.srcPort), PortText(row.destPort), Decimal(row.packetSize)]
  }

  /** The file the capture writes: the header row, then one row of cells per saved packet. */
  function CsvRows(rows: seq<Row>): (r: seq<seq<string>>)
    ensures |r| == |rows| + 1 && r[0] == CsvHeader
    ensures forall i :: 0 <= i < |rows| ==> r[i + 1] == Cells(rows[i])
  {
    [CsvHeader] + seq(|rows|, i requires 0 <= i < |rows| => Cells(rows[i]))
  }

  /** The transport branch: ports for TCP and UDP, a two-byte read for ICMP and IGMP, nothing for the rest. */
  function DissectTransport(ip: IpHeader, size: nat): (r: Result<Row, StructError>)
    ensures r.Success? ==> r.value.transport == TransportOf(ip.proto) && r.value.packetSize == size
    ensures r.Success? ==> (r.value.srcPort.Some? <==> r.value.transport in {Tcp, Udp})
    ensures r.Success? ==> r.value.srcIp == ip.srcIp && r.value.destIp == ip.destIp
  {
    var row := Row(ip.srcIp, ip.destIp, TransportOf(ip.proto), None, None, size);
    if ip.proto == 6 || ip.proto == 17 then
      var ports :- ParseTcpUdp(ip.data, ip.proto == 6);
      Success(row.(srcPort := Some(ports.srcPort), destPort := Some(ports.destPort)))
    else if ip.proto == 1 || ip.proto == 2 then
      var _ :- ParseIcmpIgmp(ip.data);
      Success(row)
    else
      Success(row)
  }

  /**
   * One turn of the capture loop: None when the frame is skipped by the
   * `continue` (EtherType neither 8 nor 0x86DD), otherwise the row written.
   */
  function Dissect(host: Endian, raw: seq<byte>): (r: Result<Option<Row>, StructError>)
    ensures |raw| < 14 ==> r == Failure(StructError(14, |raw|))
    ensures |raw| >= 14 ==> (r == Success(None) <==> ParseEthernet(host, raw).value.ethProto !in {8, 0x86DD})
    ensures r.Success? && r.value.Some? ==> r.value.value.packetSize == |raw|
  {
    var eth :- ParseEthernet(host, raw);
    if eth.ethProto == 8 then
      var ip :- ParseIpv4(eth.data);
      var row :- DissectTransport(ip, |raw|);
      Success(Some(row))
    else if eth.ethProto == 0x86DD then
      var ip :- ParseIpv6(eth.data);
      var row :- DissectTransport(ip, |raw|);
      Success(Some(row))
    else
      Success(None)
  }

  function DissectOn(host: Endian): seq<byte> -> Result<Option<Row>, StructError>
  {
    raw => Dissect(host, raw)
  }

  /** The counters and the rows written so far; `crash` is the error that ended the capture, if any. */
  datatype Session<T> = Session(rows: seq<T>, captured: nat, saved: nat, crash: Option<StructError>)

  /** The capture loop after the given frames: count each frame, then stop, skip it, or write its row. */
  function Capture<T>(decode: seq<byte> -> Result<Option<T>, StructError>, frames: seq<seq<byte>>): Session<T>
    decreases |frames|
  {
    if frames == [] then Session([], 0, 0, None)
    else
      var s := Capture(decode, frames[..|frames| - 1]);
      if s.crash.Some? then s
      else match decode(frames[|frames| - 1])
        case Failure(e) => s.(captured := s.captured + 1, crash := Some(e))
        case Success(None) => s.(captured := s.captured + 1)
        case Success(Some(row)) => Session(s.rows + [row], s.captured + 1, s.saved + 1, None)
  }

  /** The rows that the given frames decode to, in order, leaving out skipped and undecodable ones. */
  function Written<T>(decode: seq<byte> -> Result<Option<T>, StructError>, frames: seq<seq<byte>>): seq<T>
    decreases |frames|
  {
    if frames == [] then []
    else
      var rest := Written(decode, frames[..|frames| - 1]);
      match decode(frames[|frames| - 1])
      case Success(Some(row)) => rest + [row]
      case _ => rest
  }

  /** How many of the given frames are skipped by the `continue`. */
  function Skipped<T>(decode: seq<byte> -> Result<Option<T>, StructError>, frames: seq<seq<byte>>): nat
    decreases |frames|
  {
    if frames == [] then 0
    else Skipped(decode, frames[..|frames| - 1]) + if decode(frames[|frames| - 1]) == Success(None) then 1 else 0
  }

  /**
   * The session `s` after `frames`: the frames before the stop all decode,
   * the rows are exactly the non-skipped ones among them, every frame
   * counted is either saved, skipped or the one that crashed, so saved
   * never exceeds captured.
   */
  ghost predicate Accounted<T>(decode: seq<byte> -> Result<Option<T>, StructError>, frames: seq<seq<byte>>, s: Session<T>)
  {
    var done := if s.crash.Some? then s.captured - 1 else s.captured;
    s.saved == |s.rows| <= s.captured <= |frames|
    && (s.crash.Some? ==> s.captured >= 1)
    && 0 <= done <= |frames|
    && (forall i :: 0 <= i < done ==> decode(frames[i]).Success?)
    && s.rows == Written(decode, frames[..done])
    && s.captured == s.saved + Skipped(decode, frames[..done]) + (if s.crash.Some? then 1 else 0)
    && (s.crash.None? ==> done == |frames|)
    && (s.crash.Some? ==> decode(frames[done]) == Failure(s.crash.value))
  }

  /** What a capture comes to, by induction on the frames. */
  lemma {:induction false} CaptureCharacterized<T>(decode: seq<byte> -> Result<Option<T>, StructError>, frames: seq<seq<byte>>)
    ensures Accounted(decode, frames, Capture(decode, frames))
    decreases |frames|
  {
    if frames != [] {
      var init := frames[..|frames| - 1];
      var last := frames[|frames| - 1];
      CaptureCharacterized(decode, init);
      var s := Capture(decode, init);
      if s.crash.None? {
        assert frames == init + [last];
        StepAccounted(decode, init, last);
      } else {
        var done := s.captured - 1;
        assert forall i :: 0 <= i < |init| ==> init[i] == frames[i];
        assert frames[..done] == init[..done];
      }
    }
  }

  /** One more frame after a capture that has not stopped: it crashes, is skipped, or has its row written. */
  lemma StepAccounted<T>(decode: seq<byte> -> Result<Option<T>, StructError>, init: seq<seq<byte>>, last: seq<byte>)
    requires Capture(decode, init).crash.None? && Accounted(decode, init, Capture(decode, init))
    ensures Accounted(decode, init + [last], Capture(decode, init + [last]))
  {
    var frames := init + [last];
    CaptureNext(decode, init, last);
    WrittenNext(decode, init, last);
    SkippedNext(decode, init, last);
    assert forall i :: 0 <= i < |init| ==> frames[i] == init[i];
    assert init[..|init|] == init;
    if decode(last).Failure? {
      assert frames[..|init|] == init;
    } else {
      assert frames[..|frames|] == frames;
    }
  }

  lemma CaptureNext<T>(decode: seq<byte> -> Result<Option<T>, StructError>, init: seq<seq<byte>>, last: seq<byte>)
    ensures var s := Capture(decode, init);
      Capture(decode, init + [last]) ==
        if s.crash.Some? then s
        else match decode(last)
          case Failure(e) => s.(captured := s.captured + 1, crash := Some(e))
          case Success(None) => s.(captured := s.captured + 1)
          case Success(Some(row)) => Session(s.rows + [row], s.captured + 1, s.saved + 1, None)
  {
    assert (init + [last])[..|init|] == init;
  }

  lemma WrittenNext<T>(decode: seq<byte> -> Result<Option<T>, StructError>, init: seq<seq<byte>>, last: seq<byte>)
    ensures Written(decode, init + [last]) ==
      Written(decode, init) + if decode(last).Success? && decode(last).value.Some? then [decode(last).value.value] else []
  {
    assert (init + [last])[..|init|] == init;
  }

  lemma SkippedNext<T>(decode: seq<byte> -> Result<Option<T>, StructError>, init: seq<seq<byte>>, last: seq<byte>)
    ensures Skipped(decode, init + [last]) == Skipped(decode, init) + if decode(last) == Success(None) then 1 else 0
  {
    assert (init + [last])[..|init|] == init;
  }

  lemma {:induction false} CaptureStopsAtCrash<T>(decode: seq<byte> -> Result<Option<T>, StructError>, frames: seq<seq<byte>>, more: seq<seq<byte>>)
    requires Capture(decode, frames).crash.Some?
    ensures Capture(decode, frames + more) == Capture(decode, frames)
    decreases |more|
  {
    if more != [] {
      var init := more[..|more| - 1];
      CaptureStopsAtCrash(decode, frames, init);
      var all := frames + more;
      assert all[..|all| - 1] == frames + init;
    } else {
      assert frames + more == frames;
    }
  }

  /**
   * The `while True` loop: `total_captured_packets` rises for every frame,
   * `total_saved_packets` only when a row is written.
   */
  method SniffWith(decode: seq<byte> -> Result<Option<Row>, StructError>, frames: seq<seq<byte>>) returns (rows: seq<Row>, captured: nat, saved: nat, crash: Option<StructError>)
    ensures Session(rows, captured, saved, crash) == Capture(decode, frames)
    ensures saved <= captured
  {
    rows, captured, saved, crash := [], 0, 0, None;
    var i := 0;
    while i < |frames| && crash.None?
      invariant 0 <= i <= |frames|
      invariant Session(rows, captured, saved, crash) == Capture(decode, frames[..i])
    {
      assert frames[..i + 1][..i] == frames[..i];
      captured := captured + 1;
      var r := decode(frames[i]);
      if r.Failure? {
        crash := Some(r.error);
      } else if r.value.Some? {
        rows := rows + [r.value.value];
        saved := saved + 1;
      }
      i := i + 1;
    }
    if i < |frames| {
      CaptureStopsAtCrash(decode, frames[..i], frames[i..]);
      assert frames[..i] + frames[i..] == frames;
    } else {
      assert frames[..i] == frames;
    }
    CaptureCharacterized(decode, frames);
  }

  /** The script itself: the loop with the parsers above as its decoding step. */
  method Sniff(host: Endian, frames: seq<seq<byte>>) returns (rows: seq<Row>, captured: nat, saved: nat, crash: Option<StructError>)
    ensures Session(rows, captured, saved, crash) == Capture(DissectOn(host), frames)
    ensures saved <= captured
  {
    rows, captured, saved, crash := SniffWith(DissectOn(host), frames);
  }

  /** A frame whose EtherType is not IPv4 or IPv6 after htons is skipped: no row, and not counted as saved. */
  lemma NonIpSkipped(host: Endian, dest: seq<byte>, src: seq<byte>, etherType: u16, payload: seq<byte>)
    requires |dest| == 6 && |src| == 6
    requires Htons(host, etherType) !in {8, 0x86DD}
    ensures Dissect(host, EthernetBytes(dest, src, etherType, payload)) == Success(None)
  {
    var raw := EthernetBytes(dest, src, etherType, payload);
    assert raw[..14][12] == raw[12] && raw[..14][13] == raw[13];
  }

  /**
   * An IPv4 frame on a little-endian host: the addresses come from the
   * fixed header and the protocol tag from its protocol byte; the ports
   * are read at byte 20 of the IP packet, so past IP options they come
   * from the options' bytes.
   */
  lemma DissectIpv4Frame(dest: seq<byte>, src: seq<byte>, ip: Ipv4Fields, options: seq<byte>, segment: seq<byte>)
    requires |dest| == 6 && |src| == 6 && ip.Valid()
    requires |options + segment| >= 20
    ensures var frame := EthernetBytes(dest, src, 0x0800, Ipv4Bytes(ip, options, segment));
      var r := Dissect(LittleEndian, frame);
      var data := options + segment;
      r.Success? && r.value.Some?
      && r.value.value.srcIp == IpFormat(ip.src) && r.value.value.destIp == IpFormat(ip.dest)
      && r.value.value.transport == TransportOf(ip.proto)
      && (ip.proto in {6, 17} ==> r.value.value.srcPort == Some(Be16(data, 0)) && r.value.value.destPort == Some(Be16(data, 2)))
  {
    var packet := Ipv4Bytes(ip, options, segment);
    var frame := EthernetBytes(dest, src, 0x0800, packet);
    assert frame[..14][12] == frame[12] && frame[..14][13] == frame[13];
    assert Htons(LittleEndian, 0x0800) == 8;
    assert frame[14..] == packet;
    var h := packet[..20];
    assert h == Ipv4FixedBytes(ip);
    assert packet[20..] == options + segment;
    var data := options + segment;
    if ip.proto in {6, 17} {
      var size := if ip.proto == 6 then 20 else 8;
      assert data[..size][0] == data[0] && data[..size][1] == data[1];
      assert data[..size][2] == data[2] && data[..size][3] == data[3];
    }
  }
}
