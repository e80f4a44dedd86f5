/**
 * The payload hunter (adv_data_sniff.py): IPv4/TCP frames are decoded, the
 * TCP payload is lowercased, and three answers are kept while frames
 * arrive: how many packets involve a known IP address, the first payload
 * that names a laptop (with the value the script reports as its TCP
 * checksum), and how many payloads report
 * a successful order.
 */
module AdvSniffer {
  import opened Wire
  import opened Text
  import opened Results
  import opened Encode
  import FastSniffer

  datatype Ipv4Header = Ipv4Header(srcIp: string, destIp: string, proto: byte, data: seq<byte>)

  datatype TcpHeader = TcpHeader(srcPort: u16, destPort: u16, checksum: u16, payload: seq<byte>)

  /** `parse_ipv4_header`: addresses and protocol, and the data after the IHL-derived header length. */
  function ParseIpv4(raw: seq<byte>): (r: Result<Ipv4Header, StructError>)
    ensures r.Success? <==> |raw| >= 20
    ensures r.Success? ==> r.value.data == Tail(raw, (raw[0] % 16) * 4)
    ensures r.Success? ==> r.value.proto == raw[9] && r.value.srcIp == IpFormat(raw[12..16]) && r.value.destIp == IpFormat(raw[16..20])
  {
    var _ :- Unpackable(raw, 20);
    var h := raw[..20];
    assert h[12..16] == raw[12..16] && h[16..20] == raw[16..20];
    Success(Ipv4Header(IpFormat(h[12..16]), IpFormat(h[16..20]), h[9], Tail(raw, (h[0] % 16) * 4)))
  }

  /**
   * `parse_tcp_header`: ports, the value it calls the checksum, and the
   * payload after the data-offset header length. The format `!HHLLBBHHH`
   * splits bytes 12 and 13 into two single-byte fields, so its seventh
   * field, the one returned as the checksum, is bytes 14 and 15: the
   * window.
   */
  function ParseTcp(raw: seq<byte>): (r: Result<TcpHeader, StructError>)
    ensures r.Success? <==> |raw| >= 20
    ensures r.Success? ==> r.value.srcPort == Be16(raw, 0) && r.value.destPort == Be16(raw, 2)
    ensures r.Success? ==> r.value.checksum == Be16(raw, 14) && r.value.payload == Tail(raw, (raw[12] / 16) * 4)
  {
    var _ :- Unpackable(raw, 20);
    var h := raw[..20];
    assert h[0] == raw[0] && h[1] == raw[1] && h[2] == raw[2] && h[3] == raw[3];
    assert h[14] == raw[14] && h[15] == raw[15];
    Success(TcpHeader(Be16(h, 0), Be16(h, 2), Be16(h, 14), Tail(raw, (h[12] / 16) * 4)))
  }

  /** On a well-formed TCP segment, the value reported as the checksum is the window field, not the checksum field. */
  lemma ParseTcpReadsWindow(f: TcpFields, options: seq<byte>, payload: seq<byte>)
    requires f.Valid() && f.dataOffset * 4 == 20 + |options|
    ensures ParseTcp(TcpBytes(f, options, payload)) == Success(TcpHeader(f.srcPort, f.destPort, f.window, payload))
  {
    var r := TcpBytes(f, options, payload);
    assert r[..20] == TcpFixedBytes(f);
    assert r[12] == r[..20][12];
  }

  /** The address whose packets are counted. */
  const FoundIp := "10.1.2.200"

  /** The lowercase ASCII of "laptop =". */
  const LaptopMarker: seq<byte> := [0x6c, 0x61, 0x70, 0x74, 0x6f, 0x70, 0x20, 0x3d]

  /** The lowercase ASCII of "order successful". */
  const OrderMarker: seq<byte> := [0x6f, 0x72, 0x64, 0x65, 0x72, 0x20, 0x73, 0x75, 0x63, 0x63, 0x65, 0x73, 0x73, 0x66, 0x75, 0x6c]

  /** An IPv4/TCP packet as the loop sees it: addresses, the reported checksum (the window field) and the lowercased payload. */
  datatype Segment = Segment(srcIp: string, destIp: string, checksum: u16, text: seq<byte>)

  /** The bytes after the IPv4 header of an Ethernet frame, by the IHL of its byte 14. */
  function TcpPart(raw: seq<byte>): seq<byte>
    requires |raw| >= 15
  {
    Tail(raw[14..], (raw[14] % 16) * 4)
  }

  /** The bytes after a TCP header, by the data offset of its byte 12. */
  function TcpPayload(tcp: seq<byte>): seq<byte>
    requires |tcp| >= 13
  {
    Tail(tcp, (tcp[12] / 16) * 4)
  }

  /**
   * Decoding one frame: None when it is not IPv4 (EtherType 8 after htons)
   * or not TCP (protocol 6); otherwise the segment with its payload
   * lowercased.
   */
  function Dissect(host: Endian, raw: seq<byte>): (r: Result<Option<Segment>, StructError>)
    ensures |raw| < 14 ==> r == Failure(StructError(14, |raw|))
    ensures r.Success? && r.value.Some? ==> FastSniffer.ParseEthernet(host, raw).value.ethProto == 8
    ensures r.Success? && r.value.Some? ==> Lower(r.value.value.text) == r.value.value.text
  {
    var eth :- FastSniffer.ParseEthernet(host, raw);
    if eth.ethProto != 8 then Success(None)
    else
      var ip :- ParseIpv4(eth.data);
      if ip.proto != 6 then Success(None)
      else
        var tcp :- ParseTcp(ip.data);
        LowerIdempotent(tcp.payload);
        Success(Some(Segment(ip.srcIp, ip.destIp, tcp.checksum, Lower(tcp.payload))))
  }

  /**
   * Which frames give a segment: any EtherType but 8 gives none; with
   * EtherType 8 the frame raises exactly when the IPv4 header is short or,
   * for protocol 6, the TCP header is; and a frame that decodes gives a
   * segment exactly when its protocol byte is 6.
   */
  lemma DissectOutcome(host: Endian, raw: seq<byte>)
    requires |raw| >= 14
    ensures var ethProto, r := FastSniffer.ParseEthernet(host, raw).value.ethProto, Dissect(host, raw);
      (ethProto != 8 ==> r == Success(None))
      && (ethProto == 8 ==> (r.Failure? <==> |raw| < 34 || (raw[23] == 6 && |TcpPart(raw)| < 20)))
      && (r.Success? ==> (r.value.Some? <==> ethProto == 8 && |raw| >= 34 && raw[23] == 6))
  {
    var eth := FastSniffer.ParseEthernet(host, raw).value;
    if eth.ethProto == 8 && |raw| >= 34 {
      var ip := ParseIpv4(eth.data).value;
      assert ip.proto == raw[23] && ip.data == TcpPart(raw);
    }
  }

  /** The IPv4 header of a frame long enough for one, in the frame's own offsets. */
  lemma Ipv4OfFrame(raw: seq<byte>)
    requires |raw| >= 34
    ensures ParseIpv4(raw[14..]) == Success(Ipv4Header(IpFormat(raw[26..30]), IpFormat(raw[30..34]), raw[23], TcpPart(raw)))
  {
    assert raw[14..][12..16] == raw[26..30] && raw[14..][16..20] == raw[30..34];
  }

  /** A TCP header long enough to decode. */
  lemma TcpOfSegment(tcp: seq<byte>)
    requires |tcp| >= 20
    ensures ParseTcp(tcp) == Success(TcpHeader(Be16(tcp, 0), Be16(tcp, 2), Be16(tcp, 14), TcpPayload(tcp)))
  {
  }

  /** The segment of an IPv4/TCP frame: the addresses at bytes 26-33, bytes 14-15 of the TCP header, and the lowercased TCP payload. */
  lemma DissectSegment(host: Endian, raw: seq<byte>)
    requires Dissect(host, raw).Success? && Dissect(host, raw).value.Some?
    ensures |raw| >= 34 && |TcpPart(raw)| >= 20
    ensures Dissect(host, raw).value.value
      == Segment(IpFormat(raw[26..30]), IpFormat(raw[30..34]), Be16(TcpPart(raw), 14), Lower(TcpPayload(TcpPart(raw))))
  {
    assert FastSniffer.ParseEthernet(host, raw).value.data == raw[14..];
    assert |raw| >= 34;
    Ipv4OfFrame(raw);
    assert |TcpPart(raw)| >= 20;
    TcpOfSegment(TcpPart(raw));
  }

  function DissectOn(host: Endian): seq<byte> -> Result<Option<Segment>, StructError>
  {
    raw => Dissect(host, raw)
  }

  /** The loop's variables; `crash` is the error that ended it, if any. */
  datatype Counters = Counters(
    captured: nat, ipPacketCount: nat, laptopName: Option<seq<byte>>, laptopChecksum: Option<u16>,
    orderCount: nat, crash: Option<StructError>)

  predicate InvolvesFoundIp(seg: Segment)
  {
    |FoundIp| > 0 && (FoundIp == seg.srcIp || FoundIp == seg.destIp)
  }

  /** The three questions asked of one TCP segment, in the order of the source. */
  function Observe(c: Counters, seg: Segment): (r: Counters)
    ensures r.captured == c.captured && r.crash == c.crash
  {
    var c := if InvolvesFoundIp(seg) then c.(ipPacketCount := c.ipPacketCount + 1) else c;
    var c := if c.laptopName.None? && Contains(seg.text, LaptopMarker)
      then c.(laptopName := Some(seg.text), laptopChecksum := Some(seg.checksum)) else c;
    if Contains(seg.text, OrderMarker) then c.(orderCount := c.orderCount + 1) else c
  }

  /** The loop after the given frames: count each frame, stop on an error, observe each TCP segment. */
  function Capture(decode: seq<byte> -> Result<Option<Segment>, StructError>, frames: seq<seq<byte>>): Counters
    decreases |frames|
  {
    if frames == [] then Counters(0, 0, None, None, 0, None)
    else
      var c := Capture(decode, frames[..|frames| - 1]);
      if c.crash.Some? then c
      else match decode(frames[|frames| - 1])
        case Failure(e) => c.(captured := c.captured + 1, crash := Some(e))
        case Success(None) => c.(captured := c.captured + 1)
        case Success(Some(seg)) => Observe(c.(captured := c.captured + 1), seg)
  }

  /*
   * Reference definitions, read from the front of the stream.
   */

  /** The TCP segments among the given frames, in arrival order. */
  function Segments(decode: seq<byte> -> Result<Option<Segment>, StructError>, frames: seq<seq<byte>>): seq<Segment>
    decreases |frames|
  {
    if frames == [] then []
    else
      var rest := Segments(decode, frames[1..]);
      match decode(frames[0])
      case Success(Some(seg)) => [seg] + rest
      case _ => rest
  }

  function CountIpMatches(segs: seq<Segment>): nat
  {
    if segs == [] then 0 else (if InvolvesFoundIp(segs[0]) then 1 else 0) + CountIpMatches(segs[1..])
  }

  function CountOrders(segs: seq<Segment>): nat
  {
    if segs == [] then 0 else (if Contains(segs[0].text, OrderMarker) then 1 else 0) + CountOrders(segs[1..])
  }

  /** The first segment whose payload names a laptop. */
  function FirstLaptop(segs: seq<Segment>): (r: Option<Segment>)
    ensures r.Some? ==> Contains(r.value.text, LaptopMarker)
    ensures r.Some? ==> exists i :: (0 <= i < |segs| && segs[i] == r.value
      && forall j :: 0 <= j < i ==> !Contains(segs[j].text, LaptopMarker))
    ensures r.None? <==> forall i :: 0 <= i < |segs| ==> !Contains(segs[i].text, LaptopMarker)
  {
    if segs == [] then None
    else if Contains(segs[0].text, LaptopMarker) then Some(segs[0])
    else FirstLaptop(segs[1..])
  }

  lemma {:induction false} ReferencesAppend(decode: seq<byte> -> Result<Option<Segment>, StructError>, frames: seq<seq<byte>>, raw: seq<byte>)
    ensures Segments(decode, frames + [raw]) == Segments(decode, frames) + match decode(raw)
      case Success(Some(seg)) => [seg]
      case _ => []
    decreases |frames|
  {
    if frames == [] {
      assert [] + [raw] == [raw];
    } else {
      ReferencesAppend(decode, frames[1..], raw);
      assert (frames + [raw])[1..] == frames[1..] + [raw];
    }
  }

  lemma {:induction false} CountsAppend(segs: seq<Segment>, seg: Segment)
    ensures CountIpMatches(segs + [seg]) == CountIpMatches(segs) + if InvolvesFoundIp(seg) then 1 else 0
    ensures CountOrders(segs + [seg]) == CountOrders(segs) + if Contains(seg.text, OrderMarker) then 1 else 0
    ensures FirstLaptop(segs + [seg]) ==
      if FirstLaptop(segs).Some? then FirstLaptop(segs)
      else if Contains(seg.text, LaptopMarker) then Some(seg) else None
    decreases |segs|
  {
    if segs != [] {
      CountsAppend(segs[1..], seg);
      assert (segs + [seg])[1..] == segs[1..] + [seg];
    } else {
      assert [] + [seg] == [seg];
    }
  }

  /** The laptop answer as the loop keeps it: the name and checksum of the first laptop segment. */
  function LaptopAnswer(segs: seq<Segment>): (Option<seq<byte>>, Option<u16>)
  {
    match FirstLaptop(segs)
    case None => (None, None)
    case Some(seg) => (Some(seg.text), Some(seg.checksum))
  }

  /** How many frames decoded: every captured frame but the one that crashed. */
  function Decoded(c: Counters): int
  {
    if c.crash.Some? then c.captured - 1 else c.captured
  }

  /**
   * Where the loop stops: every frame before the stop decodes, the loop
   * reaches the end unless a frame fails, and the failing frame is the last
   * one captured.
   */
  lemma {:induction false} CaptureStops(decode: seq<byte> -> Result<Option<Segment>, StructError>, frames: seq<seq<byte>>)
    ensures var c := Capture(decode, frames);
      0 <= Decoded(c) <= c.captured <= |frames|
      && (forall i :: 0 <= i < Decoded(c) ==> decode(frames[i]).Success?)
      && (c.crash.None? ==> c.captured == |frames|)
      && (c.crash.Some? ==> decode(frames[Decoded(c)]) == Failure(c.crash.value))
    decreases |frames|
  {
    if frames != [] {
      var init := frames[..|frames| - 1];
      CaptureStops(decode, init);
      assert forall i :: 0 <= i < |init| ==> init[i] == frames[i];
    }
  }

  /**
   * What the loop's answers come to: the IP count is the number of decoded
   * segments that involve the address, the order count the number whose
   * payload reports a successful order (once per packet), and the laptop
   * answer comes from the first segment naming a laptop.
   */
  lemma {:induction false} CaptureCharacterized(decode: seq<byte> -> Result<Option<Segment>, StructError>, frames: seq<seq<byte>>)
    ensures var c := Capture(decode, frames);
      0 <= Decoded(c) <= |frames|
      && var segs := Segments(decode, frames[..Decoded(c)]);
      c.ipPacketCount == CountIpMatches(segs)
      && c.orderCount == CountOrders(segs)
      && (c.laptopName, c.laptopChecksum) == LaptopAnswer(segs)
    decreases |frames|
  {
    CaptureStops(decode, frames);
    if frames != [] {
      var init := frames[..|frames| - 1];
      var last := frames[|frames| - 1];
      CaptureCharacterized(decode, init);
      CaptureStops(decode, init);
      var c := Capture(decode, init);
      if c.crash.None? {
        assert init[..Decoded(c)] == init;
        assert frames == init + [last];
        StepCharacterized(decode, init, last);
      } else {
        assert frames[..Decoded(c)] == init[..Decoded(c)];
      }
    }
  }

  /** The loop's answers agree with the reference definitions on the segments `segs`. */
  ghost predicate Answers(c: Counters, segs: seq<Segment>)
  {
    c.ipPacketCount == CountIpMatches(segs)
    && c.orderCount == CountOrders(segs)
    && (c.laptopName, c.laptopChecksum) == LaptopAnswer(segs)
  }

  /** Observing one more segment keeps the answers in step with the reference definitions. */
  lemma ObserveAnswers(c: Counters, segs: seq<Segment>, seg: Segment)
    requires Answers(c, segs)
    ensures Answers(Observe(c, seg), segs + [seg])
  {
    CountsAppend(segs, seg);
  }

  /** One more frame after a capture that has not stopped. */
  lemma StepCharacterized(decode: seq<byte> -> Result<Option<Segment>, StructError>, init: seq<seq<byte>>, last: seq<byte>)
    requires Capture(decode, init).crash.None? && Capture(decode, init).captured == |init|
    requires Answers(Capture(decode, init), Segments(decode, init))
    ensures var c := Capture(decode, init + [last]);
      0 <= Decoded(c) <= |init| + 1 && Answers(c, Segments(decode, (init + [last])[..Decoded(c)]))
  {
    var frames := init + [last];
    CaptureStep(decode, frames, |init|);
    assert frames[..|init|] == init && frames[..|init| + 1] == frames;
    var c := Capture(decode, init);
    var segs := Segments(decode, init);
    ReferencesAppend(decode, init, last);
    var c' := Capture(decode, frames);
    match decode(last)
    case Failure(e) =>
      assert Decoded(c') == |init|;
    case Success(None) =>
      assert Decoded(c') == |frames|;
      assert Segments(decode, frames) == segs;
    case Success(Some(seg)) =>
      assert Decoded(c') == |frames|;
      assert Segments(decode, frames) == segs + [seg];
      ObserveAnswers(c.(captured := c.captured + 1), segs, seg);
  }

  /** One more frame: the loop's step. */
  lemma CaptureStep(decode: seq<byte> -> Result<Option<Segment>, StructError>, frames: seq<seq<byte>>, i: nat)
    requires i < |frames|
    ensures var c := Capture(decode, frames[..i]);
      Capture(decode, frames[..i + 1]) ==
        if c.crash.Some? then c
        else match decode(frames[i])
          case Failure(e) => c.(captured := c.captured + 1, crash := Some(e))
          case Success(None) => c.(captured := c.captured + 1)
          case Success(Some(seg)) => Observe(c.(captured := c.captured + 1), seg)
  {
    assert frames[..i + 1][..i] == frames[..i];
  }

  lemma {:induction false} CaptureStopsAtCrash(decode: seq<byte> -> Result<Option<Segment>, StructError>, frames: seq<seq<byte>>, more: seq<seq<byte>>)
    requires Capture(decode, frames).crash.Some?
    ensures Capture(decode, frames + more) == Capture(decode, frames)
    decreases |more|
  {
    if more != [] {
      var init := more[..|more| - 1];
      CaptureStopsAtCrash(decode, frames, init);
      var all := frames + more;
      assert all[..|all| - 1] == frames + init;
    } else {
      assert frames + more == frames;
    }
  }

  /** Once the laptop is found, later frames never replace its name or checksum. */
  lemma {:induction false} LaptopWrittenOnce(decode: seq<byte> -> Result<Option<Segment>, StructError>, frames: seq<seq<byte>>, more: seq<seq<byte>>)
    requires Capture(decode, frames).laptopName.Some?
    ensures Capture(decode, frames + more).laptopName == Capture(decode, frames).laptopName
    ensures Capture(decode, frames + more).laptopChecksum == Capture(decode, frames).laptopChecksum
    decreases |more|
  {
    if more != [] {
      var init := more[..|more| - 1];
      LaptopWrittenOnce(decode, frames, init);
      var all := frames + more;
      assert all[..|all| - 1] == frames + init;
    } else {
      assert frames + more == frames;
    }
  }

  /**
   * The `while True` loop of the script, with `captured_packets`,
   * `ip_packet_count`, `laptop_name`, `laptop_packet_checksum` and
   * `order_successful_count`; `decode` is the parsing of one frame.
   */
  method HuntWith(decode: seq<byte> -> Result<Option<Segment>, StructError>, frames: seq<seq<byte>>) returns (
    captured: nat, ipPacketCount: nat, laptopName: Option<seq<byte>>, laptopChecksum: Option<u16>,
    orderCount: nat, crash: Option<StructError>)
    ensures Counters(captured, ipPacketCount, laptopName, laptopChecksum, orderCount, crash) == Capture(decode, frames)
  {
    captured, ipPacketCount, laptopName, laptopChecksum, orderCount, crash := 0, 0, None, None, 0, None;
    var i := 0;
    while i < |frames| && crash.None?
      invariant 0 <= i <= |frames|
      invariant Counters(captured, ipPacketCount, laptopName, laptopChecksum, orderCount, crash)
        == Capture(decode, frames[..i])
    {
      CaptureStep(decode, frames, i);
      captured := captured + 1;
      var r := decode(frames[i]);
      if r.Failure? {
        crash := Some(r.error);
      } else if r.value.Some? {
        var seg := r.value.value;
        if InvolvesFoundIp(seg) {
          ipPacketCount := ipPacketCount + 1;
        }
        if laptopName.None? && Contains(seg.text, LaptopMarker) {
          laptopName := Some(seg.text);
          laptopChecksum := Some(seg.checksum);
        }
        if Contains(seg.text, OrderMarker) {
          orderCount := orderCount + 1;
        }
      }
      i := i + 1;
    }
    if i < |frames| {
      CaptureStopsAtCrash(decode, frames[..i], frames[i..]);
      assert frames[..i] + frames[i..] == frames;
    } else {
      assert frames[..i] == frames;
    }
  }

  /** The script itself: the loop with the parsers above as its decoding step. */
  method Hunt(host: Endian, frames: seq<seq<byte>>) returns (
    captured: nat, ipPacketCount: nat, laptopName: Option<seq<byte>>, laptopChecksum: Option<u16>,
    orderCount: nat, crash: Option<StructError>)
    ensures Counters(captured, ipPacketCount, laptopName, laptopChecksum, orderCount, crash) == Capture(DissectOn(host), frames)
  {
    captured, ipPacketCount, laptopName, laptopChecksum, orderCount, crash := HuntWith(DissectOn(host), frames);
  }

  /**
   * The markers are matched whatever the case of the payload: an occurrence
   * of any spelling that lowercases to the marker is found in the lowercased
   * payload.
   */
  lemma MatchIgnoresCase(payload: seq<byte>, spelling: seq<byte>, at: nat)
    requires OccursAt(payload, spelling, at)
    ensures OccursAt(Lower(payload), Lower(spelling), at)
    ensures Lower(spelling) == LaptopMarker ==> Contains(Lower(payload), LaptopMarker)
    ensures Lower(spelling) == OrderMarker ==> Contains(Lower(payload), OrderMarker)
  {
    var n := |spelling|;
    var low, lowSpelling := Lower(payload), Lower(spelling);
    forall k | 0 <= k < n
      ensures low[at..at + n][k] == lowSpelling[k]
    {
      assert payload[at + k] == spelling[k];
    }
    assert low[at..at + n] == lowSpelling;
    assert OccursAt(low, lowSpelling, at);
  }
}
