# Packet sniffers, capture statistics and distance-vector routing in Dafny

This project models the computational core of a computer-networks coursework repository. The core has three parts.

**The sniffers.**
- `assignment1/full_sniffer.py`:
  - decodes Ethernet II, IPv4, IPv6, TCP, UDP and ICMP headers out of raw frames;
  - dispatches on EtherType and protocol number;
  - flags HTTP, TLS and DNS traffic;
  - writes one CSV row per frame.
- `assignment1/fast_sniffer.py`:
  - uses lighter decoders that ignore the IPv4 IHL and the TCP data offset;
  - skips every frame whose EtherType after `socket.htons` is neither 8 nor 0x86DD, which on a little-endian host includes every real IPv6 frame.
- `adv_data_sniff.py` hunts through lowercased TCP payloads. It counts:
  - the packets that involve one address;
  - the packets that report a successful order.

  It also records the first packet that names a laptop, together with the value it reports as the TCP checksum. That value is bytes 14-15 of the TCP header, the window field (see below).

**The capture statistics.** `flow_stats.py`, `assignment1/pair_stats.py` and `data_stats.py` read the CSV file back. They find their columns by heading and fold the rows into one of:
- per-address counters;
- a byte count per 4-tuple, plus the heaviest 4-tuple;
- a set of distinct 4-tuples;
- the sum, count, minimum and maximum of the packet sizes.

**Distance-vector routing.** There are two variants:
- `assignment3/Q3/network.py` iterates on dictionaries. It compares each candidate with the old tables and writes into a copy.
- `assignment3/Q3/object_net.py` uses one `Node` object per router. Each node keeps a running minimum over its neighbours, read from a snapshot of all the tables.

**Module layout.** The modules follow the source files:

| Module | Contents |
|---|---|
| `Wire` | Octets, network order, `socket.htons`, Python slicing |
| `Encode` | Header images used to state round trips |
| `Text` | `str`, `int`, hex, join and split, lowercasing |
| `FullSniffer`, `FastSniffer`, `AdvSniffer` | The three sniffers |
| `Columns` | Header lookup and row reading shared by the statistics scripts |
| `Tally` | `defaultdict(int)` with its insertion order, and `max(d, key=d.get)` |
| `FlowStats`, `PairStats`, `DataStats` | The three statistics scripts |
| `Routing` | Topology, costs with `math.inf`, tables, walks, the Bellman-Ford condition and a termination measure |
| `Network`, `ObjectNet` | The two routing scripts |

**How the model is stated.**
- Each decoder is a function whose contract states:
  - how many bytes it needs;
  - which bytes it hands on;
  - the bounds of the fields it extracts.

  A round-trip lemma against a synthetic header image shows that each field comes from the right offset.
- Each capture loop is a method proved equal to a function over the frame sequence. Lemmas characterise that function: what was counted, what was saved, and where the loop stops.
- The statistics loops are methods proved equal to folds. The folds are characterised against independent reference definitions (total weight per key, distinct keys, sum, minimum, maximum).
- Both routing scripts are methods that build and relax the tables in place. Each is proved to end at a fixed point of one iteration. At that point every entry holds the cost of a cheapest walk, or `math.inf` where there is none.

**Behaviour kept as written.** The model follows the code where it is looser than a textbook decoder would be:
- **No validation.**
  - The IP version nibble is never checked.
  - IHL and data-offset values are trusted as they are. Below 5 words, the data handed on starts inside the header. A value past the end of the buffer hands on nothing (`FullSniffer.Ipv4UntrustedLength`).
- **Short frames end the capture.** A buffer too short for a decoder makes `struct.unpack` raise `struct.error`. No capture loop catches it, so the loop ends at that frame rather than counting it as malformed.
- **`socket.htons` depends on the host.** The byte order of the EtherType test depends on the host running the sniffer, so the host byte order is a parameter.
  - On a little-endian host, `== 8` selects IPv4.
  - On a big-endian host it does not, since `htons` is then the identity.
  - On a little-endian host, `== 0x86DD` matches the wire value 0xDD86, so real IPv6 frames fall through the IPv6 branch (`FullSniffer.LittleEndianIpv6Test`).
- **The first data row is skipped.** The header loop of each statistics script consumes the heading row, and the `next(reader)` that follows skips the first data row. That row is never counted (`Columns.SecondRowIgnored`, `DataStats.SniffedSizes`).
- **The last improving neighbour wins in `network.py`.** `network.py` compares every candidate with the old cost. When several neighbours improve an entry, the last of them wins, not the cheapest (`Network.PickLastImprover`).
- **The reported TCP checksum is the window.** `adv_data_sniff.py` unpacks the TCP header with `!HHLLBBHHH`. That format reads bytes 12 and 13 as two single-byte fields, so its seventh field, which the script names `checksum` and reports for the laptop packet, is the 16-bit window at bytes 14-15. The field it names `window` is the flags byte. The model reads bytes 14-15, as the script does (`AdvSniffer.ParseTcp`, `AdvSniffer.ParseTcpReadsWindow`).
- **The first cheapest neighbour wins in `object_net.py`.** `object_net.py` compares with the running best, so the first cheapest neighbour wins (`ObjectNet.RunMinFirst`).

## Model

| member | source | states |
|---|---|---|
| Wire.HtonsInvolutive | assignment1/full_sniffer.py:32 | `htons` undoes itself on either host byte order |
| Wire.HtonsOfWireField | assignment1/full_sniffer.py:31-32 | the EtherType after `htons` is the two wire bytes read little-endian on a little-endian host and big-endian on a big-endian host |
| Wire.Unpackable | assignment1/full_sniffer.py:31 | `struct.unpack` on `raw[:size]`, as every decoder of the three sniffers calls it, succeeds exactly when the buffer holds `size` bytes, and reports the sizes otherwise |
| Wire.Head | assignment1/full_sniffer.py:31 | `raw[:n]` is a prefix of the buffer, of length `n` or the whole buffer when it is shorter |
| Wire.Tail | assignment1/full_sniffer.py:57 | `raw[n:]` is a suffix of the buffer, empty when `n` is past the end, so no slice reaches outside the buffer |
| Text.Decimal | assignment1/full_sniffer.py:16-17 | `str(n)` is a non-empty digit string, one digit exactly below 10 and at most three below 1000 |
| Text.ParseDecimal | flow_stats.py:33 | `int` succeeds exactly on a non-empty string of decimal digits |
| Text.DecimalRoundTrip | flow_stats.py:33 | `int(str(n)) == n`: what the sniffer writes, the statistics read back |
| Text.Hex2 | assignment1/full_sniffer.py:13 | `"{:02x}"` yields two lowercase hexadecimal digits |
| Text.Hex2RoundTrip | assignment1/full_sniffer.py:13 | the two digits denote the byte again, so the rendering loses nothing |
| Text.Hex2Injective | assignment1/full_sniffer.py:13 | different bytes render differently |
| Text.SplitJoin | assignment1/full_sniffer.py:13 | splitting a `":".join` at the separator gives the pieces back when none contains it |
| Text.MacFormatShape | assignment1/full_sniffer.py:12-13 | a 6-byte MAC renders as 17 characters: six lowercase hex pairs, in byte order, split by colons |
| Text.IpFormatShape | assignment1/full_sniffer.py:16-17 | a 4-byte address renders as four dot-separated decimals, 7 to 15 characters, each of which `int` reads back as its byte |
| Text.Ipv6FormatShape | assignment1/full_sniffer.py:20-21 | 16 bytes render as 39 characters: eight groups of four lowercase hex digits, in byte order, split by colons |
| Text.Lower | adv_data_sniff.py:68 | `lower()` keeps the length, leaves no upper-case letter, turns each capital into its lower-case letter and keeps every other byte |
| Text.LowerIdempotent | adv_data_sniff.py:68 | lowering a lowercased payload again changes nothing |
| FullSniffer.ParseEthernet | assignment1/full_sniffer.py:24-32 | needs 14 bytes; hands on `raw[14:]`; both MAC texts are 17 characters |
| FullSniffer.ParseIpv4 | assignment1/full_sniffer.py:35-57 | needs 20 bytes; the version is below 16; the header length is a multiple of 4 up to 60; the data is `raw[header_length:]` |
| FullSniffer.ParseIpv6 | assignment1/full_sniffer.py:60-81 | needs 40 bytes; the version, traffic class and flow label fit 4, 8 and 20 bits; the data is `raw[40:]` |
| FullSniffer.ParseTcp | assignment1/full_sniffer.py:84-96 | needs 20 bytes; the header length is a multiple of 4 up to 60; the data is `raw[header_length:]` |
| FullSniffer.ParseUdp | assignment1/full_sniffer.py:99-108 | needs 8 bytes and hands on `raw[8:]` |
| FullSniffer.ParseIcmp | assignment1/full_sniffer.py:111-113 | needs 4 bytes and hands on `raw[4:]` |
| FullSniffer.IsSsl | assignment1/full_sniffer.py:120-121 | TLS is reported exactly when port 443 is the source or the destination port |
| FullSniffer.IsHttp | assignment1/full_sniffer.py:116-117 | a payload that matches has at least four bytes |
| FullSniffer.IsHttpPrefix | assignment1/full_sniffer.py:116-117 | matches exactly when the first four bytes are `GET `, `POST` or `HTTP`; bytes after the fourth never matter |
| FullSniffer.DissectIpv4 | assignment1/full_sniffer.py:154-179 | HTTP only for TCP; TLS only for TCP with port 443 on either side, and a TCP segment with port 443 is always HTTP or TLS; a UDP datagram is DNS exactly when port 53 is on either side; size and EtherType unchanged |
| FullSniffer.DissectIpv6 | assignment1/full_sniffer.py:182-194 | no application is flagged for IPv6; size and EtherType unchanged |
| FullSniffer.Dissect | assignment1/full_sniffer.py:144-199 | under 14 bytes the frame raises; a row carries the frame length; an application is flagged only when the EtherType test is IPv4's `== 8`, with the transport and port conditions of each kind; on the `== 8` branch a UDP datagram is DNS exactly when port 53 is on either side, and a TCP segment with port 443 is HTTP or TLS |
| FullSniffer.CaptureCharacterized | assignment1/full_sniffer.py:140-200 | one row per frame up to the first frame that raises, each row that frame's dissection; saved never exceeds captured; without a crash every frame is saved; a crash leaves exactly one captured frame unsaved, and it is the frame that raised |
| FullSniffer.CaptureStopsAtCrash | assignment1/full_sniffer.py:139-205 | once a frame has raised, later frames change nothing |
| FullSniffer.SniffWith | assignment1/full_sniffer.py:140-200 | the loop's rows and counters are those of the capture function, and saved never exceeds captured |
| FullSniffer.Sniff | assignment1/full_sniffer.py:140-200 | the same loop with this script's own decoders |
| FullSniffer.ParseEthernetRoundTrip | assignment1/full_sniffer.py:31-32 | decoding a built Ethernet header gives back both MACs, `htons` of the EtherType and the payload |
| FullSniffer.ParseIpv4RoundTrip | assignment1/full_sniffer.py:49-57 | decoding a built IPv4 header gives back the version, IHL times 4, TTL, protocol, both addresses and the payload after the options |
| FullSniffer.Ipv6FirstWordSplit | assignment1/full_sniffer.py:72-75 | version, traffic class and flow label recombine into the first word |
| FullSniffer.FirstWordFields | assignment1/full_sniffer.py:72-75 | the shifts and masks recover each part of a packed first word |
| FullSniffer.ParseIpv6RoundTrip | assignment1/full_sniffer.py:72-81 | decoding a built IPv6 header gives back every field and the payload |
| FullSniffer.ParseTcpRoundTrip | assignment1/full_sniffer.py:93-96 | decoding a built TCP header gives back the ports, sequence and acknowledgment numbers, data offset times 4 and the payload after the options |
| FullSniffer.ParseUdpRoundTrip | assignment1/full_sniffer.py:106-108 | decoding a built UDP header gives back the ports, length and payload |
| FullSniffer.ParseIcmpRoundTrip | assignment1/full_sniffer.py:112-113 | decoding a built ICMP header gives back type, code, checksum and the rest |
| FullSniffer.Ipv4UntrustedLength | assignment1/full_sniffer.py:52-57 | an IHL of 0 hands on the whole packet, one past the end hands on nothing, and otherwise the data starts at the IHL-derived length |
| FullSniffer.LittleEndianIpv4Test | assignment1/full_sniffer.py:154 | on a little-endian host the `== 8` test holds exactly for wire EtherType 0x0800 |
| FullSniffer.LittleEndianIpv6Test | assignment1/full_sniffer.py:182 | on a little-endian host the `== 0x86DD` test holds exactly for wire value 0xDD86, and a real IPv6 frame shows as 0xDD86 |
| FullSniffer.BigEndianIpv4Test | assignment1/full_sniffer.py:154 | on a big-endian host the `== 8` test holds exactly for wire value 0x0008 |
| FullSniffer.DissectIpv4Tcp | assignment1/full_sniffer.py:154-167 | a whole IPv4/TCP frame yields its MACs, addresses, ports and length, with HTTP winning over port 443, which wins over nothing |
| FastSniffer.ParseEthernet | assignment1/fast_sniffer.py:17-19 | needs 14 bytes and hands on `raw[14:]` |
| FastSniffer.ParseIpv4 | assignment1/fast_sniffer.py:21-26 | needs 20 bytes and hands on `raw[20:]` whatever the IHL says |
| FastSniffer.ParseIpv6 | assignment1/fast_sniffer.py:28-33 | needs 40 bytes, hands on `raw[40:]`, and both addresses render as 39 characters |
| FastSniffer.ParseTcpUdp | assignment1/fast_sniffer.py:35-39 | header size 20 for TCP and 8 for UDP; needs that many bytes and hands on what follows, ignoring the data offset |
| FastSniffer.ParseIcmpIgmp | assignment1/fast_sniffer.py:41-43 | needs 2 bytes and yields bytes 0 and 1 as type and code |
| FastSniffer.TransportOf | assignment1/fast_sniffer.py:73-84 | the tag is "Other" exactly for protocol numbers other than 1, 2, 6 and 17 |
| FastSniffer.Cells | assignment1/fast_sniffer.py:88 | a row has one cell per heading, and its last cell reads back as the packet size |
| FastSniffer.CsvRows | assignment1/fast_sniffer.py:54-89 | the file is the heading row followed by each saved row's cells, in order |
| FastSniffer.DissectTransport | assignment1/fast_sniffer.py:73-84 | the tag follows the protocol number; ports exactly for TCP and UDP; addresses and size carried through |
| FastSniffer.Dissect | assignment1/fast_sniffer.py:60-88 | under 14 bytes the frame raises; it is skipped exactly when the EtherType is neither 8 nor 0x86DD; a row carries the frame length |
| FastSniffer.CaptureCharacterized | assignment1/fast_sniffer.py:57-89 | the rows are exactly the non-skipped frames before the stop, in order; captured is saved plus skipped plus the crashed frame, so saved never exceeds captured; the capture runs to the end unless a frame raises, and that frame is the last captured |
| FastSniffer.CaptureStopsAtCrash | assignment1/fast_sniffer.py:56-91 | once a frame has raised, later frames change nothing |
| FastSniffer.SniffWith | assignment1/fast_sniffer.py:57-89 | the loop's rows and counters are those of the capture function, and saved never exceeds captured |
| FastSniffer.Sniff | assignment1/fast_sniffer.py:57-89 | the same loop with this script's own decoders |
| FastSniffer.NonIpSkipped | assignment1/fast_sniffer.py:66-71 | a frame whose EtherType after `htons` is neither 8 nor 0x86DD is skipped: no row is written |
| FastSniffer.DissectIpv4Frame | assignment1/fast_sniffer.py:66-77 | an IPv4 frame yields its addresses and protocol tag; TCP and UDP ports are read at byte 20, from the options when there are any |
| AdvSniffer.ParseIpv4 | adv_data_sniff.py:18-24 | needs 20 bytes; protocol from byte 9 and the addresses from bytes 12-19; hands on the data after the IHL-derived length |
| AdvSniffer.ParseTcp | adv_data_sniff.py:27-39 | needs 20 bytes; ports from bytes 0-3; the value returned as the checksum is `tcp_header[6]` of `!HHLLBBHHH`, bytes 14-15; the payload follows the data-offset length |
| AdvSniffer.ParseTcpReadsWindow | adv_data_sniff.py:28-39 | on a built TCP segment, the value returned as the checksum is the window field, and the ports and payload come back |
| AdvSniffer.Dissect | adv_data_sniff.py:57-70 | under 14 bytes the frame raises; a segment comes only from EtherType 8, and its text is lowercased |
| AdvSniffer.DissectOutcome | adv_data_sniff.py:57-63 | any EtherType but 8 after `htons` gives no segment; with EtherType 8 the frame raises exactly when the IPv4 header is short or, for protocol 6, the TCP header is; a decoded frame gives a segment exactly when its protocol byte is 6 |
| AdvSniffer.DissectSegment | adv_data_sniff.py:57-70 | the segment of an IPv4/TCP frame holds the addresses at bytes 26-33, bytes 14-15 of the TCP header, and the TCP payload after the data offset, lowercased |
| AdvSniffer.Observe | adv_data_sniff.py:79-91 | observing a segment leaves the captured count and the crash alone |
| AdvSniffer.FirstLaptop | adv_data_sniff.py:83-87 | the laptop segment names a laptop and no earlier segment does; there is none exactly when no segment names a laptop |
| AdvSniffer.CountsAppend | adv_data_sniff.py:79-91 | per segment the address count rises by one when either address matches, the order count by one when the marker occurs however often, and the laptop answer changes only while none is set |
| AdvSniffer.CaptureStops | adv_data_sniff.py:54-63 | every frame before the stop decodes; the loop reaches the end unless a frame raises, and that frame is the last captured |
| AdvSniffer.CaptureCharacterized | adv_data_sniff.py:54-91 | over the TCP segments decoded before the stop: the address count is the number involving the address, the order count the number reporting an order, and the laptop answer comes from the first segment naming one |
| AdvSniffer.ObserveAnswers | adv_data_sniff.py:79-91 | one more observed segment keeps the answers equal to the reference counts |
| AdvSniffer.CaptureStopsAtCrash | adv_data_sniff.py:53-93 | once a frame has raised, later frames change nothing |
| AdvSniffer.LaptopWrittenOnce | adv_data_sniff.py:83-87 | once a laptop name is set, neither it nor its checksum ever changes |
| AdvSniffer.HuntWith | adv_data_sniff.py:54-91 | the loop's counters are those of the capture function |
| AdvSniffer.Hunt | adv_data_sniff.py:54-91 | the same loop with this script's own decoders |
| AdvSniffer.MatchIgnoresCase | adv_data_sniff.py:66-91 | any capitalisation of a marker in the payload is found in the lowercased payload |
| Columns.IndexOf | flow_stats.py:18 | the lookup succeeds exactly when the heading occurs, at its first position; otherwise it raises |
| Columns.IndicesOf | flow_stats.py:18-21 | all lookups succeed exactly when every heading occurs, each at its own position; otherwise the first missing heading raises |
| Columns.Locate | flow_stats.py:16-26 | needs a heading row with every label and one more row; the data is every row after the second |
| Columns.SecondRowIgnored | flow_stats.py:23-26 | whatever the row after the heading holds, the script sees the same data |
| Columns.Field | flow_stats.py:29-32 | `row[i]` exists exactly when `i` is within the row |
| Columns.Int | flow_stats.py:33 | `int` of a cell succeeds exactly on a digit string |
| Columns.IntOfDecimal | flow_stats.py:33 | a number written by `str` reads back unchanged |
| Columns.ReadRowsCharacterized | flow_stats.py:28-33 | reading succeeds exactly when every row reads, giving one value per row in order; otherwise the first failing row's error |
| Tally.Add | flow_stats.py:36 | `d[k] += w` raises `k` by `w`, leaves every other key's value alone, appends `k` to the end of the key order if it is new and leaves the key order unchanged otherwise, and keeps the key order duplicate-free |
| Tally.TotalsCharacterized | flow_stats.py:36-40 | after the updates, the keys are exactly those that occurred, each once, and each value is the total weight added for that key |
| Tally.TotalsSum | flow_stats.py:36-40 | the values add up to the total weight added |
| Tally.TotalsKeyOrder | flow_stats.py:36-40 | the key order is the order of first arrival: of two keys, the earlier one occurs among the updates before the later one first does |
| Tally.SizeIsKeyCount | flow_stats.py:44 | `len(d)` is the number of keys in the insertion order |
| Tally.KeyCount | flow_stats.py:44 | `len(d)` is the number of distinct keys among the updates |
| Tally.Heaviest | flow_stats.py:58 | no keys, no answer; otherwise the answer is one of the keys |
| Tally.HeaviestIsFirstMax | flow_stats.py:58 | the answer has the largest value, and every earlier key has a strictly smaller one, so a tie goes to the key inserted first |
| Tally.HeaviestArrivesFirst | flow_stats.py:58 | after the updates, `max` answers a key with the largest value, and any other key with that value first arrived after it |
| Tally.ArgMax | flow_stats.py:58 | the scan over the keys returns the key Heaviest describes |
| FlowStats.ReadPacket | flow_stats.py:29-33 | a row reads exactly when the four positions exist and its last cell is a number; the flow is the ordered 4-tuple and the size is that number |
| FlowStats.TablesStep | flow_stats.py:35-40 | one row adds 1 to its source, 1 to its destination and its size to its 4-tuple |
| FlowStats.CountFlows | flow_stats.py:28-40 | the three dictionaries are the folds over the rows read, or the first row's exception |
| FlowStats.FlowStats | flow_stats.py:13-59 | the script yields the report of the rows, or the exception that stops it |
| FlowStats.TransfersWeight | flow_stats.py:33-40 | the bytes added to the 4-tuples total the sizes of all packets |
| FlowStats.AddressCounts | flow_stats.py:36-51 | each address counter's values add up to the number of packets, and its printed length is the number of distinct addresses |
| FlowStats.TransferTotals | flow_stats.py:40-59 | each 4-tuple's value is the size of its packets; the values total all the bytes; the reported 4-tuple carries the most bytes, and any other 4-tuple with as many bytes first appeared in a later packet |
| FlowStats.HeaviestPair | flow_stats.py:58-59 | with at least one packet, `max` answers a 4-tuple with the most bytes, and any other 4-tuple with as many bytes first appeared in a later packet |
| FlowStats.ReportCharacterized | flow_stats.py:16-59 | a report comes from the packets of the data rows, with the dictionaries described above; the reported 4-tuple is `max` over the byte map in insertion order, carries the most bytes, and any other 4-tuple with as many bytes first appeared in a later packet |
| FlowStats.SingleDataRowIsEmpty | flow_stats.py:26-58 | a file whose only data row is the skipped one ends with `max` of an empty dictionary raising |
| PairStats.ReadPair | assignment1/pair_stats.py:25-28 | a row reads exactly when the four positions exist, as the ordered 4-tuple |
| PairStats.PairSetAppend | assignment1/pair_stats.py:29 | `add` puts the tuple in the set, and a tuple already present changes nothing |
| PairStats.UniquePairs | assignment1/pair_stats.py:13-29 | the set is exactly the tuples of the rows read, or the exception that stops the script |
| PairStats.PairCountBound | assignment1/pair_stats.py:32 | the number of distinct tuples is at most the number of rows read |
| PairStats.OrderIndependent | assignment1/pair_stats.py:24-29 | rows in any order give the same set |
| PairStats.SameAsTransferKeys | assignment1/pair_stats.py:29 | the distinct tuples are exactly the keys of the byte map the flow statistics build from the same rows |
| DataStats.ReadSize | data_stats.py:21 | a row reads exactly when the position exists and holds a number |
| DataStats.Minimum | data_stats.py:27 | `min` is a member that no member is below |
| DataStats.Maximum | data_stats.py:28 | `max` is a member that no member is above |
| DataStats.DataStats | data_stats.py:13-28 | the sizes are those of the data rows in order; the total is their sum and the count their number; minimum and maximum as above; no rows raises |
| DataStats.AverageBounds | data_stats.py:27-29 | the count times the minimum is at most the total, which is at most the count times the maximum, so the average lies between the extremes |
| DataStats.SizeColumnOfSniffer | data_stats.py:15 | in the fast sniffer's heading row, "Packet Size" is found in column 5 |
| DataStats.SniffedSizes | data_stats.py:13-24 | reading back the fast sniffer's file yields every saved packet's size except the first packet's |
| Routing.LinkTo | assignment3/Q3/network.py:20-21 | `dest in topology[node]` holds exactly when a link to it exists, and then yields that link's cost |
| Routing.LinkAt | assignment3/Q3/network.py:21 | in a duplicate-free link list, the lookup of a link's neighbour yields that link's cost |
| Routing.InitialShape | assignment3/Q3/network.py:13-25 | the initial tables have an entry for every node and destination, with cost 0 to itself |
| Routing.InitialHops | assignment3/Q3/network.py:17-23 | initially every destination other than the node itself has a next hop exactly when its cost is finite, and that hop is a neighbour |
| Routing.InitialLinkBound | assignment3/Q3/network.py:20-21 | initially no entry for a neighbour costs more than the link to it |
| Routing.InitialEntryWalk | assignment3/Q3/network.py:18-23 | a finite initial entry is the cost of a walk of zero or one link |
| Routing.InitialRealized | assignment3/Q3/network.py:13-25 | every finite initial cost is the cost of a walk |
| Routing.SettledIsShortest | assignment3/Q3/network.py:47-66 | tables where no link offers a cheaper way, and whose finite costs are walks, hold the cost of a cheapest walk everywhere, and `math.inf` exactly where no walk exists |
| Routing.ImprovedShrinks | assignment3/Q3/network.py:47-61 | an iteration that only lowers costs and changes something lowers the measure (`math.inf` count, then finite sum), so the loop ends |
| Network.InitializeDistanceTables | assignment3/Q3/network.py:13-25 | the nested loops build the initial tables |
| Network.InitializeRow | assignment3/Q3/network.py:16-24 | the inner loop gives cost 0 through itself to the node, the link through the neighbour to a neighbour, and `math.inf` with no hop to any other node |
| Network.Pick | assignment3/Q3/network.py:53-60 | the entry stays, or becomes a strictly cheaper one with a next hop |
| Network.PickLastImprover | assignment3/Q3/network.py:52-60 | the entry changes exactly when some neighbour beats the old cost, and then it is the last such neighbour's candidate |
| Network.PickStep | assignment3/Q3/network.py:56-60 | one more neighbour overwrites the entry exactly when its candidate beats the old cost |
| Network.MixRowStep | assignment3/Q3/network.py:54-60 | one more destination takes the neighbour's candidate exactly when it beats the old cost |
| Network.RelaxVia | assignment3/Q3/network.py:54-60 | the destination loop for one neighbour leaves the row after that neighbour, and `updated` says whether the copy differs from the old tables |
| Network.RelaxEntry | assignment3/Q3/network.py:56-60 | the loop body reads the old tables, writes the candidate into the copy when it is smaller, and keeps `updated` in step |
| Network.Relax | assignment3/Q3/network.py:50-61 | an iteration yields the next tables, and `updated` holds exactly when they differ from the old ones |
| Network.DistanceVectorRouting | assignment3/Q3/network.py:37-66 | the loop ends at tables one more iteration leaves unchanged, which hold the cost of a cheapest walk for every node and destination and `math.inf` where none exists |
| Network.RoundEntryHop | assignment3/Q3/network.py:56-59 | an iteration keeps each next hop a neighbour, present exactly for finite costs |
| Network.RoundEntryWalk | assignment3/Q3/network.py:56-59 | a finite cost an iteration writes is the cost of a walk |
| Network.JoinVia | assignment3/Q3/network.py:57 | a finite candidate is the cost of the walk to the neighbour joined to the neighbour's walk |
| Network.NetRoundImproves | assignment3/Q3/network.py:51-61 | an iteration keeps the shape and never raises a cost |
| Network.NetRoundSelfZero | assignment3/Q3/network.py:56-58 | an iteration keeps each node's zero-cost entry for itself |
| Network.NetRoundHops | assignment3/Q3/network.py:52-61 | an iteration keeps every next hop a neighbour |
| Network.NetRoundLinkBound | assignment3/Q3/network.py:52-61 | an iteration keeps each entry for a neighbour within the link cost |
| Network.NetRoundRealized | assignment3/Q3/network.py:52-61 | an iteration keeps every finite cost the cost of a walk |
| Network.FixedEntry | assignment3/Q3/network.py:56-58 | an entry no neighbour beats is within the link cost plus the neighbour's cost |
| Network.FixedPointSettled | assignment3/Q3/network.py:47-66 | at the fixed point no link offers a cheaper way to any destination |
| Network.FixedLink | assignment3/Q3/network.py:56-60 | at the fixed point each entry is within every link cost plus that neighbour's cost |
| ObjectNet.RunMin | assignment3/Q3/object_net.py:70-77 | the neighbour loop keeps the entry, or yields a strictly cheaper one with a next hop |
| ObjectNet.RunMinLowest | assignment3/Q3/object_net.py:71-77 | the result costs no more than any neighbour's offer |
| ObjectNet.RunMinFirst | assignment3/Q3/object_net.py:71-77 | a changed entry is an offer that every earlier offer exceeds, so the first cheapest neighbour wins |
| ObjectNet.RunMinChanged | assignment3/Q3/object_net.py:71-77 | the entry changes exactly when some offer beats its cost |
| ObjectNet.SimRoundAt | assignment3/Q3/object_net.py:66-78 | in an iteration the node's own entry stays, and every other entry is the running minimum over the neighbours' snapshot costs |
| ObjectNet.SimRoundShaped | assignment3/Q3/object_net.py:64-78 | an iteration keeps an entry for every node and destination |
| ObjectNet.SimRoundImproves | assignment3/Q3/object_net.py:66-78 | an iteration never raises a cost |
| ObjectNet.SimRoundSelfZero | assignment3/Q3/object_net.py:67-69 | the entry for the node's own name is never rewritten, so it keeps cost 0 |
| ObjectNet.StepEntryHop | assignment3/Q3/object_net.py:70-78 | a changed entry's next hop is the neighbour whose offer won |
| ObjectNet.SimRoundHops | assignment3/Q3/object_net.py:66-78 | an iteration keeps every next hop a neighbour, present exactly for finite costs |
| ObjectNet.StepEntryWalk | assignment3/Q3/object_net.py:71-77 | a changed entry costs a walk: the link to the winner followed by the winner's walk |
| ObjectNet.SimRoundRealized | assignment3/Q3/object_net.py:66-78 | an iteration keeps every finite cost the cost of a walk |
| ObjectNet.FixedUnbeaten | assignment3/Q3/object_net.py:59-83 | when an iteration changes nothing, no offer beats any entry |
| ObjectNet.FixedPointSettled | assignment3/Q3/object_net.py:59-83 | when an iteration changes nothing, no link offers a cheaper way to any destination |
| ObjectNet.FixedEntry | assignment3/Q3/object_net.py:70-77 | an unbeaten entry is within every link cost plus that neighbour's cost |
| ObjectNet.FixedLink | assignment3/Q3/object_net.py:70-77 | an entry the neighbour loop leaves alone costs no more than any offer |
| ObjectNet.Node.constructor | assignment3/Q3/object_net.py:7-9 | a new node has its name and an empty table |
| ObjectNet.Node.InitializeTable | assignment3/Q3/object_net.py:11-18 | the table gains cost 0 to itself, the link cost to each neighbour, and `math.inf` with no hop to every other node; entries for other names stay |
| ObjectNet.Node.BestRoute | assignment3/Q3/object_net.py:25-32 | the neighbour loop over the live neighbour tables yields the running minimum, and reports whether it differs from the current entry |
| ObjectNet.Node.UpdateTable | assignment3/Q3/object_net.py:20-34 | every entry but the node's own becomes the running minimum over the tables as they were at the call, in whatever order the destinations come; the result is True exactly when the table changed |
| ObjectNet.CreateNodes | assignment3/Q3/object_net.py:48 | one fresh node per topology node, stored under its own name, each with an empty table |
| ObjectNet.InitializeNodes | assignment3/Q3/object_net.py:51-52 | after the loop the nodes hold the initial tables |
| ObjectNet.InitializeNode | assignment3/Q3/object_net.py:52 | one more node initialises its own table and no other |
| ObjectNet.BestOffer | assignment3/Q3/object_net.py:70-77 | the neighbour loop over the snapshot yields the running minimum, and reports whether it differs from the snapshot entry |
| ObjectNet.SimulateNode | assignment3/Q3/object_net.py:67-78 | one node's part of an iteration makes its table the step on its snapshot row, and the flag records whether it changed |
| ObjectNet.SimulateNext | assignment3/Q3/object_net.py:66-79 | the node-loop body changes only that node's table |
| ObjectNet.SimulateRound | assignment3/Q3/object_net.py:62-79 | an iteration replaces the tables by one step on their snapshot, and `any_update` holds exactly when some table changed |
| ObjectNet.DistanceVectorSimulation | assignment3/Q3/object_net.py:46-87 | the loop ends at tables an iteration leaves unchanged, which hold the cost of a cheapest walk for every node and destination and `math.inf` where none exists |

## Left out

- Raw sockets, `recvfrom`, `sniffer.close`, opening files, and every `print` are left out. So are the banner lines and the "my ip address =" report of `adv_data_sniff.py`, which has no effect on any counter. The frames are a finite sequence given as input.
- Capture ends with `KeyboardInterrupt` in the source. Here the capture ends when the frame sequence ends, and the final report is the returned counters.
- Each capture loop has a 65535-byte receive buffer. It is not modelled; each frame is taken as delivered.
- `csv.writer` and `csv.reader` tokenisation is left out. The full sniffer's rows are kept as records rather than rendered cells. The statistics scripts take rows already split into cells.
- Columns.Int: this accepts only non-empty strings of ASCII digits. Python's `int` also accepts surrounding whitespace, a sign and digit-group underscores. None of these occur in a cell the sniffer writes.
- AdvSniffer.Dissect: the TCP payload is lowercased and searched as bytes. `payload.decode(errors="ignore")` is left out: it drops invalid UTF-8 sequences and lowercases non-ASCII letters, so a marker split by an invalid byte is not modelled. The laptop name is therefore the lowercased payload bytes rather than the decoded text.
- The average `total_data / total_packets` is a float and is not modelled; DataStats.AverageBounds states its bounds. The matplotlib histogram is also left out.
- `print_table` in both routing scripts is left out, together with the per-iteration printouts. The routing methods return the final tables instead of printing them.
- Link costs are natural numbers. Negative or fractional costs, which the source would accept, are not modelled.
- Network.DistanceVectorRouting: this requires every neighbour to be a node of the topology. A neighbour that is not a node makes the source raise `KeyError`, and that error path is not modelled. The same holds for ObjectNet.DistanceVectorSimulation. It also holds for the requires of ObjectNet.Node.UpdateTable that neighbours have tables.
- The `neighbor_cost` lookup at `assignment3/Q3/object_net.py:27` is left out: its value is never used.
- `update_table` is never called by the simulation in the source; ObjectNet.Node.UpdateTable models it on its own.
- `parse_icmp_header` is never called by the full sniffer's loop; FullSniffer.ParseIcmp models it on its own.
- The EtherType test is modelled exactly as written, with the host byte order as a parameter. No corrected dispatch is given.
