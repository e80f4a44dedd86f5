/**
 * Text rendering used by the sniffers (`str`, `"{:02x}".format`,
 * `":".join`), the inverse parsing used by the statistics scripts (`int`,
 * `str.split`), and byte-level lowercasing and substring search.
 */
module Text {
  import opened Wire
  import opened Results

  const DecimalDigits := "0123456789"
  const HexDigits := "0123456789abcdef"

  predicate IsDecimal(s: string)
  {
    forall i :: 0 <= i < |s| ==> '0' <= s[i] <= '9'
  }

  predicate IsLowerHex(s: string)
  {
    forall i :: 0 <= i < |s| ==> s[i] in HexDigits
  }

  /** `str(n)` for a natural number: its decimal digits, most significant first. */
  function Decimal(n: nat): (r: string)
    ensures 1 <= |r| && IsDecimal(r)
    ensures n < 10 <==> |r| == 1
    ensures n < 1000 ==> |r| <= 3
    decreases n
  {
    if n < 10 then [DecimalDigits[n]] else Decimal(n / 10) + [DecimalDigits[n % 10]]
  }

  function DigitValue(c: char): nat
    requires '0' <= c <= '9'
  {
    c as int - '0' as int
  }

  /** The number that a string of decimal digits denotes. */
  function DigitsValue(s: string): nat
    requires IsDecimal(s)
  {
    if s == [] then 0 else DigitsValue(s[..|s| - 1]) * 10 + DigitValue(s[|s| - 1])
  }

  /**
   * `int(s)` on a CSV cell: a non-empty string of decimal digits denotes a
   * number (leading zeros allowed); anything else raises ValueError, which
   * is None here.
   */
  function ParseDecimal(s: string): (r: Option<nat>)
    ensures r.Some? <==> |s| > 0 && IsDecimal(s)
  {
    if |s| > 0 && IsDecimal(s) then Some(DigitsValue(s)) else None
  }

  /** `int(str(n)) == n`: what a sniffer writes, a statistics script reads back. */
  lemma {:induction false} DecimalRoundTrip(n: nat)
    ensures ParseDecimal(Decimal(n)) == Some(n)
    decreases n
  {
    if n >= 10 {
      DecimalRoundTrip(n / 10);
      var r := Decimal(n);
      assert r[..|r| - 1] == Decimal(n / 10);
      assert DigitValue(r[|r| - 1]) == n % 10;
      assert DigitsValue(r) == DigitsValue(Decimal(n / 10)) * 10 + n % 10;
    }
  }

  /** `"{:02x}".format(b)`: two lowercase hexadecimal digits. */
  function Hex2(b: byte): (r: string)
    ensures |r| == 2 && IsLowerHex(r)
  {
    [HexDigits[b / 16], HexDigits[b % 16]]
  }

  function HexValue(c: char): nat
  {
    if '0' <= c <= '9' then c as int - '0' as int
    else if 'a' <= c <= 'f' then c as int - 'a' as int + 10
    else 0
  }

  /** Reading the two digits back gives the byte: Hex2 loses nothing. */
  lemma Hex2RoundTrip(b: byte)
    ensures HexValue(Hex2(b)[0]) * 16 + HexValue(Hex2(b)[1]) == b
  {
    var hi, lo := b / 16, b % 16;
    assert HexValue(HexDigits[hi]) == hi && HexValue(HexDigits[lo]) == lo;
  }

  lemma Hex2Injective(a: byte, b: byte)
    requires Hex2(a) == Hex2(b)
    ensures a == b
  {
    Hex2RoundTrip(a);
    Hex2RoundTrip(b);
  }

  /** `sep.join(parts)` for a one-character separator. */
  function Join(sep: char, parts: seq<string>): string
  {
    if |parts| == 0 then ""
    else if |parts| == 1 then parts[0]
    else parts[0] + [sep] + Join(sep, parts[1..])
  }

  /** `s.split(sep)` for a one-character separator: the pieces between separators. */
  function Split(s: string, sep: char): (r: seq<string>)
    ensures |r| >= 1
    decreases |s|
  {
    if sep !in s then [s]
    else
      var i := FirstIndex(s, sep);
      [s[..i]] + Split(s[i + 1..], sep)
  }

  function FirstIndex(s: string, c: char): (i: nat)
    requires c in s
    ensures i < |s| && s[i] == c && c !in s[..i]
  {
    if s[0] == c then 0 else
      assert c in s[1..] by { var k :| 0 <= k < |s| && s[k] == c; assert s[1..][k - 1] == c; }
      1 + FirstIndex(s[1..], c)
  }

  function TotalLength(parts: seq<string>): nat
  {
    if parts == [] then 0 else |parts[0]| + TotalLength(parts[1..])
  }

  /** A joined string is as long as its pieces plus one separator between each two. */
  lemma {:induction false} JoinLength(sep: char, parts: seq<string>)
    requires |parts| >= 1
    ensures |Join(sep, parts)| == TotalLength(parts) + |parts| - 1
    decreases |parts|
  {
    if |parts| > 1 {
      JoinLength(sep, parts[1..]);
    }
  }

  lemma {:induction false} TotalLengthBounds(parts: seq<string>, lo: nat, hi: nat)
    requires forall i :: 0 <= i < |parts| ==> lo <= |parts[i]| <= hi
    ensures |parts| * lo <= TotalLength(parts) <= |parts| * hi
    decreases |parts|
  {
    if parts != [] {
      TotalLengthBounds(parts[1..], lo, hi);
    }
  }

  lemma {:induction false} TotalLengthUniform(parts: seq<string>, width: nat)
    requires forall i :: 0 <= i < |parts| ==> |parts[i]| == width
    ensures TotalLength(parts) == |parts| * width
    decreases |parts|
  {
    if parts != [] {
      TotalLengthUniform(parts[1..], width);
    }
  }

  /** Splitting a joined string at its separator gives the pieces back, when no piece contains the separator. */
  lemma {:induction false} SplitJoin(sep: char, parts: seq<string>)
    requires |parts| >= 1
    requires forall i :: 0 <= i < |parts| ==> sep !in parts[i]
    ensures Split(Join(sep, parts), sep) == parts
    decreases |parts|
  {
    if |parts| > 1 {
      var s := Join(sep, parts);
      var rest := Join(sep, parts[1..]);
      assert s == parts[0] + [sep] + rest;
      assert s[|parts[0]|] == sep;
      assert sep in s;
      var i := FirstIndex(s, sep);
      assert s[..|parts[0]|] == parts[0];
      assert i == |parts[0]|;
      assert s[i + 1..] == rest;
      SplitJoin(sep, parts[1..]);
    }
  }

  /** `mac_format`: the bytes of a MAC address as colon-separated two-digit hex groups. */
  function MacFormat(mac: seq<byte>): string
  {
    Join(':', MacGroups(mac))
  }

  function MacGroups(mac: seq<byte>): (r: seq<string>)
    ensures |r| == |mac|
    ensures forall i :: 0 <= i < |mac| ==> r[i] == Hex2(mac[i])
  {
    seq(|mac|, i requires 0 <= i < |mac| => Hex2(mac[i]))
  }

  /** `ip_format`: the bytes of an IPv4 address as dot-separated decimals. */
  function IpFormat(addr: seq<byte>): string
  {
    Join('.', IpFields(addr))
  }

  function IpFields(addr: seq<byte>): (r: seq<string>)
    ensures |r| == |addr|
    ensures forall i :: 0 <= i < |addr| ==> r[i] == Decimal(addr[i])
  {
    seq(|addr|, i requires 0 <= i < |addr| => Decimal(addr[i]))
  }

  /** `ipv6_format`: sixteen bytes as eight colon-separated four-digit hex groups (no zero compression). */
  function Ipv6Format(addr: seq<byte>): string
    requires |addr| == 16
  {
    Join(':', Ipv6Groups(addr))
  }

  function Ipv6Groups(addr: seq<byte>): (r: seq<string>)
    requires |addr| == 16
    ensures |r| == 8
    ensures forall i :: 0 <= i < 8 ==> r[i] == Hex2(addr[2 * i]) + Hex2(addr[2 * i + 1])
  {
    seq(8, i requires 0 <= i < 8 => Hex2(addr[2 * i]) + Hex2(addr[2 * i + 1]))
  }

  /** A six-byte MAC renders as 17 characters: six lowercase hex pairs split by five colons, in byte order. */
  lemma MacFormatShape(mac: seq<byte>)
    requires |mac| == 6
    ensures |MacFormat(mac)| == 17
    ensures Split(MacFormat(mac), ':') == MacGroups(mac)
    ensures forall i :: 0 <= i < 6 ==> |MacGroups(mac)[i]| == 2 && IsLowerHex(MacGroups(mac)[i])
  {
    var parts := MacGroups(mac);
    TotalLengthUniform(parts, 2);
    JoinLength(':', parts);
    forall i | 0 <= i < |parts| ensures ':' !in parts[i] {
      assert IsLowerHex(parts[i]);
    }
    SplitJoin(':', parts);
  }

  /** A four-byte address renders as four decimal fields separated by three dots, 7 to 15 characters long. */
  lemma IpFormatShape(addr: seq<byte>)
    requires |addr| == 4
    ensures Split(IpFormat(addr), '.') == IpFields(addr)
    ensures forall i :: 0 <= i < 4 ==> ParseDecimal(IpFields(addr)[i]) == Some(addr[i])
    ensures 7 <= |IpFormat(addr)| <= 15
  {
    var parts := IpFields(addr);
    forall i | 0 <= i < |parts| ensures '.' !in parts[i] && ParseDecimal(parts[i]) == Some(addr[i]) {
      assert IsDecimal(parts[i]);
      DecimalRoundTrip(addr[i]);
    }
    SplitJoin('.', parts);
    JoinLength('.', parts);
    TotalLengthBounds(parts, 1, 3);
  }

  /** Sixteen bytes render as 39 characters: eight groups of four lowercase hex digits split by seven colons. */
  lemma Ipv6FormatShape(addr: seq<byte>)
    requires |addr| == 16
    ensures |Ipv6Format(addr)| == 39
    ensures Split(Ipv6Format(addr), ':') == Ipv6Groups(addr)
    ensures forall i :: 0 <= i < 8 ==> |Ipv6Groups(addr)[i]| == 4 && IsLowerHex(Ipv6Groups(addr)[i])
  {
    var parts := Ipv6Groups(addr);
    forall i | 0 <= i < 8 ensures |parts[i]| == 4 && IsLowerHex(parts[i]) && ':' !in parts[i] {
      var a, b := Hex2(addr[2 * i]), Hex2(addr[2 * i + 1]);
      assert parts[i] == a + b;
      assert forall k :: 0 <= k < 4 ==> parts[i][k] == (if k < 2 then a[k] else b[k - 2]);
    }
    TotalLengthUniform(parts, 4);
    JoinLength(':', parts);
    SplitJoin(':', parts);
  }

  /** The bytes of an ASCII string literal, as Python's `b'...'`. */
  function Ascii(s: string): (r: seq<byte>)
    requires forall i :: 0 <= i < |s| ==> s[i] as int < 0x100
    ensures |r| == |s|
  {
    seq(|s|, i requires 0 <= i < |s| => s[i] as int)
  }

  /** ASCII lowercasing of one byte, as `str.lower` does for 'A'..'Z'. */
  function LowerByte(b: byte): byte
  {
    if 'A' as int <= b <= 'Z' as int then b + 32 else b
  }

  /**
   * `text.lower()` over bytes: no upper-case letter is left, each capital
   * becomes its lower-case letter, and every other byte is kept.
   */
  function Lower(s: seq<byte>): (r: seq<byte>)
    ensures |r| == |s|
    ensures forall i :: 0 <= i < |r| ==> !('A' as int <= r[i] <= 'Z' as int)
    ensures forall i :: 0 <= i < |s| ==> if 'A' as int <= s[i] <= 'Z' as int then r[i] == s[i] + 32 else r[i] == s[i]
  {
    seq(|s|, i requires 0 <= i < |s| => LowerByte(s[i]))
  }

  /** Lowering twice is lowering once. */
  lemma LowerIdempotent(s: seq<byte>)
    ensures Lower(Lower(s)) == Lower(s)
  {
  }

  /** Python's `needle in hay` on byte strings: needle occurs somewhere as a contiguous run. */
  predicate Contains(hay: seq<byte>, needle: seq<byte>)
  {
    exists i :: 0 <= i <= |hay| - |needle| && OccursAt(hay, needle, i)
  }

  predicate OccursAt(hay: seq<byte>, needle: seq<byte>, i: nat)
  {
    i + |needle| <= |hay| && hay[i..i + |needle|] == needle
  }
}
