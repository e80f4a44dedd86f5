/**
 * Octets, big-endian ("network order") fields and the byte-order conversion
 * that `struct.unpack("!...")` and `socket.htons` perform.
 */
module Wire {
  import opened Results

  type byte = b: int | 0 <= b < 0x100
  type u16 = v: int | 0 <= v < 0x1_0000
  type u32 = v: int | 0 <= v < 0x1_0000_0000

  /** The big-endian 16-bit value stored at s[i], s[i+1] (struct format `H` after `!`). */
  function Be16(s: seq<byte>, i: nat): u16
    requires i + 2 <= |s|
  {
    (s[i] as int) * 0x100 + s[i + 1]
  }

  /** The big-endian 32-bit value stored at s[i..i+4] (struct format `I` / `L` after `!`). */
  function Be32(s: seq<byte>, i: nat): u32
    requires i + 4 <= |s|
  {
    Be16(s, i) * 0x1_0000 + Be16(s, i + 2)
  }

  /** Network-order encoding of a 16-bit value; the inverse of Be16. */
  function Bytes16(v: u16): (r: seq<byte>)
    ensures |r| == 2 && Be16(r, 0) == v
  {
    [v / 0x100, v % 0x100]
  }

  /** Network-order encoding of a 32-bit value; the inverse of Be32. */
  function Bytes32(v: u32): (r: seq<byte>)
    ensures |r| == 4 && Be32(r, 0) == v
  {
    var hi, lo := Bytes16(v / 0x1_0000), Bytes16(v % 0x1_0000);
    assert (hi + lo)[0..2] == hi && (hi + lo)[2..4] == lo;
    hi + lo
  }

  lemma Be16Injective(s: seq<byte>, i: nat, t: seq<byte>, j: nat)
    requires i + 2 <= |s| && j + 2 <= |t|
    requires Be16(s, i) == Be16(t, j)
    ensures s[i] == t[j] && s[i + 1] == t[j + 1]
  {
  }

  /** A byte built from two nibbles gives them back under `>> 4` and `& 15`. */
  lemma NibblesOfByte(hi: nat, lo: nat)
    requires hi < 16 && lo < 16
    ensures (hi * 16 + lo) / 16 == hi && (hi * 16 + lo) % 16 == lo
  {
  }

  /** Byte order of the machine running the sniffer. */
  datatype Endian = LittleEndian | BigEndian

  /** Exchange the two octets of a 16-bit value. */
  function Swap16(v: u16): u16
  {
    (v % 0x100) * 0x100 + v / 0x100
  }

  /**
   * `socket.htons`: host to network order. On a little-endian host this
   * swaps the octets; on a big-endian host it is the identity.
   */
  function Htons(host: Endian, v: u16): u16
  {
    match host
    case LittleEndian => Swap16(v)
    case BigEndian => v
  }

  /** Swapping twice gives the value back, so htons is its own inverse on every host. */
  lemma HtonsInvolutive(host: Endian, v: u16)
    ensures Htons(host, Htons(host, v)) == v
  {
    if host == LittleEndian {
      var hi, lo := v / 0x100, v % 0x100;
      assert Swap16(v) == lo * 0x100 + hi;
      assert Swap16(v) / 0x100 == lo && Swap16(v) % 0x100 == hi;
    }
  }

  /**
   * Applying htons to a field read in network order yields, on a
   * little-endian host, the same two bytes read in the opposite order.
   */
  lemma HtonsOfWireField(host: Endian, s: seq<byte>, i: nat)
    requires i + 2 <= |s|
    ensures Htons(host, Be16(s, i)) == match host
      case LittleEndian => (s[i + 1] as int) * 0x100 + s[i]
      case BigEndian => (s[i] as int) * 0x100 + s[i + 1]
  {
    if host == LittleEndian {
      assert Be16(s, i) / 0x100 == s[i] && Be16(s, i) % 0x100 == s[i + 1];
    }
  }

  /**
   * `struct.error`: the unpack format needs `needed` bytes but the slice
   * handed to it holds only `got`.
   */
  datatype StructError = StructError(needed: nat, got: nat)

  /** `struct.unpack(fmt, raw[:size])` succeeds only when the slice holds exactly `size` bytes. */
  function Unpackable(raw: seq<byte>, size: nat): (r: Result<(), StructError>)
    ensures r.Success? <==> size <= |raw|
    ensures r.Failure? ==> r.error == StructError(size, |raw|)
  {
    if |raw| < size then Failure(StructError(size, |raw|)) else Success(())
  }

  /** Python's `s[:n]`: the first n elements, or all of s when it is shorter. */
  function Head<T>(s: seq<T>, n: nat): (r: seq<T>)
    ensures |r| == if n <= |s| then n else |s|
    ensures r == s[..|r|]
  {
    if n <= |s| then s[..n] else s
  }

  /**
   * Python's `s[n:]`: everything after the first n elements, and the empty
   * sequence when n is past the end. It is always a suffix of s, so a
   * length field that overstates the buffer never leads past its end.
   */
  function Tail<T>(s: seq<T>, n: nat): (r: seq<T>)
    ensures |r| == if n <= |s| then |s| - n else 0
    ensures r == s[|s| - |r|..]
  {
    if n <= |s| then s[n..] else []
  }
}
