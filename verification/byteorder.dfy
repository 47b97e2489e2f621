/** Byte order of the buffer and of the host, the two byte-swap routines, and the
    memory images of 16- and 32-bit values (bytearray.c:62-94). */
module ByteOrder {

  type byte = bv8

  /** The byte order of a buffer or of the host. The code names the two values
      BYTEARRAY_MSB (Big) and BYTEARRAY_LSB (Little). */
  datatype Endian = Little | Big

  /** The host's byte order, fixed when the library is built. It is LSB on a
      little-endian host and when the compiler does not say; the model fixes the
      common little-endian build. Every layout property is proved for both host
      orders, through the `host` parameter of the functions that use it. */
  const NativeOrder: Endian := Little

  /** The high and low byte of a halfword, and the halfword they make. */
  function Hi(x: bv16): byte { (x >> 8) as byte }
  function Lo(x: bv16): byte { (x & 0xFF) as byte }
  function Half(hi: byte, lo: byte): bv16 { ((hi as bv16) << 8) | (lo as bv16) }

  /** The four bytes of a word, most significant first, and the word they make. */
  function Byte3(x: bv32): byte { (x >> 24) as byte }
  function Byte2(x: bv32): byte { ((x >> 16) & 0xFF) as byte }
  function Byte1(x: bv32): byte { ((x >> 8) & 0xFF) as byte }
  function Byte0(x: bv32): byte { (x & 0xFF) as byte }
  function Word(b3: byte, b2: byte, b1: byte, b0: byte): bv32 {
    ((b3 as bv32) << 24) | ((b2 as bv32) << 16) | ((b1 as bv32) << 8) | (b0 as bv32)
  }

  /** A halfword is the join of its two bytes. */
  lemma JoinSplitHalf(x: bv16)
    ensures Half(Hi(x), Lo(x)) == x
  {
  }

  /** The bytes of a joined halfword are the bytes joined. */
  lemma SplitJoinHalf(hi: byte, lo: byte)
    ensures Hi(Half(hi, lo)) == hi && Lo(Half(hi, lo)) == lo
  {
  }

  /** A word is the join of its four bytes. */
  lemma JoinSplitWord(x: bv32)
    ensures Word(Byte3(x), Byte2(x), Byte1(x), Byte0(x)) == x
  {
  }

  /** The bytes of a joined word are the bytes joined. */
  lemma SplitJoinWord(b3: byte, b2: byte, b1: byte, b0: byte)
    ensures var w := Word(b3, b2, b1, b0);
      Byte3(w) == b3 && Byte2(w) == b2 && Byte1(w) == b1 && Byte0(w) == b0
  {
  }

  /** byteSeqSwap16: exchanges the two bytes of a halfword. */
  function Swap16(x: bv16): (r: bv16)
    ensures Hi(r) == Lo(x) && Lo(r) == Hi(x)
  {
    ((x & 0x00FF) << 8) | ((x & 0xFF00) >> 8)
  }

  /** byteSeqSwap32: reverses the four bytes of a word. */
  function Swap32(x: bv32): (r: bv32)
    ensures Byte3(r) == Byte0(x) && Byte2(r) == Byte1(x) && Byte1(r) == Byte2(x) && Byte0(r) == Byte3(x)
  {
    ((x & 0xFF000000) >> 24) | ((x & 0xFF0000) >> 8) | ((x & 0xFF00) << 8) | ((x & 0xFF) << 24)
  }

  /** Swapping twice gives the value back; the example values of the two
      routines. */
  lemma SwapInvolution(h: bv16, w: bv32)
    ensures Swap16(Swap16(h)) == h
    ensures Swap32(Swap32(w)) == w
    ensures Swap16(0x1112) == 0x1211
    ensures Swap32(0x12345678) == 0x78563412
  {
    JoinSplitHalf(h);
    JoinSplitHalf(Swap16(Swap16(h)));
    JoinSplitWord(w);
    JoinSplitWord(Swap32(Swap32(w)));
  }

  /** The two bytes of `x` as they lie in memory, lowest address first, when `x`
      is stored in `order`. This is both what a 16-bit store writes on a host of
      that order and the layout a buffer of that order promises: Big puts the
      most significant byte at the lowest address, Little the least. */
  function Bytes16(order: Endian, x: bv16): (s: seq<byte>)
    ensures |s| == 2
  {
    if order == Big then [Hi(x), Lo(x)] else [Lo(x), Hi(x)]
  }

  /** The four bytes of `x`, lowest address first, when stored in `order`. */
  function Bytes32(order: Endian, x: bv32): (s: seq<byte>)
    ensures |s| == 4
  {
    if order == Big then [Byte3(x), Byte2(x), Byte1(x), Byte0(x)]
    else [Byte0(x), Byte1(x), Byte2(x), Byte3(x)]
  }

  /** The 16-bit value that two bytes of memory hold when read in `order`. */
  function Value16(order: Endian, s: seq<byte>): (x: bv16)
    requires |s| == 2
    ensures Bytes16(order, x) == s
  {
    var x := if order == Big then Half(s[0], s[1]) else Half(s[1], s[0]);
    SplitJoinHalf(s[0], s[1]);
    SplitJoinHalf(s[1], s[0]);
    x
  }

  /** The 32-bit value that four bytes of memory hold when read in `order`. */
  function Value32(order: Endian, s: seq<byte>): (x: bv32)
    requires |s| == 4
    ensures Bytes32(order, x) == s
  {
    var x := if order == Big then Word(s[0], s[1], s[2], s[3]) else Word(s[3], s[2], s[1], s[0]);
    SplitJoinWord(s[0], s[1], s[2], s[3]);
    SplitJoinWord(s[3], s[2], s[1], s[0]);
    x
  }

  /** A swapped halfword lies in memory in one order as the original lies in
      the other: swapping reverses the byte order. */
  lemma SwapReversesLayout16(h: bv16)
    ensures Bytes16(Big, Swap16(h)) == Bytes16(Little, h)
    ensures Bytes16(Little, Swap16(h)) == Bytes16(Big, h)
  {
  }

  /** The same for a word. */
  lemma SwapReversesLayout32(w: bv32)
    ensures Bytes32(Big, Swap32(w)) == Bytes32(Little, w)
    ensures Bytes32(Little, Swap32(w)) == Bytes32(Big, w)
  {
  }

  /** The bytes a halfword store leaves in memory: the value, swapped when the
      buffer's order differs from the host's, written through a 16-bit pointer
      in host order (bytearray.c:209-212, 223-226). They are the halfword in the
      buffer's order, whatever the host. */
  function HostStore16(host: Endian, endian: Endian, v: bv16): (s: seq<byte>)
    ensures s == Bytes16(endian, v)
  {
    SwapReversesLayout16(v);
    Bytes16(host, if endian != host then Swap16(v) else v)
  }

  /** The same for a word store (bytearray.c:251-254, 265-268). */
  function HostStore32(host: Endian, endian: Endian, v: bv32): (s: seq<byte>)
    ensures s == Bytes32(endian, v)
  {
    SwapReversesLayout32(v);
    Bytes32(host, if endian != host then Swap32(v) else v)
  }

  /** The value a halfword load returns: two bytes read through a 16-bit
      pointer in host order, swapped when the orders differ
      (bytearray.c:195-199). It is the value the buffer's order lays out as
      those bytes, whatever the host. */
  function HostLoad16(host: Endian, endian: Endian, s: seq<byte>): (x: bv16)
    requires |s| == 2
    ensures Bytes16(endian, x) == s
  {
    var raw := Value16(host, s);
    SwapReversesLayout16(raw);
    if endian != host then Swap16(raw) else raw
  }

  /** The same for a word load (bytearray.c:237-241). */
  function HostLoad32(host: Endian, endian: Endian, s: seq<byte>): (x: bv32)
    requires |s| == 4
    ensures Bytes32(endian, x) == s
  {
    var raw := Value32(host, s);
    SwapReversesLayout32(raw);
    if endian != host then Swap32(raw) else raw
  }

  /** Decoding inverts encoding in both directions, in either order. */
  lemma {:induction false} RoundTrip16(order: Endian, v: bv16, s: seq<byte>)
    requires |s| == 2
    ensures Value16(order, Bytes16(order, v)) == v
    ensures Bytes16(order, Value16(order, s)) == s
  {
    var b := Bytes16(order, v);
    JoinSplitHalf(v);
    if order == Big {
      assert b[0] == Hi(v) && b[1] == Lo(v);
    } else {
      assert b[1] == Hi(v) && b[0] == Lo(v);
    }
  }

  lemma {:induction false} RoundTrip32(order: Endian, v: bv32, s: seq<byte>)
    requires |s| == 4
    ensures Value32(order, Bytes32(order, v)) == v
    ensures Bytes32(order, Value32(order, s)) == s
  {
    var b := Bytes32(order, v);
    JoinSplitWord(v);
    if order == Big {
      assert b[0] == Byte3(v) && b[1] == Byte2(v) && b[2] == Byte1(v) && b[3] == Byte0(v);
    } else {
      assert b[3] == Byte3(v) && b[2] == Byte2(v) && b[1] == Byte1(v) && b[0] == Byte0(v);
    }
  }

  /** The layout of a halfword determines it: two halfwords laid out alike
      are equal. */
  lemma LayoutInjective16(order: Endian, x: bv16, y: bv16)
    ensures Bytes16(order, x) == Bytes16(order, y) ==> x == y
  {
    RoundTrip16(order, x, Bytes16(order, x));
    RoundTrip16(order, y, Bytes16(order, y));
  }

  /** The same for words. */
  lemma LayoutInjective32(order: Endian, v: bv32, w: bv32)
    ensures Bytes32(order, v) == Bytes32(order, w) ==> v == w
  {
    RoundTrip32(order, v, Bytes32(order, v));
    RoundTrip32(order, w, Bytes32(order, w));
  }

  /** The value a load returns depends on the buffer's order only: any two
      hosts agree. */
  lemma HostLoadIndependent(h1: Endian, h2: Endian, endian: Endian, s: seq<byte>)
    ensures |s| == 2 ==> HostLoad16(h1, endian, s) == HostLoad16(h2, endian, s)
    ensures |s| == 4 ==> HostLoad32(h1, endian, s) == HostLoad32(h2, endian, s)
  {
    if |s| == 2 {
      LayoutInjective16(endian, HostLoad16(h1, endian, s), HostLoad16(h2, endian, s));
    }
    if |s| == 4 {
      LayoutInjective32(endian, HostLoad32(h1, endian, s), HostLoad32(h2, endian, s));
    }
  }
}
