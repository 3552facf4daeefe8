/**
 * Shared vocabulary of the model: an Option type, and little-endian reads from a
 * receive buffer.
 *
 * The daemon receives each datagram into a 2048-byte buffer that it zero-fills
 * before `recv`, and it reads header fields straight out of that buffer. A read
 * past the bytes actually received therefore sees 0; `ByteAt` models exactly that.
 * Multi-byte fields are read in host byte order, taken here to be little-endian.
 */
module Wire {

  datatype Option<+T> = None | Some(value: T)

  /** An octet. */
  newtype byte = b: int | 0 <= b < 0x100

  /** Size of the receive buffer used by the daemon. */
  const RECV_BUFSIZE: nat := 2048

  /** Byte `i` of a zero-filled buffer whose first |buf| bytes were received. */
  function ByteAt(buf: seq<byte>, i: int): (b: byte)
    ensures 0 <= i < |buf| ==> b == buf[i]
    ensures !(0 <= i < |buf|) ==> b == 0
  {
    if 0 <= i < |buf| then buf[i] else 0
  }

  /** An unsigned 16-bit field (`__u16`) stored at offset `i`. */
  function U16(buf: seq<byte>, i: int): (v: nat)
    ensures v < 0x1_0000
  {
    ByteAt(buf, i) as nat + 0x100 * ByteAt(buf, i + 1) as nat
  }

  /** An unsigned 32-bit field (`__u32`) stored at offset `i`. */
  function U32(buf: seq<byte>, i: int): (v: nat)
    ensures v < 0x1_0000_0000
  {
    U16(buf, i) + 0x1_0000 * U16(buf, i + 2)
  }

  /** A signed 32-bit field (`int`, two's complement) stored at offset `i`. */
  function S32(buf: seq<byte>, i: int): (v: int)
    ensures -0x8000_0000 <= v < 0x8000_0000
    ensures v >= 0 ==> v == U32(buf, i)
  {
    var u := U32(buf, i);
    if u < 0x8000_0000 then u else u - 0x1_0000_0000
  }

  /** A 32-bit flag word, for the bitwise tests the source performs on it. */
  function Bits32(buf: seq<byte>, i: int): bv32
  {
    U32(buf, i) as bv32
  }

  /** The two bytes that store `v` as a little-endian `__u16`. */
  function Le16(v: nat): (s: seq<byte>)
    requires v < 0x1_0000
    ensures |s| == 2
  {
    [(v % 0x100) as byte, (v / 0x100) as byte]
  }

  /** Reading back what `Le16` stored gives the stored value. */
  lemma U16OfLe16(buf: seq<byte>, i: nat, v: nat)
    requires v < 0x1_0000
    requires i + 2 <= |buf| && buf[i] == Le16(v)[0] && buf[i + 1] == Le16(v)[1]
    ensures U16(buf, i) == v
  {
  }

  /** The four bytes that store `v` as a little-endian `__u32`. */
  function Le32(v: nat): (s: seq<byte>)
    requires v < 0x1_0000_0000
    ensures |s| == 4
  {
    Le16(v % 0x1_0000) + Le16(v / 0x1_0000)
  }

  /** Reading back what `Le32` stored gives the stored value. */
  lemma U32OfLe32(buf: seq<byte>, i: nat, v: nat)
    requires v < 0x1_0000_0000
    requires i + 4 <= |buf| && buf[i..i + 4] == Le32(v)
    ensures U32(buf, i) == v
  {
    var lo, hi := Le16(v % 0x1_0000), Le16(v / 0x1_0000);
    assert buf[i] == buf[i..i + 4][0] == lo[0];
    assert buf[i + 1] == buf[i..i + 4][1] == lo[1];
    assert buf[i + 2] == buf[i..i + 4][2] == hi[0];
    assert buf[i + 3] == buf[i..i + 4][3] == hi[1];
    U16OfLe16(buf, i, v % 0x1_0000);
    U16OfLe16(buf, i + 2, v / 0x1_0000);
  }
}
