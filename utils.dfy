/**
 * Byte helpers of src/utils.c: the "is this hardware address non-zero" test used
 * on access-point addresses, and the routine that renders a byte stream as
 * upper-case hexadecimal text into a caller's buffer.
 */
module Utils {
  import opened Wire

  /** The byte as an 8-bit vector. */
  function Bits8(b: byte): (v: bv8)
    ensures v == 0 <==> b == 0
  {
    b as int as bv8
  }

  /**
   * zero_addr: the bitwise OR of the six bytes of a hardware address. Despite its
   * name it is non-zero exactly when some byte of the address is non-zero, so the
   * caller takes a zero result as "no access point".
   */
  function ZeroAddr(addr: seq<byte>): (r: bv8)
    requires |addr| >= 6
    ensures r == 0 <==> addr[0] == 0 && addr[1] == 0 && addr[2] == 0 && addr[3] == 0 && addr[4] == 0 && addr[5] == 0
  {
    Bits8(addr[0]) | Bits8(addr[1]) | Bits8(addr[2]) | Bits8(addr[3]) | Bits8(addr[4]) | Bits8(addr[5])
  }

  /** zero_addr looks at the first six bytes only, and is zero exactly on the all-zero address. */
  lemma ZeroAddrIsAllZero(addr: seq<byte>, rest: seq<byte>)
    requires |addr| == 6
    ensures ZeroAddr(addr + rest) == ZeroAddr(addr)
    ensures ZeroAddr(addr) == 0 <==> addr == [0, 0, 0, 0, 0, 0]
  {
    assert (addr + rest)[..6] == addr;
    if ZeroAddr(addr) == 0 {
      assert forall i :: 0 <= i < 6 ==> addr[i] == 0;
    }
  }

  /** The upper-case hexadecimal digit for a value below 16. */
  function HexDigit(n: nat): char
    requires n < 16
  {
    if n < 10 then ('0' as int + n) as char else ('A' as int + n - 10) as char
  }

  /** The "%02X" rendering of one byte: two upper-case hexadecimal digits, high nibble first. */
  function Hex2(b: byte): (s: seq<char>)
    ensures |s| == 2
  {
    [HexDigit(b as int / 16), HexDigit(b as int % 16)]
  }

  /** The value of an upper-case hexadecimal digit, None for any other character. */
  function DigitValue(c: char): (v: Option<nat>)
    ensures v.Some? ==> v.value < 16 && HexDigit(v.value) == c
  {
    if '0' <= c <= '9' then Some(c as int - '0' as int)
    else if 'A' <= c <= 'F' then Some(c as int - 'A' as int + 10)
    else None
  }

  /** Each byte rendered in turn. */
  function Hex(data: seq<byte>): (s: seq<char>)
    ensures |s| == 2 * |data|
  {
    if |data| == 0 then [] else Hex2(data[0]) + Hex(data[1..])
  }

  /** Reads hexadecimal text back into bytes; None on an odd length or a non-digit. */
  function Unhex(s: seq<char>): Option<seq<byte>>
    decreases |s|
  {
    if |s| < 2 then (if |s| == 0 then Some([]) else None)
    else
      var hi, lo, rest := DigitValue(s[0]), DigitValue(s[1]), Unhex(s[2..]);
      if hi.Some? && lo.Some? && rest.Some? then Some([(hi.value * 16 + lo.value) as byte] + rest.value)
      else None
  }

  /** Each digit reads back as its value. */
  lemma DigitRoundTrip(n: nat)
    requires n < 16
    ensures DigitValue(HexDigit(n)) == Some(n)
  {
  }

  /** Reading a rendered byte followed by more text gives the byte followed by the rest. */
  lemma UnhexPrepend(b: byte, t: seq<char>)
    ensures Unhex(Hex2(b) + t) == if Unhex(t).Some? then Some([b] + Unhex(t).value) else None
  {
    var s := Hex2(b) + t;
    assert s[0] == HexDigit(b as int / 16) && s[1] == HexDigit(b as int % 16) && s[2..] == t;
    DigitRoundTrip(b as int / 16);
    DigitRoundTrip(b as int % 16);
  }

  /** The rendering is read back exactly. */
  lemma {:induction false} HexRoundTrip(data: seq<byte>)
    ensures Unhex(Hex(data)) == Some(data)
  {
    if |data| > 0 {
      UnhexPrepend(data[0], Hex(data[1..]));
      HexRoundTrip(data[1..]);
      assert [data[0]] + data[1..] == data;
    }
  }

  /** Rendering a longer stream extends the text of a shorter one. */
  lemma {:induction false} HexAppend(a: seq<byte>, b: seq<byte>)
    ensures Hex(a + b) == Hex(a) + Hex(b)
  {
    if |a| > 0 {
      assert (a + b)[1..] == a[1..] + b;
      HexAppend(a[1..], b);
    } else {
      assert a + b == b;
    }
  }

  /** Number of bytes print_binary_stream consumes: its loop is governed by the buffer offset alone. */
  function BytesConsumed(buflen: nat): (k: nat)
    ensures 2 * k >= buflen && 2 * k < buflen + 2
  {
    (buflen + 1) / 2
  }

  /**
   * print_binary_stream as written: the loop condition `i<len, offset<buflen` is a
   * comma expression, so only `offset<buflen` decides; each round appends "%02X"
   * of the next byte, and sprintf puts a NUL after it. `data` stands for the
   * memory from the data pointer onward, which must hold the bytes the loop reads;
   * `len` has no effect. The buffer is returned.
   */
  method PrintBinaryStream(buf: array<char>, buflen: nat, data: seq<byte>, len: nat) returns (r: array<char>)
    requires |data| >= BytesConsumed(buflen)
    requires buf.Length > 2 * BytesConsumed(buflen)
    modifies buf
    ensures r == buf
    ensures buf[..2 * BytesConsumed(buflen)] == Hex(data[..BytesConsumed(buflen)])
    ensures BytesConsumed(buflen) > 0 ==> buf[2 * BytesConsumed(buflen)] == '\0'
    ensures buf[2 * BytesConsumed(buflen) + 1..] == old(buf[2 * BytesConsumed(buflen) + 1..])
    ensures Unhex(buf[..2 * BytesConsumed(buflen)]) == Some(data[..BytesConsumed(buflen)])
    ensures len < BytesConsumed(buflen) ==> |Unhex(buf[..2 * BytesConsumed(buflen)]).value| > len
    ensures BytesConsumed(buflen) == 0 ==> buf[..] == old(buf[..])
  {
    ghost var k := BytesConsumed(buflen);
    var i, offset := 0, 0;
    while offset < buflen
      invariant i <= k && offset == 2 * i
      invariant buf[..offset] == Hex(data[..i])
      invariant i > 0 ==> buf[offset] == '\0'
      invariant i == 0 ==> buf[0] == old(buf[0])
      invariant buf[offset + 1..] == old(buf[offset + 1..])
    {
      PutHex(buf, offset, data[i]);
      HexStep(data, i);
      i, offset := i + 1, offset + 2;
    }
    HexRoundTrip(data[..k]);
    r := buf;
  }

  /** sprintf(buf + offset, "%02X", b): two digits, then the terminating NUL. */
  method PutHex(buf: array<char>, offset: nat, b: byte)
    requires offset + 2 < buf.Length
    modifies buf
    ensures buf[..offset + 2] == old(buf[..offset]) + Hex2(b)
    ensures buf[offset + 2] == '\0'
    ensures buf[offset + 3..] == old(buf[offset + 3..])
  {
    var digits := Hex2(b);
    buf[offset] := digits[0];
    buf[offset + 1] := digits[1];
    buf[offset + 2] := '\0';
    assert buf[..offset + 2] == old(buf[..offset]) + digits;
  }

  /** One more byte rendered. */
  lemma HexStep(data: seq<byte>, i: nat)
    requires i < |data|
    ensures Hex(data[..i + 1]) == Hex(data[..i]) + Hex2(data[i])
  {
    assert data[..i + 1] == data[..i] + [data[i]];
    HexAppend(data[..i], [data[i]]);
  }

  /**
   * print_binary_stream as its signature intends: the loop runs while `i<len` AND
   * `offset<buflen`, so it renders min(len, ceil(buflen/2)) bytes and never reads
   * past the `len` bytes of `data`. An empty rendering is still NUL-terminated.
   * Returns the buffer and the number of bytes rendered.
   */
  method PrintBinaryStreamBounded(buf: array<char>, buflen: nat, data: seq<byte>, len: nat)
    returns (r: array<char>, n: nat)
    requires |data| >= len
    requires buf.Length > 2 * BytesConsumed(buflen)
    modifies buf
    ensures r == buf
    ensures n == if len < BytesConsumed(buflen) then len else BytesConsumed(buflen)
    ensures buf[..2 * n] == Hex(data[..n]) && buf[2 * n] == '\0'
    ensures buf[2 * n + 1..] == old(buf[2 * n + 1..])
    ensures Unhex(buf[..2 * n]) == Some(data[..len][..n])
  {
    var i, offset := 0, 0;
    buf[0] := '\0';
    while i < len && offset < buflen
      invariant i <= len && i <= BytesConsumed(buflen) && offset == 2 * i
      invariant buf[..offset] == Hex(data[..i]) && buf[offset] == '\0'
      invariant forall j :: offset < j < buf.Length ==> buf[j] == old(buf[j])
    {
      PutHex(buf, offset, data[i]);
      HexStep(data, i);
      i, offset := i + 1, offset + 2;
    }
    r, n := buf, i;
    assert buf[offset + 1..] == old(buf[offset + 1..]);
    HexRoundTrip(data[..n]);
    assert data[..len][..n] == data[..n];
  }

  /** The length of the text buffer in the association-response dump of src/iw.c. */
  const IW_BUFFER: nat := 128

  /**
   * The association-response dump of src/iw.c: print_binary_stream(buffer, 8,
   * udata, ulen) into its 128-character buffer, then "0x%s...". `udata` stands for
   * the memory from the payload pointer onward. Four bytes are always rendered,
   * so a payload shorter than four bytes is read past its end.
   */
  method AssocResponseHex(udata: seq<byte>, ulen: nat) returns (text: string)
    requires |udata| >= 4
    ensures text == Hex(udata[..4])
    ensures Unhex(text) == Some(udata[..4])
    ensures ulen < 4 ==> |Unhex(text).value| > ulen
  {
    var buffer := new char[IW_BUFFER];
    var r := PrintBinaryStream(buffer, 8, udata, ulen);
    text := buffer[..8];
  }

  /** The same dump over the corrected routine: the payload's first min(ulen, 4) bytes. */
  method AssocResponseHexBounded(udata: seq<byte>, ulen: nat) returns (text: string)
    requires |udata| >= ulen
    ensures text == Hex(udata[..if ulen < 4 then ulen else 4])
    ensures Unhex(text) == Some(udata[..if ulen < 4 then ulen else 4])
    ensures ulen >= 4 ==> text == Hex(udata[..4])
  {
    var buffer := new char[IW_BUFFER];
    var r, n := PrintBinaryStreamBounded(buffer, 8, udata, ulen);
    text := buffer[..2 * n];
    HexRoundTrip(udata[..n]);
  }
}
