/** Byte-level building blocks of the wire protocol: the byte and u32 types,
    little-endian integers, the 4-byte message header (1-byte tag, 3-byte
    little-endian payload size).

    Multi-byte values are copied with `memcpy` in the source; the model fixes a
    little-endian host, so a u32 travels least significant byte first. */
module Bytes {

  type byte = b: int | 0 <= b < 0x100
  type u32 = n: int | 0 <= n < 0x1_0000_0000

  /** Tag byte plus three size bytes. */
  const HeaderSize: nat := 4

  /** Largest payload size the 3-byte size field can carry. */
  const MaxFrameSize: nat := 0x100_0000

  // ---------------------------------------------------------------- integers

  /** The four bytes `memcpy` copies out of a u32 on a little-endian host. */
  function U32Bytes(n: u32): (r: seq<byte>)
    ensures |r| == 4
  {
    [n % 0x100, (n / 0x100) % 0x100, (n / 0x1_0000) % 0x100, n / 0x100_0000]
  }

  /** The u32 that `memcpy` rebuilds from four bytes. */
  function U32Of(b: seq<byte>): u32
    requires |b| == 4
  {
    b[0] as int + 0x100 * (b[1] as int) + 0x1_0000 * (b[2] as int) + 0x100_0000 * (b[3] as int)
  }

  lemma U32RoundTrip(n: u32)
    ensures U32Of(U32Bytes(n)) == n
  {
    var q1 := n / 0x100;
    var q2 := n / 0x1_0000;
    var q3 := n / 0x100_0000;
    assert n == 0x100 * q1 + n % 0x100;
    assert q1 == 0x100 * q2 + q1 % 0x100 by { ShiftTwice(n); }
    assert q2 == 0x100 * q3 + q2 % 0x100 by {
      ShiftTwice(n / 0x100);
      ShiftTwice(n);
    }
  }

  /** Shifting right by 8 twice is shifting right by 16. */
  lemma ShiftTwice(n: nat)
    ensures (n / 0x100) / 0x100 == n / 0x1_0000
  {
    var q := n / 0x1_0000;
    var r := n % 0x1_0000;
    assert n == 0x1_0000 * q + r;
    assert r == 0x100 * (r / 0x100) + r % 0x100;
    assert n == 0x100 * (0x100 * q + r / 0x100) + r % 0x100;
  }

  /** Quotient and remainder by 2^8 or 2^16 are unique. */
  lemma DivUnique(x: int, d: int, t: int, r: int)
    requires d == 0x100 || d == 0x1_0000
    requires x == d * t + r && 0 <= r < d
    ensures x / d == t && x % d == r
  {
  }

  /** A count below 256 survives the cast to `uint8_t`. */
  lemma ByteCast(n: nat)
    requires n < 0x100
    ensures n % 0x100 == n
  {
  }

  /** Three header size bytes: `uint8_t(size)`, `uint8_t(size >> 8)`,
      `uint8_t(size >> 16)`. Bits from 24 upwards are dropped. */
  function SizeBytes(size: nat): (r: seq<byte>)
    ensures |r| == 3
  {
    [size % 0x100, (size / 0x100) % 0x100, (size / 0x1_0000) % 0x100]
  }

  /** `(b[2] << 16) | (b[1] << 8) | b[0]`: the shifted bytes do not overlap,
      so the bitwise or is a sum. */
  function SizeOf(b0: byte, b1: byte, b2: byte): (n: nat)
  {
    b0 as int + 0x100 * (b1 as int) + 0x1_0000 * (b2 as int)
  }

  /** Decoding the size field recovers the size modulo 2^24. */
  lemma SizeRoundTrip(size: nat)
    ensures SizeOf(SizeBytes(size)[0], SizeBytes(size)[1], SizeBytes(size)[2]) == size % MaxFrameSize
  {
    var q1 := size / 0x100;
    var q2 := size / 0x1_0000;
    var q3 := size / 0x100_0000;
    assert size == 0x100 * q1 + size % 0x100;
    assert q1 == 0x100 * q2 + q1 % 0x100 by { ShiftTwice(size); }
    assert q2 == 0x100 * q3 + q2 % 0x100 by {
      ShiftTwice(size / 0x100);
      ShiftTwice(size);
    }
    assert size == 0x100_0000 * q3 + size % 0x100_0000;
  }

  /** The size is computed as a `uint32_t` before its three low bytes are
      taken; that truncation does not change them. */
  lemma UintTruncation(n: nat)
    ensures SizeBytes(n % 0x1_0000_0000) == SizeBytes(n)
  {
    var m := n % 0x1_0000_0000;
    var q := n / 0x1_0000_0000;
    assert n == 0x1_0000_0000 * q + m;
    DivUnique(n, 0x100, 0x100_0000 * q + m / 0x100, m % 0x100);
    DivUnique(n, 0x1_0000, 0x1_0000 * q + m / 0x1_0000, m % 0x1_0000);
    DivUnique(0x100_0000 * q + m / 0x100, 0x100, 0x1_0000 * q + m / 0x100 / 0x100, (m / 0x100) % 0x100);
    DivUnique(0x1_0000 * q + m / 0x1_0000, 0x100, 0x100 * q + m / 0x1_0000 / 0x100, (m / 0x1_0000) % 0x100);
  }

  // ----------------------------------------------------------------- framing

  /** A framed message: tag, 24-bit little-endian payload size, payload. */
  function Frame(tag: byte, payload: seq<byte>): (r: seq<byte>)
    ensures |r| == HeaderSize + |payload|
  {
    [tag] + SizeBytes(|payload|) + payload
  }

  /** Declared payload size of the header at the front of `buf`. */
  function DeclaredSize(buf: seq<byte>): (n: nat)
    requires |buf| >= HeaderSize
    ensures n < MaxFrameSize
  {
    SizeOf(buf[1], buf[2], buf[3])
  }

  /** The header of a frame, followed by anything, decodes to the frame's tag
      and payload size, and the frame's payload sits right after the header. */
  lemma FrameHeader(tag: byte, payload: seq<byte>, rest: seq<byte>)
    requires |payload| < MaxFrameSize
    ensures var buf := Frame(tag, payload) + rest;
      && |buf| == HeaderSize + |payload| + |rest|
      && buf[0] == tag
      && DeclaredSize(buf) == |payload|
      && buf[HeaderSize..HeaderSize + |payload|] == payload
      && buf[HeaderSize..] == payload + rest
      && buf[HeaderSize + |payload|..] == rest
  {
    var buf := Frame(tag, payload) + rest;
    assert buf[1..4] == SizeBytes(|payload|);
    SizeRoundTrip(|payload|);
    assert buf[HeaderSize..] == payload + rest;
  }
}
