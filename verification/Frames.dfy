/** Frame headers, section 4.1 of RFC 7540, as src/frames.c and src/buffer.c lay them out. */
module Frames {
  import opened Bits

  datatype Header = Header(length: nat, kind: byte, flags: byte, streamId: nat)

  ghost predicate ValidHeader(h: Header) {
    h.length < 0x100_0000 && h.streamId < 0x8000_0000
  }

  /** buffer_put_u24. */
  function Put24(x: nat): (r: seq<byte>)
    ensures |r| == 3
  {
    [x / 256 / 256 % 256, x / 256 % 256, x % 256]
  }

  /** buffer_put_u31. */
  function Put31(x: nat): (r: seq<byte>)
    ensures |r| == 4 && r[0] < 128
  {
    [x / 256 / 256 / 256 % 128] + Put24(x)
  }

  /** The reserved bit is set, as frame_header_to_bytes sets it. */
  function HeaderBytes(h: Header): (r: seq<byte>)
    ensures |r| == 9
  {
    var id := Put31(h.streamId);
    Put24(h.length) + [h.kind, h.flags, id[0] + 128] + id[1..]
  }

  function Join(high: nat, low: byte): (n: nat) {
    256 * high + low
  }

  function U24(bs: seq<byte>): (n: nat)
    requires |bs| >= 3
    ensures n < 0x100_0000
  {
    Join(Join(bs[0], bs[1]), bs[2])
  }

  /** buffer_get_u31: the top bit is not part of the number. */
  function U31(bs: seq<byte>): (n: nat)
    requires |bs| >= 4
    ensures n < 0x8000_0000
  {
    Join(Join(Join(bs[0] % 128, bs[1]), bs[2]), bs[3])
  }

  function U32(bs: seq<byte>): (n: nat)
    requires |bs| >= 4
    ensures n < 0x1_0000_0000
  {
    Join(Join(Join(bs[0], bs[1]), bs[2]), bs[3])
  }

  /** frame_parse_header. */
  function ParseHeader(bs: seq<byte>): (h: Header)
    requires |bs| >= 9
    ensures ValidHeader(h)
  {
    Header(U24(bs), bs[3], bs[4], U31(bs[5..]))
  }

  lemma Halves(x: nat)
    ensures Join(x / 256, x % 256) == x
  {
  }

  lemma RoundTrip24(x: nat)
    requires x < 0x100_0000
    ensures U24(Put24(x)) == x
  {
    var y := x / 256;
    var z := y / 256;
    assert z % 256 == z;
    hide Join;
    Halves(x);
    Halves(y);
    assert U24(Put24(x)) == Join(Join(z, y % 256), x % 256);
  }

  lemma Quarters(x: nat)
    requires x < 0x8000_0000
    ensures var b := Put31(x); Join(Join(Join(b[0], b[1]), b[2]), b[3]) == x
  {
    var y := x / 256;
    var z := y / 256;
    var w := z / 256;
    assert w % 128 == w;
    hide Join;
    Halves(x);
    Halves(y);
    Halves(z);
  }

  lemma U24OfPrefix(bs: seq<byte>)
    requires |bs| >= 3
    ensures U24(bs) == U24(bs[..3])
  {
  }

  lemma TopBitDropped(b: byte)
    requires b < 128
    ensures (b + 128) % 128 == b
  {
  }

  lemma HeaderRoundTrip(h: Header, rest: seq<byte>)
    requires ValidHeader(h)
    ensures ParseHeader(HeaderBytes(h) + rest) == h
  {
    hide Put24, Put31;
    RoundTrip24(h.length);
    Quarters(h.streamId);
    hide Join, U24;
    var bs := HeaderBytes(h) + rest;
    var id := Put31(h.streamId);
    assert bs[..3] == Put24(h.length) && U24(bs) == U24(bs[..3]) by { U24OfPrefix(bs); }
    TopBitDropped(id[0]);
    assert bs[5..][0] == id[0] + 128 && bs[5..][1] == id[1] && bs[5..][2] == id[2] && bs[5..][3] == id[3];
  }

  /** Octets in network order as a number. */
  function Number(a: nat, b: nat, c: nat, d: nat): (n: nat) {
    16777216 * a + 65536 * b + 256 * c + d
  }

  /** Section 4.1 of RFC 7540, octet by octet. */
  lemma HeaderOctets(h: Header)
    requires ValidHeader(h)
    ensures var b := HeaderBytes(h);
            && h.length == Number(0, b[0], b[1], b[2]) && b[3] == h.kind && b[4] == h.flags
            && b[5] >= 128 && h.streamId == Number(b[5] - 128, b[6], b[7], b[8])
  {
    var id := Put31(h.streamId);
    RoundTrip24(h.length);
    Quarters(h.streamId);
    hide Put24, Put31;
    assert HeaderBytes(h)[5..] == [id[0] + 128] + id[1..];
  }

  lemma ParsedOctets(b: seq<byte>)
    requires |b| >= 9
    ensures var h := ParseHeader(b);
            && h.length == Number(0, b[0], b[1], b[2]) && h.kind == b[3] && h.flags == b[4]
            && h.streamId == Number(b[5] % 128, b[6], b[7], b[8])
  {
  }

  /** frame_header_to_bytes into the buffer frames are built in. */
  method WriteHeader(h: Header, bytes: array<byte>) returns (n: nat)
    requires ValidHeader(h) && bytes.Length >= 9
    modifies bytes
    ensures n == 9 && bytes[..9] == HeaderBytes(h) && bytes[9..] == old(bytes[9..])
    ensures h.length == Number(0, bytes[0], bytes[1], bytes[2]) && bytes[3] == h.kind && bytes[4] == h.flags
    ensures bytes[5] >= 128 && h.streamId == Number(bytes[5] - 128, bytes[6], bytes[7], bytes[8])
  {
    var length, id := Put24(h.length), Put31(h.streamId);
    hide Put24, Put31, Or;
    bytes[0], bytes[1], bytes[2] := length[0], length[1], length[2];
    bytes[3], bytes[4] := h.kind, h.flags;
    bytes[5], bytes[6], bytes[7], bytes[8] := id[0], id[1], id[2], id[3];
    OrDisjoint(1, id[0], 7);
    Pow2Small();
    bytes[5] := Or(0x80, bytes[5]);
    HeaderOctets(h);
    assert bytes[..9] == HeaderBytes(h);
    return 9;
  }

  datatype Frame = Frame(kind: byte, flags: byte, streamId: nat, payload: seq<byte>)

  ghost predicate ValidFrame(f: Frame) {
    |f.payload| < 0x100_0000 && f.streamId < 0x8000_0000
  }

  function FrameBytes(f: Frame): (r: seq<byte>)
    ensures |r| == 9 + |f.payload|
  {
    HeaderBytes(Header(|f.payload|, f.kind, f.flags, f.streamId)) + f.payload
  }

  /** Whether a frame's flag with the given power-of-two mask is set. */
  predicate HasFlag(f: Frame, mask: nat)
    requires mask > 0
  {
    f.flags / mask % 2 == 1
  }

  const ACK: nat := 0x1
  const END_STREAM: nat := 0x1
  const END_HEADERS: nat := 0x4
  const PADDED: nat := 0x8
  const PRIORITY: nat := 0x20

  const DATA: byte := 0
  const HEADERS: byte := 1
  const RST_STREAM: byte := 3
  const SETTINGS: byte := 4
  const PUSH_PROMISE: byte := 5
  const PING: byte := 6
  const GOAWAY: byte := 7
  const WINDOW_UPDATE: byte := 8
  const CONTINUATION: byte := 9
}
