/** The EoE encapsulation: a 22-byte header in front of a payload of at least 64 bytes. */
module Eoe {
  import opened Common
  import opened Cbpf

  const HEADER_SIZE: nat := 22
  const MIN_PAYLOAD: nat := 64

  /** How the compiler lays the header out: byte order of integers, and whether the first
      bit-field takes the high bits. */
  datatype Layout = Layout(bigEndian: bool, highBitsFirst: bool)

  /** extendPacketPayload. */
  function Padded(payload: seq<Byte>): (r: seq<Byte>)
    ensures payload <= r && |r| == if |payload| < MIN_PAYLOAD then MIN_PAYLOAD else |payload|
    ensures forall i :: |payload| <= i < |r| ==> r[i] == 0
  {
    if |payload| < MIN_PAYLOAD then payload + Zeros(MIN_PAYLOAD - |payload|) else payload
  }

  /** The 16-bit length field: the payload and the four header bytes behind the field. */
  function LengthField(payloadSize: nat): nat {
    (payloadSize + (HEADER_SIZE - 6 - 6 - 4 - 2)) % 0x1_0000
  }

  /** initEoeHeader: addresses, tag 0x81000FFE, length, operation code 8 in the first four bits. */
  function Header(payloadSize: nat, layout: Layout): (h: seq<Byte>)
    ensures |h| == HEADER_SIZE
  {
    var len := LengthField(payloadSize);
    [0x06, 0x00, 0x00, 0x00, 0x00, 0xF8] + [0x06, 0x00, 0x00, 0x00, 0x00, 0x78]
    + (if layout.bigEndian then [0x81, 0x00, 0x0F, 0xFE] else [0xFE, 0x0F, 0x00, 0x81])
    + (if layout.bigEndian then [len / 256, len % 256] else [len % 256, len / 256])
    + [if layout.highBitsFirst then 0x80 else 0x08, 0, 0, 0]
  }

  /** addEoeHeader on the payload. */
  function Encapsulate(payload: seq<Byte>, layout: Layout): seq<Byte> {
    Header(|Padded(payload)|, layout) + Padded(payload)
  }

  /** delEoeHeader on a frame; shorter frames have no header to remove. */
  function Decapsulate(frame: seq<Byte>): seq<Byte>
    requires |frame| >= HEADER_SIZE
  {
    frame[HEADER_SIZE..]
  }

  /** Removing what was added yields the payload, zero-padded to 64 bytes. */
  lemma RoundTrip(payload: seq<Byte>, layout: Layout)
    ensures Decapsulate(Encapsulate(payload, layout)) == Padded(payload)
    ensures |payload| >= MIN_PAYLOAD <==> Decapsulate(Encapsulate(payload, layout)) == payload
  {
    assert Encapsulate(payload, layout)[HEADER_SIZE..] == Padded(payload);
  }

  /** No frame the relay builds passes the relay's own filter, so it never unwraps its own
      traffic; every frame that passes is long enough to be unwrapped. */
  lemma OwnFramesAreFiltered(payload: seq<Byte>, layout: Layout)
    ensures !Accepts(EOE_FILTER, Encapsulate(payload, layout))
  {
    var f := Encapsulate(payload, layout);
    EoeFilterExact(f);
    assert f[18] == Header(|Padded(payload)|, layout)[18];
    assert f[18] == if layout.highBitsFirst then 0x80 else 0x08;
  }

  lemma AcceptedFramesAreLong(frame: seq<Byte>)
    requires Accepts(EOE_FILTER, frame)
    ensures |frame| >= 40 > HEADER_SIZE
  {
    EoeFilterExact(frame);
  }

  /** An unsigned integer of two or four bytes, as a machine of either byte order reads it. */
  function Int16(b: seq<Byte>, bigEndian: bool): nat
    requires |b| == 2
  {
    var first: nat, second: nat := b[0], b[1];
    if bigEndian then 256 * first + second else 256 * second + first
  }

  function Int32(b: seq<Byte>, bigEndian: bool): nat
    requires |b| == 4
  {
    if bigEndian then 0x1_0000 * Int16(b[..2], true) + Int16(b[2..], true)
    else 0x1_0000 * Int16(b[2..], false) + Int16(b[..2], false)
  }

  /** The frame read by position: destination and source address, the tag, the operation code in
      the bit-field that comes first, three zero bytes, and the padded payload. */
  lemma FrameFields(payload: seq<Byte>, layout: Layout)
    ensures var f := Encapsulate(payload, layout);
      && |f| == 22 + (if |payload| < 64 then 64 else |payload|)
      && f[..6] == [0x06, 0x00, 0x00, 0x00, 0x00, 0xF8] && f[6..12] == [0x06, 0x00, 0x00, 0x00, 0x00, 0x78]
      && Int32(f[12..16], layout.bigEndian) == 0x8100_0FFE
      && (if layout.highBitsFirst then f[18] / 16 == 8 && f[18] % 16 == 0 else f[18] % 16 == 8 && f[18] / 16 == 0)
      && f[19..22] == [0, 0, 0] && f[22..] == Padded(payload)
  {
    var h, f := Header(|Padded(payload)|, layout), Encapsulate(payload, layout);
    assert f[..22] == h && f[..6] == h[..6] && f[6..12] == h[6..12] && f[19..22] == h[19..];
    assert f[12..16] == if layout.bigEndian then [0x81, 0x00, 0x0F, 0xFE] else [0xFE, 0x0F, 0x00, 0x81];
    assert f[18] == h[18];
  }

  /** The length field of the frame tells the receiver the padded length and the four header bytes
      behind it exactly when that fits 16 bits. */
  lemma LengthFieldExact(payload: seq<Byte>, layout: Layout)
    ensures var f := Encapsulate(payload, layout);
      |f| >= 18 && (Int16(f[16..18], layout.bigEndian) == |Padded(payload)| + 4 <==> |payload| <= 65531)
  {
    var f, len := Encapsulate(payload, layout), LengthField(|Padded(payload)|);
    assert f[16..18] == if layout.bigEndian then [len / 256, len % 256] else [len % 256, len / 256];
    assert 256 * (len / 256) + len % 256 == len;
  }
}
