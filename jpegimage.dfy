/**
 * BitmapImage: an uncompressed device-independent bitmap held in one byte buffer,
 * laid out as a 40-byte BITMAPINFOHEADER, then the palette (four bytes per
 * entry), then the pixel rows `effWidth` bytes apart.
 */
module JpegImage {
  import opened Common
  import MemFile

  /** sizeof(BITMAPINFOHEADER) */
  const HEADER_SIZE: nat := 40
  /** BI_RGB, the "uncompressed" compression code */
  const BI_RGB: nat := 0
  /** CXIMAGE_DEFAULT_DPI */
  const DEFAULT_DPI: int := 96
  /** floor(96 * 10000 / 254 + 0.5), what startup stores through setXDPI/setYDPI */
  const DEFAULT_PELS_PER_METER: int := 3780
  /** Largest pixel area for which every size computation of create stays in range */
  const MAX_IMAGE_BYTES: nat := 0x7FFF_0000

  /** The fields of a BITMAPINFOHEADER, in declaration order. */
  datatype Header = Header(
    size: nat, width: int, height: int, planes: nat, bitCount: nat, compression: nat,
    sizeImage: nat, xPelsPerMeter: int, yPelsPerMeter: int, clrUsed: nat, clrImportant: nat)

  /** An RGBQUAD */
  datatype RGBQuad = RGBQuad(blue: byte, green: byte, red: byte, reserved: byte)

  /** What createFromRGB does: return a flag, or let create's exception through. */
  datatype Outcome = Returned(ok: bool) | Threw

  predicate IsU16(v: int) { 0 <= v < 0x1_0000 }
  predicate IsU32(v: int) { 0 <= v < 0x1_0000_0000 }
  predicate IsI32(v: int) { -0x8000_0000 <= v < 0x8000_0000 }

  /** Every field fits its width in the C structure. */
  predicate HeaderFits(h: Header) {
    && IsU32(h.size) && IsI32(h.width) && IsI32(h.height) && IsU16(h.planes) && IsU16(h.bitCount)
    && IsU32(h.compression) && IsU32(h.sizeImage) && IsI32(h.xPelsPerMeter) && IsI32(h.yPelsPerMeter)
    && IsU32(h.clrUsed) && IsU32(h.clrImportant)
  }

  /** Little-endian bytes of an unsigned value. */
  function LittleEndian(v: nat, n: nat): (r: seq<byte>)
    ensures |r| == n
  {
    if n == 0 then [] else [(v % 256) as byte] + LittleEndian(v / 256, n - 1)
  }

  /** The unsigned value of little-endian bytes. */
  function Unsigned(b: seq<byte>): (r: nat)
  {
    if |b| == 0 then 0 else b[0] as nat + 256 * Unsigned(b[1..])
  }

  function Power256(n: nat): (r: nat)
    ensures r > 0
  {
    if n == 0 then 1 else 256 * Power256(n - 1)
  }

  /** Decoding little-endian bytes gives the value back. */
  lemma {:induction false} UnsignedLittleEndian(v: nat, n: nat)
    requires v < Power256(n)
    ensures Unsigned(LittleEndian(v, n)) == v
  {
    if n > 0 {
      UnsignedLittleEndian(v / 256, n - 1);
      assert LittleEndian(v, n)[1..] == LittleEndian(v / 256, n - 1);
    }
  }

  /** Two's complement of a 32-bit signed value, and back. */
  function ToU32(v: int): nat
    requires IsI32(v)
  {
    if v < 0 then v + 0x1_0000_0000 else v
  }

  function FromU32(u: nat): int {
    if u >= 0x8000_0000 then u - 0x1_0000_0000 else u
  }

  /** The 40 bytes of a BITMAPINFOHEADER as the Win32 structure stores them. */
  function EncodeHeader(h: Header): (r: seq<byte>)
    requires HeaderFits(h)
    ensures |r| == HEADER_SIZE
  {
    LittleEndian(h.size, 4) + LittleEndian(ToU32(h.width), 4) + LittleEndian(ToU32(h.height), 4)
    + LittleEndian(h.planes, 2) + LittleEndian(h.bitCount, 2) + LittleEndian(h.compression, 4)
    + LittleEndian(h.sizeImage, 4) + LittleEndian(ToU32(h.xPelsPerMeter), 4)
    + LittleEndian(ToU32(h.yPelsPerMeter), 4) + LittleEndian(h.clrUsed, 4) + LittleEndian(h.clrImportant, 4)
  }

  /** Reading a BITMAPINFOHEADER out of the first 40 bytes of a buffer. */
  function DecodeHeader(b: seq<byte>): Header
    requires |b| >= HEADER_SIZE
  {
    Header(Unsigned(b[0..4]), FromU32(Unsigned(b[4..8])), FromU32(Unsigned(b[8..12])),
           Unsigned(b[12..14]), Unsigned(b[14..16]), Unsigned(b[16..20]), Unsigned(b[20..24]),
           FromU32(Unsigned(b[24..28])), FromU32(Unsigned(b[28..32])), Unsigned(b[32..36]),
           Unsigned(b[36..40]))
  }

  /** The last field of a prefix of e: if e starts with front + f, the bytes after front are f. */
  lemma FieldOf(e: seq<byte>, front: seq<byte>, f: seq<byte>)
    requires |front| + |f| <= |e| && e[..|front| + |f|] == front + f
    ensures e[|front|..|front| + |f|] == f && e[..|front|] == front
  {
    assert e[|front|..|front| + |f|] == (front + f)[|front|..];
    assert e[..|front|] == (front + f)[..|front|];
  }

  /** The header copied into the buffer reads back as the same header. */
  lemma HeaderRoundTrip(h: Header)
    requires HeaderFits(h)
    ensures DecodeHeader(EncodeHeader(h)) == h
  {
    var e := EncodeHeader(h);
    assert Power256(2) == 0x1_0000;
    assert Power256(4) == 0x1_0000_0000;
    var p0, p1, p2 := LittleEndian(h.size, 4), LittleEndian(ToU32(h.width), 4), LittleEndian(ToU32(h.height), 4);
    var p3, p4, p5 := LittleEndian(h.planes, 2), LittleEndian(h.bitCount, 2), LittleEndian(h.compression, 4);
    var p6, p7 := LittleEndian(h.sizeImage, 4), LittleEndian(ToU32(h.xPelsPerMeter), 4);
    var p8, p9, p10 := LittleEndian(ToU32(h.yPelsPerMeter), 4), LittleEndian(h.clrUsed, 4), LittleEndian(h.clrImportant, 4);
    var f1 := p0;
    var f2 := f1 + p1;
    var f3 := f2 + p2;
    var f4 := f3 + p3;
    var f5 := f4 + p4;
    var f6 := f5 + p5;
    var f7 := f6 + p6;
    var f8 := f7 + p7;
    var f9 := f8 + p8;
    var f10 := f9 + p9;
    assert e == f10 + p10 && e[..|f10| + |p10|] == f10 + p10;
    FieldOf(e, f10, p10);
    FieldOf(e, f9, p9);
    FieldOf(e, f8, p8);
    FieldOf(e, f7, p7);
    FieldOf(e, f6, p6);
    FieldOf(e, f5, p5);
    FieldOf(e, f4, p4);
    FieldOf(e, f3, p3);
    FieldOf(e, f2, p2);
    FieldOf(e, f1, p1);
    FieldOf(e, [], p0);
    UnsignedLittleEndian(h.size, 4);
    UnsignedLittleEndian(ToU32(h.width), 4);
    UnsignedLittleEndian(ToU32(h.height), 4);
    UnsignedLittleEndian(h.planes, 2);
    UnsignedLittleEndian(h.bitCount, 2);
    UnsignedLittleEndian(h.compression, 4);
    UnsignedLittleEndian(h.sizeImage, 4);
    UnsignedLittleEndian(ToU32(h.xPelsPerMeter), 4);
    UnsignedLittleEndian(ToU32(h.yPelsPerMeter), 4);
    UnsignedLittleEndian(h.clrUsed, 4);
    UnsignedLittleEndian(h.clrImportant, 4);
    assert Unsigned(e[0..4]) == h.size && Unsigned(e[4..8]) == ToU32(h.width) && Unsigned(e[8..12]) == ToU32(h.height);
    assert Unsigned(e[12..14]) == h.planes && Unsigned(e[14..16]) == h.bitCount && Unsigned(e[16..20]) == h.compression;
    assert Unsigned(e[20..24]) == h.sizeImage && Unsigned(e[24..28]) == ToU32(h.xPelsPerMeter);
    assert Unsigned(e[28..32]) == ToU32(h.yPelsPerMeter) && Unsigned(e[32..36]) == h.clrUsed;
    assert Unsigned(e[36..40]) == h.clrImportant;
  }

  /** The first four bytes of a header whose biSize is 40. */
  const SIZE_FIELD: seq<byte> := [40, 0, 0, 0]

  /** A header of size 40 starts with those bytes, which is what getBits reads back. */
  lemma HeaderStartsWithSize(h: Header)
    requires HeaderFits(h) && h.size == HEADER_SIZE
    ensures EncodeHeader(h)[..4] == SIZE_FIELD
    ensures Unsigned(SIZE_FIELD) == HEADER_SIZE
  {
    assert EncodeHeader(h)[..4] == LittleEndian(h.size, 4);
  }

  /** create's normalisation of the requested bit depth. */
  function NormalBpp(bpp: nat): (r: nat)
    ensures r in {1, 4, 8, 24}
    ensures bpp <= 1 ==> r == 1
    ensures 1 < bpp <= 4 ==> r == 4
    ensures 4 < bpp <= 8 ==> r == 8
    ensures 8 < bpp ==> r == 24
  {
    if bpp <= 1 then 1 else if bpp <= 4 then 4 else if bpp <= 8 then 8 else 24
  }

  /** The palette length create gives each bit depth. */
  function ColorsFor(bpp: nat): (r: nat)
    ensures bpp == 1 ==> r == 2
    ensures bpp == 4 ==> r == 16
    ensures bpp == 8 ==> r == 256
    ensures bpp != 1 && bpp != 4 && bpp != 8 ==> r == 0
  {
    match bpp
    case 1 => 2
    case 4 => 16
    case 8 => 256
    case _ => 0
  }

  /** Bytes one pixel row needs at a bit depth, rounded up to whole bytes. */
  function RowBytes(bpp: nat, width: nat): nat {
    (bpp * width + 7) / 8
  }

  /** a * (n - 1) + a == a * n */
  lemma MulSucc(a: nat, n: nat)
    requires n > 0
    ensures a * (n - 1) + a == a * n
  {
  }

  /** Multiplication is monotone in its second factor. */
  lemma MulMono(a: nat, m: int, n: nat)
    requires m <= n
    ensures m >= 0 ==> a * m <= a * n
  {
  }

  /**
   * `(b & (mask << pos)) >> pos` on a byte, for a mask of `width` low bits, written
   * out in arithmetic: the `width` bits of b starting at bit `pos`.
   */
  function MaskShift(b: byte, width: nat, pos: nat): (r: nat)
    ensures r < Power2(width)
  {
    (b as nat / Power2(pos)) % Power2(width)
  }

  /** The byte holding column x (x * bpp >> 3) lies inside a row of RowBytes bytes. */
  lemma ColumnFits(x: nat, w: nat, bpp: nat)
    requires bpp in {1, 4, 8, 24} && x < w
    ensures x * bpp / 8 < RowBytes(bpp, w)
    ensures bpp == 24 ==> x * bpp / 8 + 2 < RowBytes(bpp, w)
  {
    if bpp == 1 {
      assert x * bpp == x && bpp * w == w;
    } else if bpp == 4 {
      assert x * bpp == 4 * x && bpp * w == 4 * w;
    } else if bpp == 8 {
      assert x * bpp == 8 * x && bpp * w == 8 * w;
    } else {
      assert x * bpp == 24 * x && bpp * w == 24 * w;
    }
  }

  /** The 4-bit palette index at column x of a byte: high nibble for even x, low for odd. */
  function Nibble(b: byte, x: nat): (r: byte)
    ensures x % 2 == 0 ==> r as int == b as int / 16
    ensures x % 2 == 1 ==> r as int == b as int % 16
  {
    var pos := 4 * (1 - x % 2);
    assert Power2(4) == 16;
    MaskShift(b, 4, pos) as byte
  }

  /** The 1-bit palette index at column x of a byte: bit 7 - x mod 8, so the leftmost pixel is the top bit. */
  function Bit(b: byte, x: nat): (r: byte)
    ensures r <= 1
    ensures x % 8 == 0 ==> r as int == b as int / 128
    ensures x % 8 == 7 ==> r as int == b as int % 2
    ensures r as int == (b as int / Power2(7 - x % 8)) % 2
  {
    var pos := 7 - x % 8;
    assert Power2(1) == 2;
    assert Power2(7) == 128;
    MaskShift(b, 1, pos) as byte
  }

  function Power2(n: nat): (r: nat)
    ensures r > 0
  {
    if n == 0 then 1 else 2 * Power2(n - 1)
  }

  /** The row of the buffer that row y of a flipped or unflipped scan reads. */
  function Row(y: nat, height: nat, flip: bool): nat
    requires y < height
  {
    if flip then height - 1 - y else y
  }

  /** What encodeToRGB writes for one pixel: red, green, blue. */
  function Triple(c: RGBQuad): (r: seq<byte>)
    ensures |r| == 3 && r[0] == c.red && r[1] == c.green && r[2] == c.blue
  {
    [c.red, c.green, c.blue]
  }

  /** Byte j of what encodeToRGB writes for one pixel. */
  function Component(c: RGBQuad, j: nat): byte
    requires j < 3
  {
    if j == 0 then c.red else if j == 1 then c.green else c.blue
  }

  /** The R, G, B bytes of a run of pixels, one triple per pixel in order. */
  function RGBBytes(cs: seq<RGBQuad>): (r: seq<byte>)
    ensures |r| == 3 * |cs|
  {
    seq(3 * |cs|, k requires 0 <= k < 3 * |cs| => Component(cs[k / 3], k % 3))
  }

  /** Encoding one more pixel of a run appends its triple. */
  lemma RGBBytesStep(done: seq<byte>, cs: seq<RGBQuad>, x: nat)
    requires x < |cs|
    ensures done + RGBBytes(cs[..x + 1]) == (done + RGBBytes(cs[..x])) + Triple(cs[x])
  {
    assert cs[..x + 1] == cs[..x] + [cs[x]];
    RGBBytesAppend(cs[..x], [cs[x]]);
    assert RGBBytes([cs[x]]) == Triple(cs[x]);
  }

  /** Encoding two runs one after the other is encoding their concatenation. */
  lemma RGBBytesAppend(a: seq<RGBQuad>, b: seq<RGBQuad>)
    ensures RGBBytes(a + b) == RGBBytes(a) + RGBBytes(b)
  {
    var l, r := RGBBytes(a + b), RGBBytes(a) + RGBBytes(b);
    forall k | 0 <= k < |l|
      ensures l[k] == r[k]
    {
      if k >= 3 * |a| {
        var k' := k - 3 * |a|;
        assert k' / 3 == k / 3 - |a| && k' % 3 == k % 3;
      }
    }
  }

  /** Pixel i of a run is bytes 3i, 3i+1 and 3i+2 of its encoding. */
  lemma RGBBytesAt(cs: seq<RGBQuad>, i: nat)
    requires i < |cs|
    ensures RGBBytes(cs)[3 * i..3 * i + 3] == Triple(cs[i])
  {
    var r := RGBBytes(cs);
    assert (3 * i) / 3 == i && (3 * i + 1) / 3 == i && (3 * i + 2) / 3 == i;
    assert r[3 * i..3 * i + 3] == [r[3 * i], r[3 * i + 1], r[3 * i + 2]];
  }

  /** Where input row y starts: 4w bytes per row. */
  function RowStart(w: nat, y: nat): nat {
    RowAt(4 * w, y)
  }

  /** RowStart is the source's `y * width * 4`. */
  lemma RowStartIs(w: nat, y: nat)
    ensures RowStart(w, y) == y * w * 4
  {
    RowAtIs(4 * w, y);
    assert y * (4 * w) == y * w * 4;
  }

  /** Later rows start later. */
  lemma RowStartMono(w: nat, y: nat, z: nat)
    requires y <= z
    ensures RowStart(w, y) <= RowStart(w, z)
  {
    RowAtMono(4 * w, y, z);
  }

  /** The byte offset of pixel (x, y) in createFromRGB's input: 4w bytes per row, 3 per pixel. */
  function InputOffset(w: nat, x: nat, y: nat): nat {
    RowStart(w, y) + 3 * x
  }

  /** The input row y is complete: its last pixel's third byte is present. */
  predicate InputHolds(p: seq<byte>, w: nat, h: nat) {
    0 < w && 0 < h && InputOffset(w, w - 1, h - 1) + 2 < |p|
  }

  /** A pixel of the input is the bytes R, G, B at its offset. */
  function InputColor(p: seq<byte>, w: nat, h: nat, x: nat, y: nat): (c: RGBQuad)
    requires InputHolds(p, w, h) && x < w && y < h
    ensures InputOffset(w, x, y) + 3 <= |p| && Triple(c) == p[InputOffset(w, x, y)..InputOffset(w, x, y) + 3]
  {
    InputRowFits(w, h, x, y);
    var s := InputOffset(w, x, y);
    RGBQuad(p[s + 2], p[s + 1], p[s], 255)
  }

  lemma InputRowFits(w: nat, h: nat, x: nat, y: nat)
    requires 0 < w && x < w && y < h
    ensures InputOffset(w, x, y) <= InputOffset(w, w - 1, h - 1)
  {
    RowStartMono(w, y, h - 1);
  }

  /** Input row y as colours, left to right. */
  function InputRow(p: seq<byte>, w: nat, h: nat, y: nat): (r: seq<RGBQuad>)
    requires InputHolds(p, w, h) && y < h
    ensures |r| == w && forall x :: 0 <= x < w ==> r[x] == InputColor(p, w, h, x, y)
  {
    seq(w, x requires 0 <= x < w => InputColor(p, w, h, x, y))
  }

  /** The first n input rows as colours, top row first. */
  function InputScan(p: seq<byte>, w: nat, h: nat, n: nat): (r: seq<RGBQuad>)
    requires InputHolds(p, w, h) && n <= h
  {
    if n == 0 then [] else InputScan(p, w, h, n - 1) + InputRow(p, w, h, n - 1)
  }

  /** The R, G, B bytes of every input pixel, row by row, with the fourth byte of each row's stride dropped. */
  function PackedRGB(p: seq<byte>, w: nat, h: nat): (r: seq<byte>)
    requires InputHolds(p, w, h)
  {
    RGBBytes(InputScan(p, w, h, h))
  }

  /** Pixel i of input row y is the three bytes at that pixel's input offset, in the same order. */
  lemma PackedRowBytes(p: seq<byte>, w: nat, h: nat, y: nat, x: nat)
    requires InputHolds(p, w, h) && y < h && x < w
    ensures InputOffset(w, x, y) + 3 <= |p|
    ensures RGBBytes(InputRow(p, w, h, y))[3 * x..3 * x + 3] == p[InputOffset(w, x, y)..InputOffset(w, x, y) + 3]
  {
    InputRowFits(w, h, x, y);
    RGBBytesAt(InputRow(p, w, h, y), x);
  }

  /**
   * An image with a buffer, seen as a value: the header, the row stride and the
   * bytes of the buffer. The pixel accessors of BitmapImage read through it.
   */
  datatype Picture = Picture(head: Header, eff: nat, bytes: seq<byte>) {
    /**
     * The shape create leaves: the header size at the front of a buffer of
     * getSize() bytes and a palette whose length matches the bit depth.
     */
    predicate Shaped() {
      && head.size == HEADER_SIZE
      && head.bitCount in {1, 4, 8, 24}
      && head.clrUsed == ColorsFor(head.bitCount)
      && 0 < head.width < 65536 && 0 < head.height < 65536
      && head.sizeImage == RowAt(eff, head.height)
      && head.sizeImage <= MAX_IMAGE_BYTES
      && |bytes| == head.size + head.sizeImage + 4 * head.clrUsed
      && bytes[..4] == SIZE_FIELD
    }

    /** Shaped, and the rows are wide enough for the width and bit depth. */
    predicate Readable() {
      Shaped() && eff >= RowBytes(head.bitCount, head.width)
    }

    /** A pixel coordinate inside the image. */
    predicate InImage(x: int, y: int) {
      0 <= x < head.width && 0 <= y < head.height
    }

    /** info.pImage: the pixel rows start right after the palette. */
    function PixelArea(): nat {
      HEADER_SIZE + 4 * head.clrUsed
    }

    /**
     * getPaletteColor(idx): the palette entry (reserved forced to 255), or all zero
     * without a palette or for an index past its end.
     */
    function PaletteColor(idx: byte): (r: RGBQuad)
      requires Shaped()
      ensures !(idx as nat < head.clrUsed) ==> r == RGBQuad(0, 0, 0, 0)
      ensures idx as nat < head.clrUsed ==>
                var at := HEADER_SIZE + 4 * idx as nat;
                at + 2 < PixelArea() && r == RGBQuad(bytes[at], bytes[at + 1], bytes[at + 2], 255)
    {
      if head.clrUsed != 0 && idx as nat < head.clrUsed then
        var at := HEADER_SIZE + 4 * idx as nat;
        RGBQuad(bytes[at], bytes[at + 1], bytes[at + 2], 255)
      else
        RGBQuad(0, 0, 0, 0)
    }

    /** The offset of the byte holding pixel (x, y): y * effWidth + (x * bpp >> 3) into the rows. */
    function PixelByte(x: nat, y: nat): (r: nat)
      requires Readable() && InImage(x, y)
      ensures PixelArea() <= r < |bytes|
      ensures head.bitCount == 24 ==> r + 2 < |bytes|
    {
      var k := x * head.bitCount / 8;
      ColumnFits(x, head.width, head.bitCount);
      var last := if head.bitCount == 24 then k + 2 else k;
      RowOffset(y, head.height, eff, last);
      PixelArea() + RowAt(eff, y) + k
    }

    /**
     * blindGetPixelIndex(x, y): the palette index of a pixel: the byte at 8 bpp,
     * a nibble at 4 bpp, a bit at 1 bpp, and 0 at any other depth.
     */
    function PixelIndex(x: nat, y: nat): (r: byte)
      requires Readable() && InImage(x, y)
      ensures head.bitCount == 8 ==> r == bytes[PixelByte(x, y)]
      ensures head.bitCount == 4 && x % 2 == 0 ==> r as int == bytes[PixelByte(x, y)] as int / 16
      ensures head.bitCount == 4 && x % 2 == 1 ==> r as int == bytes[PixelByte(x, y)] as int % 16
      ensures head.bitCount == 1 ==> r as int == (bytes[PixelByte(x, y)] as int / Power2(7 - x % 8)) % 2
      ensures head.bitCount !in {1, 4, 8} ==> r == 0
      ensures head.bitCount in {1, 4, 8} ==> r as nat < head.clrUsed
    {
      var b := bytes[PixelByte(x, y)];
      if head.bitCount == 8 then b
      else if head.bitCount == 4 then Nibble(b, x)
      else if head.bitCount == 1 then Bit(b, x)
      else 0
    }

    /**
     * blindGetPixelColor(x, y): the palette colour of the pixel's index, or for a
     * 24-bit image the three bytes B, G, R at x * 3 with reserved 255.
     */
    function PixelColor(x: nat, y: nat): (r: RGBQuad)
      requires Readable() && InImage(x, y)
      ensures head.clrUsed != 0 ==> r == PaletteColor(PixelIndex(x, y))
      ensures head.clrUsed == 0 ==>
                var at := PixelArea() + RowAt(eff, y) + 3 * x;
                at + 2 < |bytes| && r == RGBQuad(bytes[at], bytes[at + 1], bytes[at + 2], 255)
    {
      if head.clrUsed != 0 then PaletteColor(PixelIndex(x, y))
      else
        var at := PixelByte(x, y);
        RGBQuad(bytes[at], bytes[at + 1], bytes[at + 2], 255)
    }

    /** The colours of buffer row y, left to right. */
    function RowColors(y: nat): (r: seq<RGBQuad>)
      requires Readable() && y < head.height
      ensures |r| == head.width
      ensures forall x :: 0 <= x < |r| ==> r[x] == PixelColor(x, y)
    {
      seq(head.width, x requires 0 <= x < head.width => PixelColor(x, y))
    }

    /** The pixels of the first n rows in the order encodeToRGB visits them: bottom row first when flipping. */
    function Scan(n: nat, flip: bool): (r: seq<RGBQuad>)
      requires Readable() && n <= head.height
      ensures |r| == head.width * n
    {
      if n == 0 then []
      else
        MulSucc(head.width, n);
        Scan(n - 1, flip) + RowColors(Row(n - 1, head.height, flip))
    }

    /** Everything encodeToRGB writes: every row, R, G, B per pixel. */
    function RGBStream(flip: bool): (r: seq<byte>)
      requires Readable()
      ensures |r| == 3 * (head.width * head.height)
    {
      RGBBytes(Scan(head.height, flip))
    }

    /** Every palette entry i holds the grey (i, i, i). */
    predicate GrayPalette()
      requires Shaped()
    {
      && head.clrUsed != 0
      && forall i: byte :: i as nat < head.clrUsed ==> PaletteColor(i) == RGBQuad(i, i, i, 255)
    }
  }

  /** Pixel x of row y written by encodeToRGB is bytes 3x..3x+2 of that row's run, as R, G, B. */
  lemma RowColorsBytes(pic: Picture, y: nat, x: nat)
    requires pic.Readable() && y < pic.head.height && x < pic.head.width
    ensures var c := pic.PixelColor(x, y);
            RGBBytes(pic.RowColors(y))[3 * x..3 * x + 3] == [c.red, c.green, c.blue]
  {
    RGBBytesAt(pic.RowColors(y), x);
  }

  /** A paletted pixel always names an entry of the palette. */
  lemma PixelIndexInPalette(pic: Picture, x: nat, y: nat)
    requires pic.Readable() && pic.InImage(x, y) && pic.head.clrUsed != 0
    ensures pic.PixelIndex(x, y) as nat < pic.head.clrUsed
    ensures pic.PixelColor(x, y).reserved == 255
  {
  }

  /** With an all-zero palette every pixel of a paletted image is black. */
  lemma ZeroPaletteIsBlack(pic: Picture, x: nat, y: nat)
    requires pic.Readable() && pic.InImage(x, y) && pic.head.clrUsed != 0
    requires forall i :: HEADER_SIZE <= i < pic.PixelArea() ==> pic.bytes[i] == 0
    ensures pic.PixelColor(x, y) == RGBQuad(0, 0, 0, 255)
  {
    var idx := pic.PixelIndex(x, y);
    var at := HEADER_SIZE + 4 * idx as nat;
    assert HEADER_SIZE <= at && at + 2 < pic.PixelArea();
  }

  /**
   * In a grey-palette image every pixel's colour has equal red, green and blue,
   * each equal to its palette index.
   */
  lemma GrayPixel(pic: Picture, x: nat, y: nat)
    requires pic.Readable() && pic.InImage(x, y) && pic.GrayPalette()
    ensures var c := pic.PixelColor(x, y);
            c.red == c.green == c.blue == pic.PixelIndex(x, y)
  {
    var idx := pic.PixelIndex(x, y);
    assert pic.PaletteColor(idx) == RGBQuad(idx, idx, idx, 255);
  }

  /**
   * The allocation step of create: a buffer of header, pixel area and palette,
   * the palette zeroed (memset) and the header copied to the front.
   */
  method NewDib(h: Header) returns (buffer: array<byte>)
    requires HeaderFits(h) && h.size == HEADER_SIZE
    ensures fresh(buffer)
    ensures buffer.Length == h.size + h.sizeImage + 4 * h.clrUsed
    ensures buffer[..HEADER_SIZE] == EncodeHeader(h)
    ensures buffer[..4] == SIZE_FIELD
    ensures forall j :: HEADER_SIZE <= j < HEADER_SIZE + 4 * h.clrUsed ==> buffer[j] == 0
  {
    buffer := new byte[h.size + h.sizeImage + 4 * h.clrUsed];
    var i := HEADER_SIZE;
    while i < HEADER_SIZE + 4 * h.clrUsed
      invariant HEADER_SIZE <= i <= HEADER_SIZE + 4 * h.clrUsed
      invariant forall j :: HEADER_SIZE <= j < i ==> buffer[j] == 0
    {
      buffer[i] := 0;
      i := i + 1;
    }
    var bytes := EncodeHeader(h);
    i := 0;
    while i < HEADER_SIZE
      invariant 0 <= i <= HEADER_SIZE
      invariant forall j :: 0 <= j < i ==> buffer[j] == bytes[j]
      invariant forall j :: HEADER_SIZE <= j < HEADER_SIZE + 4 * h.clrUsed ==> buffer[j] == 0
    {
      buffer[i] := bytes[i];
      i := i + 1;
    }
    assert buffer[..HEADER_SIZE] == bytes;
    HeaderStartsWithSize(h);
    assert buffer[..4] == bytes[..4];
  }

  function Max(a: int, b: int): int {
    if a > b then a else b
  }

  /** The three putc calls of one pixel of encodeToRGB: red, green, blue. */
  method PutRGB(file: MemFile.CxMemFile, c: RGBQuad)
    requires file.Valid()
    modifies file, file.buffer
    ensures file.Valid()
    ensures old(file.buffer) == null ==>
              file.buffer == null && file.position == old(file.position) && file.size == old(file.size)
    ensures old(file.buffer) != null ==>
              && file.buffer != null
              && (file.buffer != old(file.buffer) ==> fresh(file.buffer))
              && MemFile.Overwrites(file.Image(), old(file.Image()), old(file.position), [c.red, c.green, c.blue])
              && file.position == old(file.position) + 3
              && file.size == Max(file.position, old(file.size))
  {
    ghost var img0 := if file.buffer != null then file.Image() else [];
    ghost var p0 := file.position;
    var okR := file.Putc(c.red);
    ghost var img1 := if file.buffer != null then file.Image() else [];
    var okG := file.Putc(c.green);
    ghost var img2 := if file.buffer != null then file.Image() else [];
    var okB := file.Putc(c.blue);
    if okR {
      MemFile.OverwritesThen(img0, img1, img2, p0, [c.red], [c.green]);
      assert [c.red] + [c.green] == [c.red, c.green];
      assert [c.red, c.green] + [c.blue] == [c.red, c.green, c.blue];
      MemFile.OverwritesThen(img0, img2, file.Image(), p0, [c.red, c.green], [c.blue]);
    }
  }

  /**
   * PutRGB seen from the start of a run: after bytes `done` were written at p0,
   * one more pixel extends the run by its triple.
   */
  method AppendRGB(file: MemFile.CxMemFile, c: RGBQuad, ghost start: seq<byte>, ghost p0: nat, ghost s0: nat,
                   ghost done: seq<byte>)
    requires file.Valid()
    requires file.buffer != null
    requires MemFile.Overwrites(file.Image(), start, p0, done)
    requires file.position == p0 + |done|
    requires file.size == (if |done| == 0 then s0 else Max(file.position, s0))
    modifies file, file.buffer
    ensures file.Valid() && file.buffer != null
    ensures file.buffer == old(file.buffer) || fresh(file.buffer)
    ensures MemFile.Overwrites(file.Image(), start, p0, done + Triple(c))
    ensures file.position == p0 + |done| + 3
    ensures file.size == Max(file.position, s0)
  {
    ghost var img0 := file.Image();
    PutRGB(file, c);
    MemFile.OverwritesThen(start, img0, file.Image(), p0, done, Triple(c));
  }


  /**
   * The bytes `data` have been written through putc from p0 on over the contents
   * `start`: the position has moved past them and the size covers them.
   */
  ghost predicate Written(file: MemFile.CxMemFile, data: seq<byte>, start: seq<byte>, p0: nat, s0: nat)
    reads file, file.buffer
  {
    && file.Valid() && file.buffer != null
    && MemFile.Overwrites(file.Image(), start, p0, data)
    && file.position == p0 + |data|
    && file.size == (if |data| == 0 then s0 else Max(file.position, s0))
  }

  /**
   * One row of encodeToRGB: the pixels of row y, left to right, as R, G, B,
   * after the bytes `done` written before.
   */
  method EncodeRow(file: MemFile.CxMemFile, pic: Picture, y: nat,
                   ghost start: seq<byte>, ghost p0: nat, ghost s0: nat, ghost done: seq<byte>)
    requires pic.Readable() && y < pic.head.height
    requires file.Valid()
    requires file.buffer != null ==> Written(file, done, start, p0, s0)
    modifies file, file.buffer
    ensures file.Valid()
    ensures file.buffer == old(file.buffer) || fresh(file.buffer)
    ensures old(file.buffer) == null ==>
              file.buffer == null && file.position == old(file.position) && file.size == old(file.size)
    ensures old(file.buffer) != null ==> Written(file, done + RGBBytes(pic.RowColors(y)), start, p0, s0)
  {
    ghost var colors := pic.RowColors(y);
    ghost var attached := file.buffer != null;
    ghost var q0 := file.position;
    ghost var r0 := file.size;
    var x: nat := 0;
    while x < pic.head.width
      invariant x <= pic.head.width
      invariant file.Valid()
      invariant file.buffer == old(file.buffer) || fresh(file.buffer)
      invariant !attached ==> file.buffer == null && file.position == q0 && file.size == r0
      invariant attached ==> Written(file, done + RGBBytes(colors[..x]), start, p0, s0)
    {
      var color := pic.PixelColor(x, y);
      RGBBytesStep(done, colors, x);
      if file.buffer != null {
        AppendRGB(file, color, start, p0, s0, done + RGBBytes(colors[..x]));
      } else {
        PutRGB(file, color);
      }
      x := x + 1;
    }
    assert colors[..x] == colors;
  }

  /** The bytes encodeToRGB has written after visiting n rows (none for an unreadable image). */
  ghost function ScanBytes(pic: Picture, flip: bool, n: nat): seq<byte> {
    if pic.Readable() && n <= pic.head.height then RGBBytes(pic.Scan(n, flip)) else []
  }

  /** One pass of encodeToRGB's row loop: the row visited n-th is appended. */
  method EncodeScanStep(file: MemFile.CxMemFile, pic: Picture, flip: bool, n: nat,
                        ghost start: seq<byte>, ghost p0: nat, ghost s0: nat)
    requires pic.Readable() && n < pic.head.height && file.Valid()
    requires file.buffer != null ==> Written(file, ScanBytes(pic, flip, n), start, p0, s0)
    modifies file, file.buffer
    ensures file.Valid()
    ensures file.buffer == old(file.buffer) || fresh(file.buffer)
    ensures old(file.buffer) == null ==>
              file.buffer == null && file.position == old(file.position) && file.size == old(file.size)
    ensures old(file.buffer) != null ==> Written(file, ScanBytes(pic, flip, n + 1), start, p0, s0)
  {
    var y := Row(n, pic.head.height, flip);
    ghost var done := pic.Scan(n, flip);
    ghost var colors := pic.RowColors(y);
    EncodeRow(file, pic, y, start, p0, s0, RGBBytes(done));
    RGBBytesAppend(done, colors);
    assert pic.Scan(n + 1, flip) == done + colors;
  }

  /** The loop of encodeToRGB over all rows: bottom row first when flipping. */
  method EncodeRows(file: MemFile.CxMemFile, pic: Picture, flip: bool)
    requires pic.Readable() && file.Valid()
    modifies file, file.buffer
    ensures file.Valid()
    ensures file.buffer == old(file.buffer) || fresh(file.buffer)
    ensures old(file.buffer) == null ==>
              file.buffer == null && file.position == old(file.position) && file.size == old(file.size)
    ensures old(file.buffer) != null ==>
              Written(file, ScanBytes(pic, flip, pic.head.height), old(file.Image()), old(file.position), old(file.size))
  {
    ghost var attached := file.buffer != null;
    ghost var start := if attached then file.Image() else [];
    ghost var p0 := file.position;
    ghost var s0 := file.size;
    var n: nat := 0;
    while n < pic.head.height
      invariant n <= pic.head.height
      invariant file.Valid()
      invariant file.buffer == old(file.buffer) || fresh(file.buffer)
      invariant !attached ==> file.buffer == null && file.position == p0 && file.size == s0
      invariant attached ==> Written(file, ScanBytes(pic, flip, n), start, p0, s0)
    {
      EncodeScanStep(file, pic, flip, n, start, p0, s0);
      n := n + 1;
    }
  }

  /** Three bytes of a pixel, stored B, G, R at `at`, hold the input's R, G, B at s. */
  ghost predicate PixelStored(a: seq<byte>, at: nat, p: seq<byte>, s: nat) {
    && at + 3 <= |a| && s + 3 <= |p|
    && a[at] == p[s + 2] && a[at + 1] == p[s + 1] && a[at + 2] == p[s]
  }

  /**
   * The inner loop of createFromRGB: w pixels from the input at s, three bytes
   * each, stored B, G, R from `at` on; nothing else in the buffer changes.
   */
  method StoreRowBGR(dst: array<byte>, at: nat, p: seq<byte>, s: nat, w: nat)
    requires at + 3 * w <= dst.Length && s + 3 * w <= |p|
    modifies dst
    ensures forall x :: 0 <= x < w ==> PixelStored(dst[..], at + 3 * x, p, s + 3 * x)
    ensures forall i :: 0 <= i < dst.Length && !(at <= i < at + 3 * w) ==> dst[i] == old(dst[i])
  {
    var x: nat := 0;
    while x < w
      invariant x <= w
      invariant forall j :: 0 <= j < x ==> PixelStored(dst[..], at + 3 * j, p, s + 3 * j)
      invariant forall i :: 0 <= i < dst.Length && !(at <= i < at + 3 * x) ==> dst[i] == old(dst[i])
    {
      var d := at + 3 * x;
      var q := s + 3 * x;
      dst[d] := p[q + 2];
      dst[d + 1] := p[q + 1];
      dst[d + 2] := p[q];
      x := x + 1;
    }
  }

  /** A byte of one row lies wholly before or wholly after another row. */
  lemma RowsDisjoint(r1: nat, r2: nat, c: nat, eff: nat)
    requires r1 != r2 && c < eff
    ensures RowAt(eff, r1) + c < RowAt(eff, r2) || RowAt(eff, r2) + eff <= RowAt(eff, r1) + c
  {
    if r1 < r2 {
      RowAtMono(eff, r1 + 1, r2);
    } else {
      RowAtMono(eff, r2 + 1, r1);
    }
  }

  /** Input rows 0 .. n-1 are stored in their buffer rows. */
  ghost predicate RowsStored(a: seq<byte>, area: nat, eff: nat, w: nat, h: nat, p: seq<byte>, flip: bool, n: nat)
    requires n <= h
  {
    forall y, x :: 0 <= y < n && 0 <= x < w ==>
      PixelStored(a, area + RowAt(eff, Row(y, h, flip)) + 3 * x, p, InputOffset(w, x, y))
  }

  /**
   * Storing input row y into its buffer row, and changing nothing outside
   * that row, keeps the rows stored before it.
   */
  lemma NextRowStored(before: seq<byte>, after: seq<byte>, area: nat, eff: nat, w: nat, h: nat,
                      p: seq<byte>, flip: bool, y: nat)
    requires y < h && 3 * w <= eff && |before| == |after|
    requires RowsStored(before, area, eff, w, h, p, flip, y)
    requires forall x :: 0 <= x < w ==>
               PixelStored(after, area + RowAt(eff, Row(y, h, flip)) + 3 * x, p, InputOffset(w, x, y))
    requires forall i :: 0 <= i < |after| && !(area + RowAt(eff, Row(y, h, flip)) <= i < area + RowAt(eff, Row(y, h, flip)) + 3 * w) ==>
               after[i] == before[i]
    ensures RowsStored(after, area, eff, w, h, p, flip, y + 1)
  {
    var row := Row(y, h, flip);
    forall y', x | 0 <= y' < y + 1 && 0 <= x < w
      ensures PixelStored(after, area + RowAt(eff, Row(y', h, flip)) + 3 * x, p, InputOffset(w, x, y'))
    {
      if y' < y {
        var a := area + RowAt(eff, Row(y', h, flip)) + 3 * x;
        RowsDisjoint(Row(y', h, flip), row, 3 * x, eff);
        RowsDisjoint(Row(y', h, flip), row, 3 * x + 2, eff);
        assert PixelStored(before, a, p, InputOffset(w, x, y'));
      }
    }
  }

  /** Buffer row `row` and input row y both hold the w pixels createFromRGB copies. */
  lemma StoreRowFits(len: nat, area: nat, eff: nat, w: nat, h: nat, plen: nat, row: nat, y: nat)
    requires 0 < w && 3 * w <= eff && area + RowAt(eff, h) <= len && row < h && y < h
    requires InputOffset(w, w - 1, h - 1) + 2 < plen
    ensures row * eff == RowAt(eff, row) && area + row * eff + 3 * w <= len
    ensures y * w * 4 + 3 * w <= plen
  {
    RowOffset(row, h, eff, 3 * w - 1);
    RowAtIs(eff, row);
    RowStartMono(w, y, h - 1);
    RowStartIs(w, y);
  }

  /**
   * The row loop of createFromRGB over a pixel area starting at `area`: input
   * row y, 4w bytes apart, goes to buffer row y (or h - 1 - y when flipping).
   * Nothing before the pixel area changes.
   */
  method StoreRows(dst: array<byte>, area: nat, eff: nat, w: nat, h: nat, p: seq<byte>, flip: bool)
    requires InputHolds(p, w, h) && 3 * w <= eff && area + RowAt(eff, h) <= dst.Length
    modifies dst
    ensures forall i :: 0 <= i < area ==> dst[i] == old(dst[i])
    ensures RowsStored(dst[..], area, eff, w, h, p, flip, h)
  {
    var y: nat := 0;
    while y < h
      invariant y <= h
      invariant forall i :: 0 <= i < area ==> dst[i] == old(dst[i])
      invariant RowsStored(dst[..], area, eff, w, h, p, flip, y)
    {
      var row := Row(y, h, flip);
      var at := area + row * eff;
      StoreRowFits(dst.Length, area, eff, w, h, |p|, row, y);
      ghost var before := dst[..];
      StoreRowBGR(dst, at, p, y * w * 4, w);
      RowStartIs(w, y);
      NextRowStored(before, dst[..], area, eff, w, h, p, flip, y);
      y := y + 1;
    }
  }

  class BitmapImage {
    var header: Header
    var effWidth: nat          // info.effWidth: bytes from one row to the next
    var image: Option<nat>     // info.pImage, as an offset into dib
    var xDPI: int
    var yDPI: int
    var dib: array?<byte>      // pDib

    /** The buffer and the fields that describe it, as a value. */
    function View(): (r: Picture)
      reads this, dib
      requires dib != null
      ensures r.head == header && r.eff == effWidth && r.bytes == dib[..]
    {
      Picture(header, effWidth, dib[..])
    }

    /**
     * Every header field fits its C type; without a buffer there is no pixel
     * pointer; with one, the buffer has the shape create leaves and the pixel
     * pointer sits just past the palette.
     */
    ghost predicate Valid()
      reads this, dib
    {
      var fits := HeaderFits(header);
      var placed := if dib == null then image == None else View().Shaped() && image == Some(View().PixelArea());
      fits && placed
    }

    /** The pixel rows are wide enough for the width and bit depth. */
    ghost predicate RowsFit()
      reads this
    {
      0 <= header.width && effWidth >= RowBytes(header.bitCount, header.width)
    }

    /** startup(): no buffer, a zeroed header and the default resolution. */
    constructor Startup()
      ensures Valid()
      ensures dib == null && image == None && effWidth == 0
      ensures header == Header(0, 0, 0, 0, 0, 0, 0, DEFAULT_PELS_PER_METER, DEFAULT_PELS_PER_METER, 0, 0)
      ensures xDPI == DEFAULT_DPI && yDPI == DEFAULT_DPI
    {
      dib := null;
      header := Header(0, 0, 0, 0, 0, 0, 0, DEFAULT_PELS_PER_METER, DEFAULT_PELS_PER_METER, 0, 0);
      image := None;
      effWidth := 0;
      xDPI, yDPI := DEFAULT_DPI, DEFAULT_DPI;
    }

    /** getPaletteSize(): four bytes per palette entry. */
    function PaletteSize(): (r: nat)
      reads this, dib
      ensures Valid() && dib != null ==> r == 4 * ColorsFor(header.bitCount)
    {
      4 * header.clrUsed
    }

    /** getPalette(): the palette starts right after the header, when there is one. */
    function Palette(): (r: Option<nat>)
      reads this
      ensures r.Some? <==> dib != null && header.clrUsed != 0
      ensures r.Some? ==> r.value == HEADER_SIZE
    {
      if dib != null && header.clrUsed != 0 then Some(HEADER_SIZE) else None
    }

    /** getSize(): header, pixel area and palette: the length of the buffer. */
    function Size(): (r: nat)
      reads this, dib
      ensures Valid() && dib != null ==> r == dib.Length
    {
      header.size + header.sizeImage + PaletteSize()
    }

    /**
     * getBits(row): the offset of a pixel row, found through the header size
     * stored at the front of the buffer; none without a buffer or past the last row.
     */
    function Bits(row: nat): (r: Option<nat>)
      reads this, dib
      requires Valid()
      ensures r.Some? <==> dib != null && (row == 0 || row < header.height)
      ensures r.Some? ==> r.value == HEADER_SIZE + PaletteSize() + effWidth * row
      ensures r.Some? && row == 0 ==> Some(r.value) == image
    {
      if dib == null then None
      else
        assert dib[..4] == View().bytes[..4];
        var stored := Unsigned(dib[..4]);
        assert stored == HEADER_SIZE;
        if row != 0 then
          if row < header.height then Some(stored + PaletteSize() + effWidth * row) else None
        else Some(stored + PaletteSize())
    }

    /** getPaletteColor(idx) of an image without a buffer: all zero. */
    function PaletteColor(idx: byte): (r: RGBQuad)
      reads this, dib
      requires Valid()
      ensures dib == null ==> r == RGBQuad(0, 0, 0, 0)
      ensures dib != null && idx as nat >= header.clrUsed ==> r == RGBQuad(0, 0, 0, 0)
    {
      if dib == null then RGBQuad(0, 0, 0, 0) else View().PaletteColor(idx)
    }

    /**
     * create(width, height, bpp, stride): throw for a dimension of 0 or 65536 and
     * up; otherwise normalise the depth, fill in the header, allocate header,
     * palette and rows, zero the palette and copy the header to the front.
     */
    method Create(width: nat, height: nat, bpp: nat, stride: nat) returns (threw: bool)
      requires Valid()
      requires 0 < width < 65536 && 0 < height < 65536 ==> IsU32(bpp) && stride * height <= MAX_IMAGE_BYTES
      modifies this
      ensures Valid()
      ensures threw <==> !(0 < width < 65536 && 0 < height < 65536)
      ensures threw ==> unchanged(this)
      ensures !threw ==>
                var depth := NormalBpp(bpp);
                && header == old(header).(size := HEADER_SIZE, width := width, height := height, planes := 1,
                                          bitCount := depth, compression := BI_RGB, sizeImage := stride * height,
                                          clrUsed := ColorsFor(depth))
                && effWidth == stride
                && fresh(dib)
                && dib.Length == HEADER_SIZE + stride * height + 4 * ColorsFor(depth)
                && dib[..HEADER_SIZE] == EncodeHeader(header)
                && (forall i :: HEADER_SIZE <= i < HEADER_SIZE + 4 * ColorsFor(depth) ==> dib[i] == 0)
                && image == Some(HEADER_SIZE + 4 * ColorsFor(depth))
      ensures xDPI == old(xDPI) && yDPI == old(yDPI)
    {
      if width == 0 || width >= 65536 || height == 0 || height >= 65536 {
        return true;
      }
      var depth := NormalBpp(bpp);
      var colors := ColorsFor(depth);
      effWidth := stride;
      header := header.(size := HEADER_SIZE, width := width, height := height, planes := 1,
                        bitCount := depth, compression := BI_RGB, sizeImage := effWidth * height,
                        clrUsed := colors);
      RowAtIs(effWidth, height);
      var buffer := NewDib(header);
      dib := buffer;
      assert dib[..][..4] == dib[..4];
      image := Some(HEADER_SIZE + 4 * colors);
      return false;
    }

    /** isGrayScale(): a palette exists and entry i is the grey (i, i, i) for every i. */
    method IsGrayScale() returns (g: bool)
      requires Valid()
      ensures g == (dib != null && View().GrayPalette())
    {
      var pal := Palette();
      if !(dib != null && pal.Some? && header.clrUsed != 0) {
        return false;
      }
      var pic := View();
      var i: nat := 0;
      while i < header.clrUsed
        invariant i <= header.clrUsed
        invariant forall j: byte :: j as nat < i ==> pic.PaletteColor(j) == RGBQuad(j, j, j, 255)
      {
        var at := pal.value + 4 * i;
        if dib[at] as nat != i || dib[at + 1] as nat != i || dib[at + 2] as nat != i {
          assert pic.PaletteColor(i as byte) != RGBQuad(i as byte, i as byte, i as byte, 255);
          return false;
        }
        i := i + 1;
      }
      return true;
    }

    /**
     * encodeToRGB(hFile, bFlipY): append every pixel as R, G, B to the file through
     * putc, last row first when flipping; fails for a missing file or image.
     */
    method EncodeToRGB(file: MemFile.CxMemFile?, flip: bool) returns (ok: bool)
      requires Valid() && (dib != null ==> RowsFit())
      requires file != null ==> file.Valid() && file.buffer != dib
      modifies file, if file != null then file.buffer else null
      ensures ok == (file != null && dib != null)
      ensures !ok ==> file == null || unchanged(file)
      ensures ok ==> file.Valid()
      ensures ok ==> file.buffer == old(file.buffer) || fresh(file.buffer)
      ensures ok && old(file.buffer) == null ==>
                file.buffer == null && file.position == old(file.position) && file.size == old(file.size)
      ensures ok && old(file.buffer) != null ==>
                && file.buffer != null
                && MemFile.Overwrites(file.Image(), old(file.Image()), old(file.position), View().RGBStream(flip))
                && file.position == old(file.position) + |View().RGBStream(flip)|
                && file.size == Max(file.position, old(file.size))
    {
      if file == null || dib == null {
        return false;
      }
      var pic := View();
      EncodeRows(file, pic, flip);
      assert View() == pic;
      return true;
    }

    /**
     * encodeToRGB(buffer, size, bFlipY): refuse when `buffer` is already set;
     * otherwise encode into a fresh memory file and hand its buffer and size out.
     */
    method EncodeToRGBBuffer(buffer: array?<byte>, size: int, flip: bool)
      returns (ok: bool, outBuffer: array?<byte>, outSize: int)
      requires Valid() && (dib != null ==> RowsFit())
      ensures ok == (buffer == null && dib != null)
      ensures !ok ==> outBuffer == buffer && outSize == size
      ensures ok ==> outBuffer != null && fresh(outBuffer) && outSize == |View().RGBStream(flip)|
                     && outSize <= outBuffer.Length && outBuffer[..outSize] == View().RGBStream(flip)
    {
      if buffer != null {
        return false, buffer, size;
      }
      var file := new MemFile.CxMemFile(null, 0);
      var started := file.Open();
      ghost var empty := file.Image();
      assert empty == [];
      ok := EncodeToRGB(file, flip);
      if !ok {
        return false, buffer, size;
      }
      ghost var stream := View().RGBStream(flip);
      outBuffer := file.GetBuffer(true);
      outSize := file.Size();
      assert outSize == |stream|;
      assert outBuffer[..outSize] == stream by {
        assert forall i :: 0 <= i < outSize ==> outBuffer[i] == stream[i];
      }
      return true, outBuffer, outSize;
    }

    /**
     * The pixel loop of createFromRGB: input row y, read 4 * width bytes apart and
     * 3 bytes per pixel, goes to buffer row y (or height - 1 - y when flipping),
     * stored B, G, R; header and palette stay as they are.
     */
    method StoreRGB(p: seq<byte>, flip: bool)
      requires Valid() && dib != null
      requires InputHolds(p, header.width, header.height) && 3 * header.width <= effWidth
      modifies dib
      ensures Valid()
      ensures forall i :: 0 <= i < View().PixelArea() ==> dib[i] == old(dib[i])
      ensures RowsStored(dib[..], View().PixelArea(), effWidth, header.width, header.height, p, flip, header.height)
    {
      ghost var pic := View();
      StoreRows(dib, HEADER_SIZE + 4 * header.clrUsed, effWidth, header.width, header.height, p, flip);
      assert dib[..][..4] == pic.bytes[..4];
    }

    /**
     * createFromRGB(pArray, width, height, stride, flipimage) as written: create
     * is called with a depth of 3, which it rounds to 4 bits per pixel with a
     * 16-entry all-zero palette, and the loop then stores 24-bit pixels; every
     * pixel of the result reads back black.
     */
    method CreateFromRGB(p: Option<seq<byte>>, width: nat, height: nat, stride: nat, flip: bool)
      returns (out: Outcome)
      requires Valid()
      requires p.Some? && 0 < width < 65536 && 0 < height < 65536 ==>
                 stride * height <= MAX_IMAGE_BYTES && 3 * width <= stride && InputHolds(p.value, width, height)
      modifies this, dib
      ensures Valid()
      ensures out == Returned(false) <==> p.None?
      ensures out == Threw <==> p.Some? && !(0 < width < 65536 && 0 < height < 65536)
      ensures out != Returned(true) ==> unchanged(this)
      ensures out == Returned(true) ==>
                && dib != null && fresh(dib) && RowsFit()
                && header.width == width && header.height == height && effWidth == stride
                && header.bitCount == 4 && header.clrUsed == 16
                && RowsStored(dib[..], View().PixelArea(), stride, width, height, p.value, flip, height)
                && (forall y, x :: 0 <= y < height && 0 <= x < width ==>
                      View().PixelColor(x, y) == RGBQuad(0, 0, 0, 255))
    {
      if p.None? {
        return Returned(false);
      }
      var threw := Create(width, height, 3, stride);
      if threw {
        return Threw;
      }
      StoreRGB(p.value, flip);
      AllBlack(View());
      return Returned(true);
    }

    /**
     * createFromRGB with create called for 24 bits per pixel, so that each stored
     * B, G, R triple is one pixel: reading the image back gives the input.
     */
    method CreateFromRGB24(p: Option<seq<byte>>, width: nat, height: nat, stride: nat, flip: bool)
      returns (out: Outcome)
      requires Valid()
      requires p.Some? && 0 < width < 65536 && 0 < height < 65536 ==>
                 stride * height <= MAX_IMAGE_BYTES && 3 * width <= stride && InputHolds(p.value, width, height)
      modifies this, dib
      ensures Valid()
      ensures out == Returned(false) <==> p.None?
      ensures out == Threw <==> p.Some? && !(0 < width < 65536 && 0 < height < 65536)
      ensures out != Returned(true) ==> unchanged(this)
      ensures out == Returned(true) ==>
                && dib != null && fresh(dib) && RowsFit()
                && header.width == width && header.height == height && effWidth == stride
                && header.bitCount == 24 && header.clrUsed == 0
                && (forall y, x :: 0 <= y < height && 0 <= x < width ==>
                      View().PixelColor(x, Row(y, height, flip)) == InputColor(p.value, width, height, x, y))
                && View().RGBStream(flip) == PackedRGB(p.value, width, height)
    {
      if p.None? {
        return Returned(false);
      }
      var threw := Create(width, height, 24, stride);
      if threw {
        return Threw;
      }
      StoreRGB(p.value, flip);
      StoredStreamIsInput(View(), p.value, flip);
      return Returned(true);
    }
  }

  /** With the all-zero palette create leaves, every pixel of a paletted image reads black. */
  lemma AllBlack(pic: Picture)
    requires pic.Readable() && pic.head.clrUsed != 0
    requires forall i :: HEADER_SIZE <= i < pic.PixelArea() ==> pic.bytes[i] == 0
    ensures forall y, x :: 0 <= y < pic.head.height && 0 <= x < pic.head.width ==>
              pic.PixelColor(x, y) == RGBQuad(0, 0, 0, 255)
  {
    forall y, x | 0 <= y < pic.head.height && 0 <= x < pic.head.width
      ensures pic.PixelColor(x, y) == RGBQuad(0, 0, 0, 255)
    {
      ZeroPaletteIsBlack(pic, x, y);
    }
  }

  /** In a 24-bit image holding the stored input, each pixel reads back as the input pixel. */
  lemma StoredPixelsMatch(pic: Picture, p: seq<byte>, flip: bool)
    requires pic.Readable() && pic.head.bitCount == 24 && pic.head.clrUsed == 0
    requires InputHolds(p, pic.head.width, pic.head.height)
    requires RowsStored(pic.bytes, pic.PixelArea(), pic.eff, pic.head.width, pic.head.height, p, flip, pic.head.height)
    ensures forall y, x :: 0 <= y < pic.head.height && 0 <= x < pic.head.width ==>
              pic.PixelColor(x, Row(y, pic.head.height, flip)) == InputColor(p, pic.head.width, pic.head.height, x, y)
  {
    var w, h := pic.head.width, pic.head.height;
    forall y, x | 0 <= y < h && 0 <= x < w
      ensures pic.PixelColor(x, Row(y, h, flip)) == InputColor(p, w, h, x, y)
    {
      StoredPixelMatches(pic, p, flip, x, y);
    }
  }

  /** One pixel of StoredPixelsMatch. */
  lemma StoredPixelMatches(pic: Picture, p: seq<byte>, flip: bool, x: nat, y: nat)
    requires pic.Readable() && pic.head.bitCount == 24 && pic.head.clrUsed == 0
    requires InputHolds(p, pic.head.width, pic.head.height)
    requires RowsStored(pic.bytes, pic.PixelArea(), pic.eff, pic.head.width, pic.head.height, p, flip, pic.head.height)
    requires x < pic.head.width && y < pic.head.height
    ensures pic.PixelColor(x, Row(y, pic.head.height, flip)) == InputColor(p, pic.head.width, pic.head.height, x, y)
  {
    var row := Row(y, pic.head.height, flip);
    var at := pic.PixelArea() + RowAt(pic.eff, row) + 3 * x;
    assert PixelStored(pic.bytes, at, p, InputOffset(pic.head.width, x, y));
    var c := pic.PixelColor(x, row);
    assert c == RGBQuad(pic.bytes[at], pic.bytes[at + 1], pic.bytes[at + 2], 255);
  }

  /** A 24-bit image holding the stored input encodes back to the input, packed. */
  lemma StoredStreamIsInput(pic: Picture, p: seq<byte>, flip: bool)
    requires pic.Readable() && pic.head.bitCount == 24 && pic.head.clrUsed == 0
    requires InputHolds(p, pic.head.width, pic.head.height)
    requires RowsStored(pic.bytes, pic.PixelArea(), pic.eff, pic.head.width, pic.head.height, p, flip, pic.head.height)
    ensures forall y, x :: 0 <= y < pic.head.height && 0 <= x < pic.head.width ==>
              pic.PixelColor(x, Row(y, pic.head.height, flip)) == InputColor(p, pic.head.width, pic.head.height, x, y)
    ensures pic.RGBStream(flip) == PackedRGB(p, pic.head.width, pic.head.height)
  {
    StoredPixelsMatch(pic, p, flip);
    ScanOfInput(pic, p, flip, pic.head.height);
  }

  /** A stored 24-bit image whose every pixel matches the input visits the input's pixels in order. */
  lemma {:induction false} ScanOfInput(pic: Picture, p: seq<byte>, flip: bool, n: nat)
    requires pic.Readable() && n <= pic.head.height
    requires InputHolds(p, pic.head.width, pic.head.height)
    requires forall y, x :: 0 <= y < pic.head.height && 0 <= x < pic.head.width ==>
               pic.PixelColor(x, Row(y, pic.head.height, flip)) == InputColor(p, pic.head.width, pic.head.height, x, y)
    ensures pic.Scan(n, flip) == InputScan(p, pic.head.width, pic.head.height, n)
  {
    if n > 0 {
      ScanOfInput(pic, p, flip, n - 1);
      var w, h := pic.head.width, pic.head.height;
      assert pic.RowColors(Row(n - 1, h, flip)) == InputRow(p, w, h, n - 1);
    }
  }
}
