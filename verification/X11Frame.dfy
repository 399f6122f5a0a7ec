/** PutImage recognition, the recode container, and the pixel layout
    (crates/rx11-core/src/x11recode/frame.rs). Constants are the code's: opcode
    72 and an extended data offset of 28. */
module X11Frame {
  import opened Bytes

  const OP_PUT_IMAGE: byte := 72
  const FORMAT_ZPIXMAP: byte := 2
  const MAX_RECODE_REQUEST: nat := 16 * 1024 * 1024 + 64
  const MAX_SIDE: nat := 8192
  const SETUP_HEADER_LEN: nat := 12
  const FIXED: nat := 32
  const CONTAINER_MAGIC: Bytes := [0x52, 0x58, 0x49, 0x43]
  const CONTAINER_VERSION: byte := 1

  function Pad4(n: nat): (p: nat)
    ensures n <= p < n + 4 && p % 4 == 0
  {
    (n + 3) / 4 * 4
  }

  function PixelCount(width: u16, height: u16): (n: nat)
    ensures n > 0 <==> width > 0 && height > 0
  {
    width as int * height as int
  }

  // --------------------------------------------------------- classification

  datatype PutImageFrame = PutImageFrame(
    dataOff: nat, width: u16, height: u16, dataLen: nat, total: nat, bigEndian: bool)

  /** `OutOfBounds` is the panic of indexing past the request's end. */
  datatype Classified = NotRecodable | Recodable(frame: PutImageFrame) | OutOfBounds

  function ClassifyPutImage(req: Bytes, bigEndian: bool): Classified
    requires |req| >= 4
  {
    if req[0] != OP_PUT_IMAGE || req[1] != FORMAT_ZPIXMAP then NotRecodable
    else
      var lenField := U16At(req, 2, bigEndian);
      if lenField == 0 then
        if |req| < 8 then NotRecodable
        else ClassifyBody(req, 28, U32At(req, 4, bigEndian) as int * 4, bigEndian)
      else ClassifyBody(req, 24, lenField as int * 4, bigEndian)
  }

  function ClassifyBody(req: Bytes, dataOff: nat, total: nat, bigEndian: bool): Classified
    requires dataOff == 24 || dataOff == 28
  {
    if total > MAX_RECODE_REQUEST || total > |req| then NotRecodable
    else if |req| <= dataOff - 3 then OutOfBounds
    else if req[dataOff - 4] != 0 || (req[dataOff - 3] != 24 && req[dataOff - 3] != 32) then NotRecodable
    else
      var width, height := U16At(req, dataOff - 12, bigEndian), U16At(req, dataOff - 10, bigEndian);
      var dataLen := PixelCount(width, height) * 4;
      if width == 0 || height == 0 || dataOff + dataLen > total then NotRecodable
      else Recodable(PutImageFrame(dataOff, width, height, dataLen, total, bigEndian))
  }

  /** The frame's fields lie within the request. */
  predicate FrameFits(f: PutImageFrame, req: Bytes) {
    && f.dataOff + f.dataLen <= f.total <= |req|
    && f.total <= MAX_RECODE_REQUEST
    && f.dataLen == PixelCount(f.width, f.height) * 4
  }

  /** A recognized image: the opcode and format of a ZPixmap PutImage, a pixel
      block of exactly width * height * 4 octets inside the request. */
  ghost predicate Recognized(f: PutImageFrame, req: Bytes) {
    && |req| >= 4 && req[0] == OP_PUT_IMAGE && req[1] == FORMAT_ZPIXMAP
    && (f.dataOff == 24 || f.dataOff == 28)
    && 0 < f.width && 0 < f.height
    && FrameFits(f, req)
  }

  lemma ClassifySound(req: Bytes, bigEndian: bool)
    requires |req| >= 4 && ClassifyPutImage(req, bigEndian).Recodable?
    ensures var f := ClassifyPutImage(req, bigEndian).frame;
            Recognized(f, req) && f.bigEndian == bigEndian
  {
  }

  // ----------------------------------------------------------- pixel layout

  function UnpackPixel(px: Bytes, bigEndian: bool): (rgb: Bytes)
    requires |px| == 4
    ensures |rgb| == 3
  {
    if bigEndian then [px[1], px[2], px[3]] else [px[2], px[1], px[0]]
  }

  function PackPixel(rgb: Bytes, bigEndian: bool): (px: Bytes)
    requires |rgb| == 3
    ensures |px| == 4
  {
    if bigEndian then [0, rgb[0], rgb[1], rgb[2]] else [rgb[2], rgb[1], rgb[0], 0]
  }

  /** RGB24 of the first `n` pixels of a 32-bit wire block. */
  function UnpackRgb(pixels: Bytes, n: nat, bigEndian: bool): (rgb: Bytes)
    requires n * 4 <= |pixels|
    ensures |rgb| == n * 3
  {
    if n == 0 then []
    else UnpackRgb(pixels, n - 1, bigEndian) + UnpackPixel(pixels[(n - 1) * 4..n * 4], bigEndian)
  }

  /** The 32-bit wire block of the first `n` RGB24 pixels. */
  function PackRgb(rgb: Bytes, n: nat, bigEndian: bool): (pixels: Bytes)
    requires n * 3 <= |rgb|
    ensures |pixels| == n * 4
  {
    if n == 0 then []
    else PackRgb(rgb, n - 1, bigEndian) + PackPixel(rgb[(n - 1) * 3..n * 3], bigEndian)
  }

  method UnpackRgbLoop(f: PutImageFrame, pixels: Bytes) returns (rgb: Bytes)
    requires PixelCount(f.width, f.height) * 4 <= |pixels|
    ensures rgb == UnpackRgb(pixels, PixelCount(f.width, f.height), f.bigEndian)
  {
    var n, i := PixelCount(f.width, f.height), 0;
    rgb := [];
    while i < n
      invariant 0 <= i <= n
      invariant rgb == UnpackRgb(pixels, i, f.bigEndian)
    {
      var px := pixels[i * 4..(i + 1) * 4];
      if f.bigEndian {
        rgb := rgb + [px[1], px[2], px[3]];
      } else {
        rgb := rgb + [px[2], px[1], px[0]];
      }
      i := i + 1;
    }
  }

  method PackRgbLoop(rgb: Bytes, width: u16, height: u16, bigEndian: bool) returns (out: Bytes)
    requires PixelCount(width, height) * 3 <= |rgb|
    ensures out == PackRgb(rgb, PixelCount(width, height), bigEndian)
  {
    var n, i := PixelCount(width, height), 0;
    out := [];
    while i < n
      invariant 0 <= i <= n
      invariant out == PackRgb(rgb, i, bigEndian)
    {
      var px := rgb[i * 3..(i + 1) * 3];
      if bigEndian {
        out := out + [0, px[0], px[1], px[2]];
      } else {
        out := out + [px[2], px[1], px[0], 0];
      }
      i := i + 1;
    }
  }

  lemma {:induction false} UnpackPrefix(a: Bytes, b: Bytes, n: nat, bigEndian: bool)
    requires n * 4 <= |a|
    ensures UnpackRgb(a + b, n, bigEndian) == UnpackRgb(a, n, bigEndian)
  {
    if n > 0 {
      UnpackPrefix(a, b, n - 1, bigEndian);
      assert (a + b)[(n - 1) * 4..n * 4] == a[(n - 1) * 4..n * 4];
    }
  }

  lemma {:induction false} PackPrefix(a: Bytes, b: Bytes, n: nat, bigEndian: bool)
    requires n * 3 <= |a|
    ensures PackRgb(a + b, n, bigEndian) == PackRgb(a, n, bigEndian)
  {
    if n > 0 {
      PackPrefix(a, b, n - 1, bigEndian);
      assert (a + b)[(n - 1) * 3..n * 3] == a[(n - 1) * 3..n * 3];
    }
  }

  lemma UnpackSnoc(a: Bytes, px: Bytes, n: nat, bigEndian: bool)
    requires |a| == n * 4 && |px| == 4
    ensures UnpackRgb(a + px, n + 1, bigEndian) == UnpackRgb(a, n, bigEndian) + UnpackPixel(px, bigEndian)
  {
    UnpackPrefix(a, px, n, bigEndian);
    assert (a + px)[n * 4..(n + 1) * 4] == px;
  }

  lemma PackSnoc(a: Bytes, rgb: Bytes, n: nat, bigEndian: bool)
    requires |a| == n * 3 && |rgb| == 3
    ensures PackRgb(a + rgb, n + 1, bigEndian) == PackRgb(a, n, bigEndian) + PackPixel(rgb, bigEndian)
  {
    PackPrefix(a, rgb, n, bigEndian);
    assert (a + rgb)[n * 3..(n + 1) * 3] == rgb;
  }

  /** Unpacking undoes packing, in both byte orders. */
  lemma {:induction false} UnpackAfterPack(rgb: Bytes, n: nat, bigEndian: bool)
    requires n * 3 <= |rgb|
    ensures UnpackRgb(PackRgb(rgb, n, bigEndian), n, bigEndian) == rgb[..n * 3]
  {
    hide UnpackPixel, PackPixel;
    if n > 0 {
      var k := n - 1;
      var px := rgb[k * 3..n * 3];
      UnpackAfterPack(rgb, k, bigEndian);
      UnpackSnoc(PackRgb(rgb, k, bigEndian), PackPixel(px, bigEndian), k, bigEndian);
      PixelRoundTrip(px, bigEndian);
      assert rgb[..n * 3] == rgb[..k * 3] + px;
    }
  }

  lemma PixelRoundTrip(px: Bytes, bigEndian: bool)
    requires |px| == 3
    ensures UnpackPixel(PackPixel(px, bigEndian), bigEndian) == px
  {
    assert px == [px[0], px[1], px[2]];
  }

  function PadByte(bigEndian: bool): nat { if bigEndian then 0 else 3 }

  lemma PadRoundTrip(px: Bytes, bigEndian: bool)
    requires |px| == 4
    ensures PackPixel(UnpackPixel(px, bigEndian), bigEndian) == px <==> px[PadByte(bigEndian)] == 0
  {
    assert px == [px[0], px[1], px[2], px[3]];
  }

  /** Where red, green and blue stand in a pixel: behind the unused octet when the most
      significant octet comes first, the other way round otherwise. */
  function ColourAt(bigEndian: bool, c: nat): (k: nat)
    requires c < 3
    ensures k < 4 && k != PadByte(bigEndian)
  {
    if bigEndian then 1 + c else 2 - c
  }

  /** Three colours and the pixel they belong to. */
  ghost predicate SameColours(rgb: Bytes, px: Bytes, bigEndian: bool)
    requires |rgb| == 3 && |px| == 4
  {
    forall c :: 0 <= c < 3 ==> rgb[c] == px[ColourAt(bigEndian, c)]
  }

  function RgbOf(rgb: Bytes, i: nat): (c: Bytes)
    requires i * 3 + 3 <= |rgb|
    ensures |c| == 3
  {
    rgb[i * 3..i * 3 + 3]
  }

  function PixelOf(pixels: Bytes, i: nat): (px: Bytes)
    requires i * 4 + 4 <= |pixels|
    ensures |px| == 4
  {
    pixels[i * 4..i * 4 + 4]
  }

  /** `rgb` holds the colours of the first `n` pixels, red, green and blue of each. */
  ghost predicate ColoursOf(rgb: Bytes, pixels: Bytes, n: nat, bigEndian: bool) {
    && |rgb| == n * 3 && n * 4 <= |pixels|
    && forall i: nat :: i < n ==> SameColours(RgbOf(rgb, i), PixelOf(pixels, i), bigEndian)
  }

  lemma PixelColours(px: Bytes, bigEndian: bool)
    requires |px| == 4
    ensures SameColours(UnpackPixel(px, bigEndian), px, bigEndian)
  {
  }

  /** Unpacking takes each colour from its own octet of its own pixel. */
  lemma {:induction false} UnpackColours(pixels: Bytes, n: nat, bigEndian: bool)
    requires n * 4 <= |pixels|
    ensures ColoursOf(UnpackRgb(pixels, n, bigEndian), pixels, n, bigEndian)
  {
    hide UnpackPixel, SameColours;
    if n > 0 {
      UnpackColours(pixels, n - 1, bigEndian);
      PixelColours(PixelOf(pixels, n - 1), bigEndian);
      var front, rgb := UnpackRgb(pixels, n - 1, bigEndian), UnpackRgb(pixels, n, bigEndian);
      forall i: nat | i < n ensures SameColours(RgbOf(rgb, i), PixelOf(pixels, i), bigEndian) {
        assert i < n - 1 ==> RgbOf(rgb, i) == RgbOf(front, i);
        assert i == n - 1 ==> RgbOf(rgb, i) == UnpackPixel(PixelOf(pixels, i), bigEndian);
      }
    }
  }

  /** Packing puts each colour there again and zero in the octet between. */
  lemma PackColours(rgb: Bytes, n: nat, bigEndian: bool)
    requires |rgb| == n * 3
    ensures var pixels := PackRgb(rgb, n, bigEndian); ColoursOf(rgb, pixels, n, bigEndian) && PadsZero(pixels, n, bigEndian)
  {
    hide UnpackRgb, PackRgb, ColoursOf, PadsZero;
    var pixels := PackRgb(rgb, n, bigEndian);
    UnpackAfterPack(rgb, n, bigEndian);
    assert rgb[..n * 3] == rgb && pixels[..n * 4] == pixels;
    UnpackColours(pixels, n, bigEndian);
    PackAfterUnpack(pixels, n, bigEndian);
  }

  /** The octet of each pixel that carries no colour is zero. */
  ghost predicate PadsZero(pixels: Bytes, n: nat, bigEndian: bool)
    requires n * 4 <= |pixels|
  {
    forall i :: 0 <= i < n ==> pixels[i * 4 + PadByte(bigEndian)] == 0
  }

  /** Packing undoes unpacking exactly on the blocks whose unused octets are
      zero: on every other block the colour round trip changes octets. */
  lemma {:induction false} PackAfterUnpack(pixels: Bytes, n: nat, bigEndian: bool)
    requires n * 4 <= |pixels|
    ensures PackRgb(UnpackRgb(pixels, n, bigEndian), n, bigEndian) == pixels[..n * 4]
       <==> PadsZero(pixels, n, bigEndian)
  {
    hide PackRgb, UnpackPixel, PackPixel;
    if n == 0 {
    } else {
      var k := n - 1;
      var px := pixels[k * 4..n * 4];
      var head := PackRgb(UnpackRgb(pixels, k, bigEndian), k, bigEndian);
      var back := PackPixel(UnpackPixel(px, bigEndian), bigEndian);
      PackAfterUnpack(pixels, k, bigEndian);
      PackSnoc(UnpackRgb(pixels, k, bigEndian), UnpackPixel(px, bigEndian), k, bigEndian);
      PadRoundTrip(px, bigEndian);
      assert pixels[..n * 4] == pixels[..k * 4] + px;
      SplitEqual(head, back, pixels[..k * 4], px);
      assert pixels[k * 4 + PadByte(bigEndian)] == px[PadByte(bigEndian)];
      assert PadsZero(pixels, n, bigEndian)
        <==> PadsZero(pixels, k, bigEndian) && pixels[k * 4 + PadByte(bigEndian)] == 0;
    }
  }

  // -------------------------------------------------------------- container

  datatype Codec = Jpeg | Png

  function CodecByte(c: Codec): byte { if c.Jpeg? then 1 else 2 }

  datatype Container = Container(
    codec: Codec, bigEndian: bool, prefix: Bytes, total: nat,
    width: nat, height: nat, dataLen: nat, blob: Bytes)

  function EncodeContainer(codec: Codec, quality: byte, f: PutImageFrame, req: Bytes, blob: Bytes): Bytes
    requires f.dataOff <= |req| && f.dataOff < 0x1_0000_0000 && f.total < 0x1_0000_0000
    requires f.dataLen < 0x1_0000_0000 && |blob| < 0x1_0000_0000
  {
    CONTAINER_MAGIC
    + [CONTAINER_VERSION, CodecByte(codec), quality, if f.bigEndian then 1 else 0]
    + Le32s([f.dataOff, f.total, f.width, f.height, f.dataLen, |blob|])
    + req[..f.dataOff] + blob
  }

  function HeaderWord(body: Bytes, i: nat): u32
    requires |body| >= FIXED && i < 6
  {
    U32At(body, 8 + i * 4, false)
  }

  function DecodeContainer(body: Bytes): Option<Container> {
    if |body| < FIXED || body[..4] != CONTAINER_MAGIC then None
    else if body[4] != CONTAINER_VERSION then None
    else if body[5] != 1 && body[5] != 2 then None
    else
      var codec := if body[5] == 1 then Jpeg else Png;
      var bigEndian := body[7] % 2 == 1;
      var prefixLen: nat, total: nat, width: nat := HeaderWord(body, 0), HeaderWord(body, 1), HeaderWord(body, 2);
      var height: nat, dataLen: nat, blobLen: nat := HeaderWord(body, 3), HeaderWord(body, 4), HeaderWord(body, 5);
      if width == 0 || height == 0 || width > MAX_SIDE || height > MAX_SIDE
        || dataLen != width * height * 4
        || prefixLen + blobLen + FIXED > |body|
        || total < prefixLen + dataLen then None
      else
        var prefix := body[FIXED..FIXED + prefixLen];
        if |prefix| < 2 || prefix[0] != OP_PUT_IMAGE || prefix[1] != FORMAT_ZPIXMAP then None
        else Some(Container(codec, bigEndian, prefix, total, width, height, dataLen,
                            body[FIXED + prefixLen..FIXED + prefixLen + blobLen]))
  }

  lemma ContainerHeader(codec: Codec, quality: byte, f: PutImageFrame, req: Bytes, blob: Bytes)
    requires f.dataOff <= |req| && f.dataOff < 0x1_0000_0000 && f.total < 0x1_0000_0000
    requires f.dataLen < 0x1_0000_0000 && |blob| < 0x1_0000_0000
    ensures var body := EncodeContainer(codec, quality, f, req, blob);
            && |body| == FIXED + f.dataOff + |blob|
            && body[..4] == CONTAINER_MAGIC && body[4] == CONTAINER_VERSION
            && body[5] == CodecByte(codec) && body[6] == quality && body[7] == (if f.bigEndian then 1 else 0)
            && U32At(body, 8, false) == HeaderWord(body, 0) == f.dataOff && U32At(body, 12, false) == HeaderWord(body, 1) == f.total
            && U32At(body, 16, false) == HeaderWord(body, 2) == f.width && U32At(body, 20, false) == HeaderWord(body, 3) == f.height
            && U32At(body, 24, false) == HeaderWord(body, 4) == f.dataLen && U32At(body, 28, false) == HeaderWord(body, 5) == |blob|
            && body[FIXED..FIXED + f.dataOff] == req[..f.dataOff]
            && body[FIXED + f.dataOff..] == blob
  {
    hide U32At, Le32s;
    var body := EncodeContainer(codec, quality, f, req, blob);
    var vs: seq<u32> := [f.dataOff, f.total, f.width, f.height, f.dataLen, |blob|];
    var h := CONTAINER_MAGIC + [CONTAINER_VERSION, CodecByte(codec), quality, if f.bigEndian then 1 else 0];
    var rest := req[..f.dataOff] + blob;
    assert body == h + Le32s(vs) + rest;
    assert forall k: nat :: k < 6 ==> HeaderWord(body, k) == vs[k] by {
      forall k: nat | k < 6 ensures HeaderWord(body, k) == vs[k] {
        ReadLe32s(vs, k);
        ReadInside(h, Le32s(vs), rest, 4 * k, false);
      }
    }
    assert body[FIXED..] == rest;
  }

  /** A container built from a classified image parses back to the same fields
      exactly when both sides are within the decoder's limit, which the encoder
      never checks. */
  lemma ContainerRoundTrip(codec: Codec, quality: byte, f: PutImageFrame, req: Bytes, blob: Bytes)
    requires Recognized(f, req) && |blob| < 0x1_0000_0000
    ensures DecodeContainer(EncodeContainer(codec, quality, f, req, blob))
            == if f.width <= MAX_SIDE && f.height <= MAX_SIDE
               then Some(Container(codec, f.bigEndian, req[..f.dataOff], f.total,
                                   f.width, f.height, f.dataLen, blob))
               else None
  {
    hide EncodeContainer, HeaderWord;
    var body := EncodeContainer(codec, quality, f, req, blob);
    ContainerHeader(codec, quality, f, req, blob);
    assert body[FIXED..FIXED + f.dataOff][0] == OP_PUT_IMAGE && body[FIXED..FIXED + f.dataOff][1] == FORMAT_ZPIXMAP;
    assert body[FIXED + f.dataOff..FIXED + f.dataOff + |blob|] == blob;
  }

  function RebuildRequest(c: Container, pixels: Bytes): Bytes
    requires |c.prefix| + c.dataLen <= c.total && c.dataLen <= |pixels|
  {
    c.prefix + pixels[..c.dataLen] + Zeros(c.total - |c.prefix| - c.dataLen)
  }

  // ------------------------------------------------------- connection setup

  /** Byte order and whole length of the setup request, once its fixed header
      is buffered. */
  function SetupMessageLen(buf: Bytes): (r: Option<(bool, nat)>)
    ensures r.Some? ==> SETUP_HEADER_LEN <= r.value.1 <= SETUP_HEADER_LEN + 0x2_0000
  {
    if |buf| < SETUP_HEADER_LEN then None
    else if buf[0] != 0x42 && buf[0] != 0x6C then None
    else
      var be := buf[0] == 0x42;
      Some((be, SETUP_HEADER_LEN + Pad4(U16At(buf, 6, be)) + Pad4(U16At(buf, 8, be))))
  }
}
