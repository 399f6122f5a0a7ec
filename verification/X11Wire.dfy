/** An X11 connection as an application writes it: the setup request and the requests
    behind it (sections "Connection Setup" and "Requests" of the X Window System
    Protocol, and BIG-REQUESTS for the extended length), and what the recoder reads
    from it. */
module X11Wire {
  import opened Bytes
  import opened X11Frame
  import opened X11Recode
  import opened X11RecodeProofs

  function Put16(v: u16, bigEndian: bool): (b: Bytes)
    ensures |b| == 2
  {
    if bigEndian then [v / 0x100, v % 0x100] else [v % 0x100, v / 0x100]
  }

  function Put32(v: u32, bigEndian: bool): (b: Bytes)
    ensures |b| == 4
  {
    if bigEndian then Be32(v) else Le32(v)
  }

  lemma Read16(b: Bytes, at: nat, v: u16, bigEndian: bool)
    requires at + 2 <= |b| && b[at..at + 2] == Put16(v, bigEndian)
    ensures U16At(b, at, bigEndian) == v
  {
    var d := b[at..at + 2];
    assert b[at] == d[0] && b[at + 1] == d[1];
  }

  lemma Read32(b: Bytes, at: nat, v: u32, bigEndian: bool)
    requires at + 4 <= |b| && b[at..at + 4] == Put32(v, bigEndian)
    ensures U32At(b, at, bigEndian) == v
  {
    hide U32At, Be32, Le32;
    if bigEndian { ReadBe32(b, at, v); } else { ReadLe32(b, at, v); }
  }

  // -------------------------------------------------------- the setup request

  /** `pads` are the unused octets behind the name and behind the data. */
  datatype AnySetup = AnySetup(
    bigEndian: bool, major: u16, minor: u16, authName: Bytes, authData: Bytes, pads: (Bytes, Bytes))

  /** A string field and its pad: at most three octets, up to a multiple of four. */
  predicate Padded(field: Bytes, pad: Bytes) {
    |field| < 0x1_0000 && |pad| < 4 && (|field| + |pad|) % 4 == 0
  }

  predicate WellSetUp(s: AnySetup) {
    Padded(s.authName, s.pads.0) && Padded(s.authData, s.pads.1)
  }

  type SetupRequest = s: AnySetup | WellSetUp(s) witness AnySetup(true, 11, 0, [], [], ([], []))

  function SetupHead(s: SetupRequest): (h: Bytes)
    ensures |h| == 12
  {
    [if s.bigEndian then 0x42 else 0x6C, 0] + Put16(s.major, s.bigEndian) + Put16(s.minor, s.bigEndian)
    + Put16(|s.authName|, s.bigEndian) + Put16(|s.authData|, s.bigEndian) + [0, 0]
  }

  function SetupWire(s: SetupRequest): Bytes
  {
    SetupHead(s) + (s.authName + s.pads.0 + s.authData + s.pads.1)
  }

  lemma PadExact(field: Bytes, pad: Bytes)
    requires Padded(field, pad)
    ensures Pad4(|field|) == |field| + |pad|
  {
  }

  /** The length read from the header is the length of the setup request written, name,
      authorization data and both pads included, in either byte order. */
  lemma SetupLength(s: SetupRequest, more: Bytes)
    ensures SetupMessageLen(SetupWire(s) + more) == Some((s.bigEndian, |SetupWire(s)|))
  {
    hide Put16, U16At, Pad4;
    var buf, h := SetupWire(s) + more, SetupHead(s);
    assert buf[..12] == h;
    assert buf[0] == h[0];
    assert buf[6..8] == buf[..12][6..8] == Put16(|s.authName|, s.bigEndian);
    assert buf[8..10] == buf[..12][8..10] == Put16(|s.authData|, s.bigEndian);
    Read16(buf, 6, |s.authName|, s.bigEndian);
    Read16(buf, 8, |s.authData|, s.bigEndian);
    PadExact(s.authName, s.pads.0);
    PadExact(s.authData, s.pads.1);
  }

  /** The first stretch the recoder releases is exactly the setup request, and it frames
      what comes behind it. */
  lemma SetupReleased(spec: RecodeSpec, s: SetupRequest, more: Bytes)
    ensures var w := Requests(spec, s.bigEndian, more);
            Push(spec, FRESH, SetupWire(s) + more)
            == (Machine(InRequests, s.bigEndian, w.status == Disabled, w.status == Crashed, w.rest),
                [Raw(SetupWire(s))] + w.items)
  {
    hide SetupMessageLen, Requests;
    var setup := SetupWire(s);
    var buf := setup + more;
    SetupLength(s, more);
    assert [] + buf == buf && buf[..|setup|] == setup && buf[|setup|..] == more;
    assert buf[0] == SetupHead(s)[0];
  }

  // ---------------------------------------------------------------- requests

  /** A request: opcode, the octet behind it, and the rest; `extended` chooses the
      32-bit length behind the header. */
  datatype AnyRequest = AnyRequest(opcode: byte, detail: byte, body: Bytes, extended: bool)

  function HeadLen(r: AnyRequest): nat { if r.extended then 8 else 4 }

  /** The length can be written: whole words, and few enough for the length field. */
  predicate Sendable(r: AnyRequest) {
    |r.body| % 4 == 0 && HeadLen(r) + |r.body| < 4 * (if r.extended then 0x1_0000_0000 else 0x1_0000)
  }

  type XRequest = r: AnyRequest | Sendable(r) witness AnyRequest(127, 0, [], false)

  function RequestHead(r: XRequest, bigEndian: bool): (h: Bytes)
    ensures |h| == HeadLen(r)
  {
    var words := (HeadLen(r) + |r.body|) / 4;
    [r.opcode, r.detail] + if r.extended then Put16(0, bigEndian) + Put32(words, bigEndian) else Put16(words, bigEndian)
  }

  function RequestWire(r: XRequest, bigEndian: bool): (b: Bytes)
    ensures |b| == HeadLen(r) + |r.body|
  {
    RequestHead(r, bigEndian) + r.body
  }

  /** The length fields of a request and of anything that starts with it. */
  lemma RequestFields(r: XRequest, bigEndian: bool, more: Bytes)
    ensures var buf, n := RequestWire(r, bigEndian) + more, HeadLen(r) + |r.body|;
            && buf[0] == r.opcode && buf[1] == r.detail
            && (r.extended ==> U16At(buf, 2, bigEndian) == 0 && U32At(buf, 4, bigEndian) as int * 4 == n)
            && (!r.extended ==> U16At(buf, 2, bigEndian) as int * 4 == n && U16At(buf, 2, bigEndian) > 0)
  {
    hide Put16, Put32, U16At, U32At;
    var buf, h := RequestWire(r, bigEndian) + more, RequestHead(r, bigEndian);
    var words := (HeadLen(r) + |r.body|) / 4;
    assert buf[..|h|] == h;
    assert buf[0] == h[0] && buf[1] == h[1];
    assert buf[2..4] == buf[..|h|][2..4] == Put16(if r.extended then 0 else words, bigEndian);
    Read16(buf, 2, if r.extended then 0 else words, bigEndian);
    if r.extended {
      assert buf[4..8] == buf[..|h|][4..8] == Put32(words, bigEndian);
      Read32(buf, 4, words, bigEndian);
    }
  }

  /** A request is framed at its own end, whatever follows and in either length form,
      exactly when it is within the recoder's limit. */
  lemma FramedExactly(r: XRequest, bigEndian: bool, more: Bytes)
    ensures var wire := RequestWire(r, bigEndian);
            FrameNext(bigEndian, wire + more) == if |wire| <= MAX_RECODE_REQUEST then Request(|wire|) else Absurd
  {
    hide U16At, U32At, RequestWire;
    RequestFields(r, bigEndian, more);
  }

  // ------------------------------------------------------- a whole connection

  function Wires(rs: seq<XRequest>, bigEndian: bool): Bytes {
    if rs == [] then [] else RequestWire(rs[0], bigEndian) + Wires(rs[1..], bigEndian)
  }

  /** Within the recoder's limit and not a PutImage that ends inside its fixed part. */
  predicate Handled(r: XRequest) {
    && HeadLen(r) + |r.body| <= MAX_RECODE_REQUEST
    && !(r.opcode == OP_PUT_IMAGE && r.detail == FORMAT_ZPIXMAP && |r.body| < 20)
  }

  predicate AllHandled(rs: seq<XRequest>) { forall k :: 0 <= k < |rs| ==> Handled(rs[k]) }

  /** What was released stands for the request and is what becomes of it. */
  ghost predicate StandsFor(spec: RecodeSpec, bigEndian: bool, r: XRequest, item: Item) {
    Source(item) == RequestWire(r, bigEndian) && Judge(spec, bigEndian, RequestWire(r, bigEndian)) == Keep(item)
  }

  /** The requests one by one: one released stretch for each. */
  ghost predicate OneForEach(spec: RecodeSpec, bigEndian: bool, rs: seq<XRequest>, items: seq<Item>) {
    |items| == |rs| && forall k :: 0 <= k < |rs| ==> StandsFor(spec, bigEndian, rs[k], items[k])
  }

  lemma HandledKept(spec: RecodeSpec, bigEndian: bool, r: XRequest) returns (item: Item)
    requires Handled(r)
    ensures StandsFor(spec, bigEndian, r, item)
  {
    hide Judge, FrameNext, RequestWire, U16At, U32At;
    var wire := RequestWire(r, bigEndian);
    assert wire + [] == wire && wire[..|wire|] == wire;
    FramedExactly(r, bigEndian, []);
    RequestFields(r, bigEndian, []);
    PanicsExactly(spec, bigEndian, wire);
    JudgeSound(spec, bigEndian, wire);
    item := Judge(spec, bigEndian, wire).item;
  }

  lemma OneMore(spec: RecodeSpec, bigEndian: bool, rs: seq<XRequest>, items: seq<Item>, item: Item)
    requires rs != [] && OneForEach(spec, bigEndian, rs[1..], items) && StandsFor(spec, bigEndian, rs[0], item)
    ensures OneForEach(spec, bigEndian, rs, [item] + items)
  {
    hide StandsFor;
    var all := [item] + items;
    forall k | 0 <= k < |rs| ensures StandsFor(spec, bigEndian, rs[k], all[k]) {
      if k > 0 { assert rs[k] == rs[1..][k - 1] && all[k] == items[k - 1]; }
    }
  }

  lemma {:induction false} RequestsFramed(spec: RecodeSpec, bigEndian: bool, rs: seq<XRequest>, rest: Bytes)
    requires AllHandled(rs) && FrameNext(bigEndian, rest) == NeedMore
    ensures var w := Requests(spec, bigEndian, Wires(rs, bigEndian) + rest);
            w.rest == rest && w.status == Running && OneForEach(spec, bigEndian, rs, w.items)
    decreases |rs|
  {
    hide Judge, FrameNext, RequestWire, OneForEach, Source;
    if rs == [] {
      assert Wires(rs, bigEndian) + rest == rest;
      assert OneForEach(spec, bigEndian, [], []) by { NoneForNone(spec, bigEndian); }
    } else {
      var r, wire := rs[0], RequestWire(rs[0], bigEndian);
      var after := Wires(rs[1..], bigEndian) + rest;
      var buf := Wires(rs, bigEndian) + rest;
      assert buf == wire + after;
      assert buf[..|wire|] == wire && buf[|wire|..] == after;
      FramedExactly(r, bigEndian, after);
      var item := HandledKept(spec, bigEndian, r);
      RequestsFramed(spec, bigEndian, rs[1..], rest);
      OneMore(spec, bigEndian, rs, Requests(spec, bigEndian, after).items, item);
    }
  }

  lemma NoneForNone(spec: RecodeSpec, bigEndian: bool)
    ensures OneForEach(spec, bigEndian, [], [])
  {
  }

  /** THE framing law. A connection written as a setup request, requests and the start
      of one more is taken apart into just these, whatever its byte order, its length
      forms and the way it is read: the machine has released the setup request and one
      stretch for each request, in order, and withholds what is unfinished. */
  lemma ConnectionFramed(spec: RecodeSpec, s: SetupRequest, rs: seq<XRequest>, rest: Bytes, chunks: seq<Bytes>)
    requires AllHandled(rs) && FrameNext(s.bigEndian, rest) == NeedMore
    requires Flat(chunks) == SetupWire(s) + (Wires(rs, s.bigEndian) + rest)
    ensures exists items ::
              && OneForEach(spec, s.bigEndian, rs, items)
              && Run(spec, chunks) == Machine(InRequests, s.bigEndian, false, false, rest)
              && Merge([], RunUnits(spec, chunks)) == Emit([], [Raw(SetupWire(s))] + items)
  {
    hide Requests, Push, Emit, Merge, SetupWire, OneForEach, FrameNext;
    var more := Wires(rs, s.bigEndian) + rest;
    RequestsFramed(spec, s.bigEndian, rs, rest);
    SetupReleased(spec, s, more);
    SetupStarts(s, more);
    ChunkingIrrelevant(spec, chunks);
  }

  lemma SetupStarts(s: SetupRequest, more: Bytes)
    ensures X11Start(SetupWire(s) + more)
  {
    assert (SetupWire(s) + more)[0] == SetupHead(s)[0];
  }

  // ------------------------------------------------------------------ images

  /** The fields of a PutImage. */
  datatype PutImage = PutImage(
    format: byte, drawable: u32, gc: u32, width: u16, height: u16, dstX: u16, dstY: u16,
    leftPad: byte, depth: byte, data: Bytes, extended: bool)

  function ImageFields(p: PutImage, bigEndian: bool): (b: Bytes)
    ensures |b| == 20
  {
    Put32(p.drawable, bigEndian) + Put32(p.gc, bigEndian)
    + Put16(p.width, bigEndian) + Put16(p.height, bigEndian)
    + Put16(p.dstX, bigEndian) + Put16(p.dstY, bigEndian) + [p.leftPad, p.depth, 0, 0]
  }

  function ImageRequest(p: PutImage, bigEndian: bool): AnyRequest {
    AnyRequest(OP_PUT_IMAGE, p.format, ImageFields(p, bigEndian) + p.data, p.extended)
  }

  /** A true-colour image of the usual layout with all its pixels there. */
  predicate TrueColour(p: PutImage) {
    && p.format == FORMAT_ZPIXMAP && p.leftPad == 0 && (p.depth == 24 || p.depth == 32)
    && p.width > 0 && p.height > 0 && PixelCount(p.width, p.height) * 4 <= |p.data|
  }

  function ImageFrame(p: PutImage, bigEndian: bool): PutImageFrame {
    var off := if p.extended then 28 else 24;
    PutImageFrame(off, p.width, p.height, PixelCount(p.width, p.height) * 4, off + |p.data|, bigEndian)
  }

  lemma ImageOctets(p: PutImage, bigEndian: bool)
    requires Sendable(ImageRequest(p, bigEndian))
    ensures var req, off := RequestWire(ImageRequest(p, bigEndian), bigEndian), if p.extended then 28 else 24;
            && |req| == off + |p.data| && req[off..] == p.data
            && U16At(req, off - 12, bigEndian) == p.width && U16At(req, off - 10, bigEndian) == p.height
            && req[off - 4] == p.leftPad && req[off - 3] == p.depth
  {
    hide Put16, Put32, U16At, RequestHead;
    var req, off := RequestWire(ImageRequest(p, bigEndian), bigEndian), if p.extended then 28 else 24;
    var f := ImageFields(p, bigEndian);
    assert req == RequestHead(ImageRequest(p, bigEndian), bigEndian) + (f + p.data);
    FieldsInside(RequestHead(ImageRequest(p, bigEndian), bigEndian), f, p.data);
    FieldOctets(p, bigEndian);
    assert req[off - 12..off - 10] == f[8..10] && req[off - 10..off - 8] == f[10..12];
    Read16(req, off - 12, p.width, bigEndian);
    Read16(req, off - 10, p.height, bigEndian);
  }

  lemma FieldOctets(p: PutImage, bigEndian: bool)
    ensures var f := ImageFields(p, bigEndian);
            && f[8..10] == Put16(p.width, bigEndian) && f[10..12] == Put16(p.height, bigEndian)
            && f[16] == p.leftPad && f[17] == p.depth
  {
    hide Put16, Put32;
  }

  lemma FieldsInside(head: Bytes, f: Bytes, data: Bytes)
    requires |f| == 20
    ensures var req, off := head + (f + data), |head| + 20;
            && req[off..] == data && req[off - 12..off - 10] == f[8..10] && req[off - 10..off - 8] == f[10..12]
            && req[off - 4] == f[16] && req[off - 3] == f[17]
  {
  }

  /** Exactly the true-colour images are recognized, in both byte orders and both length
      forms, with the fields they were written with. */
  lemma RecognizedExactly(p: PutImage, bigEndian: bool)
    requires Sendable(ImageRequest(p, bigEndian)) && HeadLen(ImageRequest(p, bigEndian)) + 20 + |p.data| <= MAX_RECODE_REQUEST
    ensures ClassifyPutImage(RequestWire(ImageRequest(p, bigEndian), bigEndian), bigEndian)
         == if TrueColour(p) then Recodable(ImageFrame(p, bigEndian)) else NotRecodable
  {
    hide RequestWire, ImageFields, U16At, U32At, PixelCount;
    var r := ImageRequest(p, bigEndian);
    var wire := RequestWire(r, bigEndian);
    assert wire + [] == wire;
    RequestFields(r, bigEndian, []);
    ImageOctets(p, bigEndian);
    assert PixelCount(p.width, p.height) > 0 <==> p.width > 0 && p.height > 0;
  }

  /** What the codec makes of the image: PNG of its pixel block as it stands, JPEG of its
      colours, each taken from its own octet, with the image's sides. */
  ghost predicate Coded(spec: RecodeSpec, p: PutImage, bigEndian: bool, blob: Option<Bytes>)
    requires TrueColour(p)
  {
    var n := PixelCount(p.width, p.height);
    if spec.codec.Png? then blob == Some(spec.lib.pngEncode(p.data[..n * 4]))
    else exists rgb: Bytes ::
           ColoursOf(rgb, p.data, n, bigEndian) && blob == spec.lib.jpegEncode(rgb, p.width, p.height, spec.quality)
  }

  /** THE recoding law. An image goes out as a container exactly when it is a true-colour
      one with enough pixels whose coded form is smaller than its pixel block less the
      overhead; the container then holds that form. Everything else goes out as it is. */
  lemma RecodedExactly(spec: RecodeSpec, p: PutImage, bigEndian: bool)
    requires Sendable(ImageRequest(p, bigEndian)) && HeadLen(ImageRequest(p, bigEndian)) + 20 + |p.data| <= MAX_RECODE_REQUEST
    ensures var req, f := RequestWire(ImageRequest(p, bigEndian), bigEndian), ImageFrame(p, bigEndian);
            if !TrueColour(p) then Judge(spec, bigEndian, req) == Keep(Raw(req))
            else exists blob ::
              && Coded(spec, p, bigEndian, blob)
              && Judge(spec, bigEndian, req) == Keep(
                   if f.dataLen >= spec.minBytes && blob.Some? && blob.value != [] && |blob.value| + 33 + f.dataOff < f.dataLen
                   then Image(req, f, blob.value, EncodeContainer(spec.codec, spec.quality, f, req, blob.value))
                   else Raw(req))
  {
    hide RequestWire, ImageFields, ClassifyPutImage, EncodeContainer, ColoursOf, UnpackRgb;
    var req, f := RequestWire(ImageRequest(p, bigEndian), bigEndian), ImageFrame(p, bigEndian);
    RecognizedExactly(p, bigEndian);
    ImageOctets(p, bigEndian);
    if TrueColour(p) {
      var n := PixelCount(p.width, p.height);
      var pixels := req[f.dataOff..f.dataOff + f.dataLen];
      assert pixels == req[f.dataOff..][..n * 4] == p.data[..n * 4];
      UnpackColours(pixels, n, bigEndian);
      FrontColours(UnpackRgb(pixels, n, bigEndian), p.data, n, bigEndian);
      assert Coded(spec, p, bigEndian, EncodeBlob(spec, f, pixels));
    }
  }

  lemma FrontColours(rgb: Bytes, data: Bytes, n: nat, bigEndian: bool)
    requires n * 4 <= |data| && ColoursOf(rgb, data[..n * 4], n, bigEndian)
    ensures ColoursOf(rgb, data, n, bigEndian)
  {
  }

  /** What JPEG carries: the client writes the header of the request, then pixels whose
      colours are the ones the library gives back for the request's own colours, each in
      its own octet again and zero in the octet between, then zeros. */
  lemma JpegCarries(spec: RecodeSpec, i: Item)
    requires Lawful(spec.lib) && spec.codec.Jpeg? && i.Image? && Sound(spec, i)
    requires i.frame.width <= MAX_SIDE && i.frame.height <= MAX_SIDE
    ensures var f := i.frame;
            var n := PixelCount(f.width, f.height);
            exists rgb: Bytes, back: Bytes, block: Bytes ::
              && ColoursOf(rgb, Pixels(i), n, f.bigEndian)
              && spec.lib.jpegEncode(rgb, f.width, f.height, spec.quality) == Some(i.blob)
              && spec.lib.jpegDecode(i.blob) == Some(JpegImage(back, 3))
              && ColoursOf(back, block, n, f.bigEndian) && PadsZero(block, n, f.bigEndian)
              && |block| == f.dataLen
              && ExpandItem(spec.lib, i) == Expanded(i.req[..f.dataOff] + block + Zeros(|i.req| - f.dataOff - f.dataLen))
  {
    hide ClassifyPutImage, EncodeContainer, DecodeContainer, UnpackRgb, PackRgb, Zeros, Expand, Wire, ColoursOf, PadsZero;
    var f := i.frame;
    var n := PixelCount(f.width, f.height);
    ContainerRoundTrip(spec.codec, spec.quality, f, i.req, i.blob);
    var c := Container(spec.codec, f.bigEndian, i.req[..f.dataOff], f.total, f.width, f.height, f.dataLen, i.blob);
    var rgb := UnpackRgb(Pixels(i), n, f.bigEndian);
    UnpackColours(Pixels(i), n, f.bigEndian);
    assert spec.lib.jpegEncode(rgb, f.width, f.height, spec.quality) == Some(i.blob);
    var back := spec.lib.jpegDecode(i.blob).value.rgb;
    var block := PackRgb(back, n, f.bigEndian);
    PackColours(back, n, f.bigEndian);
    ExpandJpeg(spec.lib, i.body, c, back);
    assert block[..f.dataLen] == block;
  }
}
