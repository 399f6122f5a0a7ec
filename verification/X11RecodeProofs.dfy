/** What the recoder promises: no byte of the application's stream is lost,
    reordered or changed between the two ends, however the stream is cut into
    reads. */
module X11RecodeProofs {
  import opened Bytes
  import opened X11Frame
  import opened X11Recode

  // ------------------------------------------------ every item is well made

  /** A recoded request was classified as an image, its body is the container of
      the codec's blob, and the unit is strictly smaller than the pixel block. */
  ghost predicate Sound(spec: RecodeSpec, i: Item) {
    i.Image? ==>
      && Recognized(i.frame, i.req) && i.frame.total == |i.req|
      && ClassifyPutImage(i.req, i.frame.bigEndian) == Recodable(i.frame)
      && WorthwhileBlob(spec, i.frame, Pixels(i)) == Some(i.blob)
      && i.body == EncodeContainer(spec.codec, spec.quality, i.frame, i.req, i.blob)
      && |Wire(ContainerUnit(i.body))| < i.frame.dataLen
  }

  function Pixels(i: Item): Bytes
    requires i.Image? && FrameFits(i.frame, i.req)
  {
    i.req[i.frame.dataOff..i.frame.dataOff + i.frame.dataLen]
  }

  ghost predicate AllSound(spec: RecodeSpec, items: seq<Item>) {
    forall i :: 0 <= i < |items| ==> Sound(spec, items[i])
  }

  /** The classifier panics on exactly one family of framed requests: a ZPixmap
      PutImage shorter than its own fixed part. */
  lemma PanicsExactly(spec: RecodeSpec, bigEndian: bool, buf: Bytes)
    requires FrameNext(bigEndian, buf).Request?
    ensures var req := buf[..FrameNext(bigEndian, buf).len];
            Judge(spec, bigEndian, req).Broken? <==>
              && req[0] == OP_PUT_IMAGE && req[1] == FORMAT_ZPIXMAP
              && if U16At(req, 2, bigEndian) != 0 then |req| < 24 else 8 <= |req| < 28
  {
    var n := FrameNext(bigEndian, buf).len;
    var req := buf[..n];
    if U16At(req, 2, bigEndian) == 0 {
      assert n >= 8 ==> U32At(req, 4, bigEndian) as int * 4 == n;
    }
  }

  lemma RecodeSound(spec: RecodeSpec, f: PutImageFrame, req: Bytes)
    requires f.total == |req| && Recognized(f, req)
    requires ClassifyPutImage(req, f.bigEndian) == Recodable(f)
    ensures Sound(spec, Recode(spec, f, req)) && Source(Recode(spec, f, req)) == req
  {
    hide ClassifyPutImage, WorthwhileBlob, EncodeContainer, HeaderWord;
    var i := Recode(spec, f, req);
    if i.Image? {
      ContainerHeader(spec.codec, spec.quality, f, req, i.blob);
      assert |Wire(ContainerUnit(i.body))| == 1 + |i.body|;
    }
  }

  lemma ClassifiedWhole(bigEndian: bool, buf: Bytes)
    requires FrameNext(bigEndian, buf).Request?
    ensures var req := buf[..FrameNext(bigEndian, buf).len];
            ClassifyPutImage(req, bigEndian).Recodable? ==>
              var f := ClassifyPutImage(req, bigEndian).frame;
              Recognized(f, req) && f.total == |req| && f.bigEndian == bigEndian
  {
    var req := buf[..FrameNext(bigEndian, buf).len];
    if ClassifyPutImage(req, bigEndian).Recodable? {
      ClassifySound(req, bigEndian);
    }
  }

  lemma JudgeSound(spec: RecodeSpec, bigEndian: bool, buf: Bytes)
    requires FrameNext(bigEndian, buf).Request?
    ensures var v := Judge(spec, bigEndian, buf[..FrameNext(bigEndian, buf).len]);
            v.Keep? ==> Sound(spec, v.item) && Source(v.item) == buf[..FrameNext(bigEndian, buf).len]
  {
    hide ClassifyPutImage, Recode, FrameNext;
    ClassifiedWhole(bigEndian, buf);
    var req := buf[..FrameNext(bigEndian, buf).len];
    if ClassifyPutImage(req, bigEndian).Recodable? {
      RecodeSound(spec, ClassifyPutImage(req, bigEndian).frame, req);
    }
  }

  // ----------------------------------------------------------- conservation

  function Source(i: Item): Bytes { if i.Raw? then i.data else i.req }

  /** The application's bytes the items stand for. */
  function Src(items: seq<Item>): Bytes {
    if items == [] then [] else Source(items[0]) + Src(items[1..])
  }

  lemma {:induction false} SrcAppend(a: seq<Item>, b: seq<Item>)
    ensures Src(a + b) == Src(a) + Src(b)
  {
    if a == [] {
      assert a + b == b;
    } else {
      SrcAppend(a[1..], b);
      assert (a + b)[0] == a[0] && (a + b)[1..] == a[1..] + b;
      Assoc(Source(a[0]), Src(a[1..]), Src(b));
    }
  }

  lemma SrcFirst(i: Item, rest: seq<Item>)
    ensures Src([i] + rest) == Source(i) + Src(rest)
    ensures i.Raw? ==> Src([i]) == i.data
  {
    assert ([i] + rest)[1..] == rest;
    assert Src([i]) == Source(i) + [];
  }

  lemma NeedMoreShort(bigEndian: bool, buf: Bytes)
    ensures FrameNext(bigEndian, buf) == NeedMore ==> |buf| < MAX_RECODE_REQUEST
  {
  }

  /** A walk of the buffer loses nothing, and stops at an unfinished request. */
  ghost predicate Conserves(spec: RecodeSpec, bigEndian: bool, buf: Bytes, w: Walk) {
    && AllSound(spec, w.items)
    && |w.rest| < MAX_RECODE_REQUEST
    && (w.status != Crashed ==> Src(w.items) + w.rest == buf)
    && (w.status != Running ==> w.rest == [])
    && (w.status != Crashed ==> FrameNext(bigEndian, w.rest) == NeedMore)
  }

  lemma ConservesFirst(spec: RecodeSpec, bigEndian: bool, item: Item, buf: Bytes, w: Walk)
    requires Sound(spec, item) && Conserves(spec, bigEndian, buf, w)
    ensures Conserves(spec, bigEndian, Source(item) + buf, Walk([item] + w.items, w.rest, w.status))
  {
    hide Sound, Src, FrameNext;
    SrcFirst(item, w.items);
    Assoc(Source(item), Src(w.items), w.rest);
  }

  lemma ConservesRaw(spec: RecodeSpec, bigEndian: bool, buf: Bytes)
    ensures Conserves(spec, bigEndian, buf, Walk([Raw(buf)], [], Disabled))
  {
    SrcFirst(Raw(buf), []);
  }

  lemma {:induction false} RequestsConserve(spec: RecodeSpec, bigEndian: bool, buf: Bytes)
    ensures Conserves(spec, bigEndian, buf, Requests(spec, bigEndian, buf))
    decreases |buf|
  {
    hide Judge, Sound, Source, Src, FrameNext;
    ReleaseRaw(spec, [], []);
    var fr := FrameNext(bigEndian, buf);
    match fr {
      case NeedMore =>
        NeedMoreShort(bigEndian, buf);
        assert [] + buf == buf;
      case Absurd =>
        ConservesRaw(spec, bigEndian, buf);
      case Request(n) =>
        JudgeSound(spec, bigEndian, buf);
        RequestsConserve(spec, bigEndian, buf[n..]);
        var v := Judge(spec, bigEndian, buf[..n]);
        if v.Keep? {
          ConservesFirst(spec, bigEndian, v.item, buf[n..], Requests(spec, bigEndian, buf[n..]));
          assert buf == buf[..n] + buf[n..];
        }
    }
  }

  /** What holds of a machine between pushes: only an unfinished setup request
      or an unfinished request is ever withheld, and less than one limit. */
  ghost predicate MachineOk(m: Machine) {
    && |m.buf| < MAX_RECODE_REQUEST
    && (m.crashed ==> m.buf == [])
    && (m.stage == Setup ==> m.buf == [] || X11Start(m.buf))
    && (m.stage == Setup && SetupMessageLen(m.buf).Some? ==> |m.buf| < SetupMessageLen(m.buf).value.1)
    && (m.stage == InRequests && m.disabled ==> m.buf == [])
    && (m.stage == InRequests && !m.crashed ==> FrameNext(m.bigEndian, m.buf) == NeedMore)
  }

  lemma ConsumeOk(spec: RecodeSpec, bigEndian: bool, disabled: bool, buf: Bytes)
    ensures Conserves(spec, bigEndian, buf, Consume(spec, bigEndian, disabled, buf))
  {
    ConservesRaw(spec, bigEndian, buf);
    RequestsConserve(spec, bigEndian, buf);
  }

  lemma ReleaseRaw(spec: RecodeSpec, d: Bytes, rest: seq<Item>)
    requires AllSound(spec, rest)
    ensures AllSound(spec, [Raw(d)] + rest) && AllSound(spec, [Raw(d)]) && AllSound(spec, [])
    ensures Src([Raw(d)] + rest) == d + Src(rest) && Src([Raw(d)]) == d && Src([]) == []
  {
    SrcFirst(Raw(d), rest);
  }

  lemma SetupShort(buf: Bytes)
    ensures buf == [] ==> SetupMessageLen(buf) == None
    ensures X11Start(buf) && SetupMessageLen(buf) == None ==> |buf| < SETUP_HEADER_LEN
  {
  }

  lemma PushOk(spec: RecodeSpec, m: Machine, chunk: Bytes)
    requires MachineOk(m)
    ensures var (m', items) := Push(spec, m, chunk);
            && MachineOk(m') && AllSound(spec, items)
            && (!m'.crashed ==> Src(items) + m'.buf == m.buf + chunk)
            && (m.crashed ==> m'.crashed)
  {
    hide Consume, SetupMessageLen, FrameNext, Src, Sound;
    var buf := m.buf + chunk;
    SetupShort(buf);
    SetupShort([]);
    ReleaseRaw(spec, buf, []);
    if m.stage == InRequests {
      ConsumeOk(spec, m.bigEndian, m.disabled, buf);
    } else if SetupMessageLen(buf).Some? && SetupMessageLen(buf).value.1 <= |buf| {
      var (be, len) := SetupMessageLen(buf).value;
      ConsumeOk(spec, be, m.disabled, buf[len..]);
      ReleaseRaw(spec, buf[..len], Consume(spec, be, m.disabled, buf[len..]).items);
      assert buf == buf[..len] + buf[len..];
    }
  }

  // ------------------------------------------------------------------- runs

  /** The machine after a list of read chunks. */
  function Run(spec: RecodeSpec, chunks: seq<Bytes>): Machine {
    if chunks == [] then FRESH
    else Push(spec, Run(spec, chunks[..|chunks| - 1]), chunks[|chunks| - 1]).0
  }

  /** The items released over the run. */
  function RunItems(spec: RecodeSpec, chunks: seq<Bytes>): seq<Item> {
    if chunks == [] then []
    else
      var front := chunks[..|chunks| - 1];
      RunItems(spec, front) + Push(spec, Run(spec, front), chunks[|chunks| - 1]).1
  }

  /** The units sent over the run: each push closes its own verbatim stretch. */
  function RunUnits(spec: RecodeSpec, chunks: seq<Bytes>): seq<Unit> {
    if chunks == [] then []
    else
      var front := chunks[..|chunks| - 1];
      RunUnits(spec, front) + Emit([], Push(spec, Run(spec, front), chunks[|chunks| - 1]).1)
  }

  /** Over every run: less than one request limit is withheld, only images are
      recoded and only at a gain, and the released stretches followed by the
      withheld bytes are the bytes pushed. */
  lemma {:induction false} RunConserves(spec: RecodeSpec, chunks: seq<Bytes>)
    ensures var m := Run(spec, chunks);
            && MachineOk(m)
            && AllSound(spec, RunItems(spec, chunks))
            && (!m.crashed ==> Src(RunItems(spec, chunks)) + m.buf == Flat(chunks))
  {
    hide Push, Sound, FrameNext, SetupMessageLen, Src;
    SetupShort([]);
    ReleaseRaw(spec, [], []);
    if chunks == [] {
      assert Run(spec, chunks) == FRESH && RunItems(spec, chunks) == [] && Flat(chunks) == [];
    } else {
      var front, last := chunks[..|chunks| - 1], chunks[|chunks| - 1];
      RunConserves(spec, front);
      PushOk(spec, Run(spec, front), last);
      var before := RunItems(spec, front);
      var (m, now) := Push(spec, Run(spec, front), last);
      SrcAppend(before, now);
      FlatSnoc(front, last);
      assert chunks == front + [last];
      if !m.crashed {
        assert Src(before) + Src(now) + m.buf == Src(before) + (Run(spec, front).buf + last);
      }
    }
  }

  // --------------------------------------------------------- expanding units

  lemma ExpandRaw(lib: Imaging, d: Bytes)
    ensures Expand(lib, Wire(RawUnit(d))) == Expanded(d)
  {
    assert ([0] + d)[1..] == d;
  }

  lemma {:induction false} ExpandAppend(lib: Imaging, a: seq<Unit>, b: seq<Unit>)
    ensures ExpandAll(lib, a + b) ==
            if ExpandAll(lib, a).Some? && ExpandAll(lib, b).Some?
            then Some(ExpandAll(lib, a).value + ExpandAll(lib, b).value) else None
  {
    hide Expand, Wire;
    if a == [] {
      assert a + b == b && ExpandAll(lib, a) == Some([]);
      assert ExpandAll(lib, b).Some? ==> [] + ExpandAll(lib, b).value == ExpandAll(lib, b).value;
    } else {
      ExpandAppend(lib, a[1..], b);
      assert (a + b)[0] == a[0] && (a + b)[1..] == a[1..] + b;
      var e, x, y := Expand(lib, Wire(a[0])), ExpandAll(lib, a[1..]), ExpandAll(lib, b);
      if e.Expanded? && x.Some? && y.Some? {
        assert e.data + (x.value + y.value) == e.data + x.value + y.value;
      }
    }
  }

  /** A request that survives the lossless tier: sides within the decoder's
      limit, and nothing but zeros behind the pixel block. */
  ghost predicate Faithful(i: Item) {
    i.Image? ==>
      && i.frame.width <= MAX_SIDE && i.frame.height <= MAX_SIDE
      && forall k :: i.frame.dataOff + i.frame.dataLen <= k < |i.req| ==> i.req[k] == 0
  }

  /** The codec gives back what it was handed: PNG as a lawful library does, JPEG
      when it is asked to lose nothing and does. */
  ghost predicate Exact(spec: RecodeSpec) {
    spec.codec.Jpeg? ==>
      forall rgb: Bytes, w: nat, h: nat ::
        var e := spec.lib.jpegEncode(rgb, w, h, spec.quality);
        e.Some? && e.value != [] && |rgb| == w * h * 3 ==> spec.lib.jpegDecode(e.value) == Some(JpegImage(rgb, 3))
  }

  /** A request that comes back as it was from an exact codec: JPEG carries colours
      only, so there the octet that has none must be zero in every pixel. */
  ghost predicate Restorable(spec: RecodeSpec, i: Item) {
    && Faithful(i)
    && (i.Image? && spec.codec.Jpeg? ==>
          FrameFits(i.frame, i.req) && PadsZero(Pixels(i), PixelCount(i.frame.width, i.frame.height), i.frame.bigEndian))
  }

  /** The block an exact codec leaves of the request's own. */
  function Regained(spec: RecodeSpec, i: Item): (px: Bytes)
    requires i.Image? && FrameFits(i.frame, i.req)
    ensures |px| == i.frame.dataLen
  {
    var n := PixelCount(i.frame.width, i.frame.height);
    if spec.codec.Png? then Pixels(i) else PackRgb(UnpackRgb(Pixels(i), n, i.frame.bigEndian), n, i.frame.bigEndian)
  }

  function ExpandItem(lib: Imaging, i: Item): Expansion
    requires i.Image?
  {
    Expand(lib, Wire(ContainerUnit(i.body)))
  }

  lemma ExpandUndecoded(lib: Imaging, body: Bytes)
    requires DecodeContainer(body) == None
    ensures Expand(lib, Wire(ContainerUnit(body))) == Refused
  {
    hide DecodeContainer;
    assert Wire(ContainerUnit(body))[1..] == body;
  }

  lemma ExpandPng(lib: Imaging, body: Bytes, c: Container, pixels: Bytes)
    requires DecodeContainer(body) == Some(c) && c.codec.Png?
    requires lib.pngDecode(c.blob) == Some(pixels) && |pixels| == c.dataLen
    ensures Expand(lib, Wire(ContainerUnit(body))) == Expanded(RebuildRequest(c, pixels))
  {
    hide DecodeContainer, RebuildRequest, PackRgb;
    assert Wire(ContainerUnit(body))[1..] == body;
  }

  lemma ExpandJpeg(lib: Imaging, body: Bytes, c: Container, rgb: Bytes)
    requires DecodeContainer(body) == Some(c) && c.codec.Jpeg?
    requires lib.jpegDecode(c.blob) == Some(JpegImage(rgb, 3)) && |rgb| >= c.width * c.height * 3
    requires |PackRgb(rgb, c.width * c.height, c.bigEndian)| == c.dataLen
    ensures Expand(lib, Wire(ContainerUnit(body)))
         == Expanded(RebuildRequest(c, PackRgb(rgb, c.width * c.height, c.bigEndian)))
  {
    hide DecodeContainer, RebuildRequest, PackRgb;
    assert Wire(ContainerUnit(body))[1..] == body;
  }

  /** What the client makes of a container, under either codec: the header and
      the length of the original request, its pixel block as the codec returns
      it, and zeros behind. Over-sized images are refused. */
  lemma ExpandImage(spec: RecodeSpec, i: Item)
    requires Lawful(spec.lib) && i.Image? && Sound(spec, i)
    ensures var f := i.frame;
            if f.width > MAX_SIDE || f.height > MAX_SIDE then ExpandItem(spec.lib, i) == Refused
            else exists pixels: Bytes ::
              && |pixels| == f.dataLen
              && (Exact(spec) ==> pixels == Regained(spec, i))
              && ExpandItem(spec.lib, i)
                 == Expanded(i.req[..f.dataOff] + pixels + Zeros(|i.req| - f.dataOff - f.dataLen))
  {
    hide ClassifyPutImage, EncodeContainer, DecodeContainer, UnpackRgb, PackRgb, Zeros, Expand, Wire;
    var f := i.frame;
    ContainerRoundTrip(spec.codec, spec.quality, f, i.req, i.blob);
    if f.width > MAX_SIDE || f.height > MAX_SIDE {
      ExpandUndecoded(spec.lib, i.body);
    } else {
      var c := Container(spec.codec, f.bigEndian, i.req[..f.dataOff], f.total,
                         f.width, f.height, f.dataLen, i.blob);
      var pixels: Bytes;
      match spec.codec {
        case Png =>
          pixels := Pixels(i);
          ExpandPng(spec.lib, i.body, c, pixels);
        case Jpeg =>
          var n := PixelCount(f.width, f.height);
          var rgb := UnpackRgb(Pixels(i), n, f.bigEndian);
          assert spec.lib.jpegEncode(rgb, f.width, f.height, spec.quality) == Some(i.blob);
          var back := spec.lib.jpegDecode(i.blob).value.rgb;
          pixels := PackRgb(back, n, f.bigEndian);
          ExpandJpeg(spec.lib, i.body, c, back);
      }
      assert pixels[..f.dataLen] == pixels;
    }
  }

  lemma RegainedExactly(spec: RecodeSpec, i: Item)
    requires i.Image? && FrameFits(i.frame, i.req)
    ensures Restorable(spec, i) <==> Faithful(i) && Regained(spec, i) == Pixels(i)
  {
    hide Faithful, UnpackRgb, PackRgb, PadsZero;
    var n := PixelCount(i.frame.width, i.frame.height);
    PackAfterUnpack(Pixels(i), n, i.frame.bigEndian);
    assert Pixels(i)[..n * 4] == Pixels(i);
  }

  /** With an exact codec a request is restored exactly when it is restorable;
      whatever the client does produce has the original length. */
  lemma ExpandImageExact(spec: RecodeSpec, i: Item)
    requires Lawful(spec.lib) && i.Image? && Sound(spec, i)
    ensures ExpandItem(spec.lib, i).Expanded? ==> |ExpandItem(spec.lib, i).data| == |i.req|
    ensures Exact(spec) ==> (ExpandItem(spec.lib, i) == Expanded(i.req) <==> Restorable(spec, i))
  {
    hide ClassifyPutImage, EncodeContainer, WorthwhileBlob, Expand, ExpandItem, Lawful, Exact, Restorable, Regained, Zeros;
    ExpandImage(spec, i);
    RegainedExactly(spec, i);
    var f := i.frame;
    if f.width <= MAX_SIDE && f.height <= MAX_SIDE {
      SameRequest(i.req, f.dataOff, f.dataOff + f.dataLen, Regained(spec, i));
    }
  }

  /** Rebuilding with a block and zeros gives the request exactly when the block is its own
      and zeros stand behind it. */
  lemma SameRequest(req: Bytes, off: nat, end: nat, px: Bytes)
    requires off <= end <= |req| && |px| == end - off
    ensures req[..off] + px + Zeros(|req| - end) == req <==> px == req[off..end] && forall k :: end <= k < |req| ==> req[k] == 0
  {
    hide Zeros;
    var tail := req[end..];
    assert req == req[..off] + req[off..end] + tail;
    SplitEqual(req[..off] + px, Zeros(|tail|), req[..off] + req[off..end], tail);
    SplitEqual(req[..off], px, req[..off], req[off..end]);
    ZeroTail(req, end);
  }

  lemma ZeroTail(req: Bytes, from: nat)
    requires from <= |req|
    ensures req[from..] == Zeros(|req| - from) <==> forall k :: from <= k < |req| ==> req[k] == 0
  {
    var tail := req[from..];
    assert forall k :: from <= k < |req| ==> req[k] == tail[k - from];
    assert forall j :: 0 <= j < |tail| ==> tail[j] == req[from + j];
  }

  ghost predicate AllFaithful(items: seq<Item>) {
    forall i :: 0 <= i < |items| ==> Faithful(items[i])
  }

  ghost predicate AllRestorable(spec: RecodeSpec, items: seq<Item>) {
    forall i :: 0 <= i < |items| ==> Restorable(spec, items[i])
  }

  lemma ExpandItemIs(lib: Imaging, i: Item)
    requires i.Image?
    ensures ExpandItem(lib, i) == Expand(lib, Wire(ContainerUnit(i.body)))
  {
  }

  lemma ExpandThrough(lib: Imaging, acc: Bytes, c: Unit, tail: seq<Unit>)
    ensures var e, t := Expand(lib, Wire(c)), ExpandAll(lib, tail);
            && ExpandAll(lib, FlushRaw(acc)) == Some(acc)
            && ExpandAll(lib, FlushRaw(acc) + [c] + tail)
               == if e.Expanded? && t.Some? then Some(acc + e.data + t.value) else None
  {
    ExpandRaw(lib, acc);
    hide Expand, Wire;
    assert ExpandAll(lib, FlushRaw(acc)) == Some(acc) by {
      assert [RawUnit(acc)][1..] == [] && acc + [] == acc;
    }
    ExpandAppend(lib, FlushRaw(acc), [c] + tail);
    assert FlushRaw(acc) + [c] + tail == FlushRaw(acc) + ([c] + tail);
    assert ([c] + tail)[1..] == tail;
    var e, t := Expand(lib, Wire(c)), ExpandAll(lib, tail);
    if e.Expanded? && t.Some? {
      assert acc + (e.data + t.value) == acc + e.data + t.value;
    }
  }

  /** What expanding an emission comes to: as many bytes as were released, and
      with an exact codec those very bytes exactly when all are restorable. */
  ghost predicate ExpandsTo(spec: RecodeSpec, e: Option<Bytes>, acc: Bytes, items: seq<Item>) {
    && (e.Some? ==> |e.value| == |acc + Src(items)|)
    && (Exact(spec) ==> (e == Some(acc + Src(items)) <==> AllRestorable(spec, items)))
  }

  lemma ExpandEmitImage(spec: RecodeSpec, acc: Bytes, i: Item, rest: seq<Item>)
    requires Lawful(spec.lib) && i.Image? && Sound(spec, i)
    requires ExpandsTo(spec, ExpandAll(spec.lib, Emit([], rest)), [], rest)
    ensures ExpandsTo(spec, ExpandAll(spec.lib, Emit(acc, [i] + rest)), acc, [i] + rest)
  {
    hide Expand, Sound, Restorable, Exact, Lawful, ExpandAll, Wire, ExpandItem, Emit, Src, AllRestorable;
    EmitFirst(acc, i, rest);
    ExpandImageExact(spec, i);
    ExpandItemIs(spec.lib, i);
    ExpandThrough(spec.lib, acc, ContainerUnit(i.body), Emit([], rest));
    SrcFirst(i, rest);
    RestorableFirst(spec, i, rest);
    var e, t := ExpandItem(spec.lib, i), ExpandAll(spec.lib, Emit([], rest));
    assert acc + (i.req + Src(rest)) == acc + i.req + Src(rest) && [] + Src(rest) == Src(rest);
    if e.Expanded? && t.Some? {
      SplitEqual(acc + e.data, t.value, acc + i.req, Src(rest));
      SplitEqual(acc, e.data, acc, i.req);
    }
  }

  lemma ExpandEmitNone(spec: RecodeSpec, acc: Bytes)
    ensures ExpandsTo(spec, ExpandAll(spec.lib, Emit(acc, [])), acc, [])
  {
    ExpandThrough(spec.lib, acc, RawUnit([]), []);
    assert acc + Src([]) == acc;
  }

  lemma {:induction false} ExpandEmit(spec: RecodeSpec, acc: Bytes, items: seq<Item>)
    requires Lawful(spec.lib) && AllSound(spec, items)
    ensures ExpandsTo(spec, ExpandAll(spec.lib, Emit(acc, items)), acc, items)
    decreases |items|
  {
    hide Sound, Restorable, Exact, Lawful, ExpandAll, Emit, Src, AllRestorable;
    if items == [] {
      ExpandEmitNone(spec, acc);
    } else {
      var i, rest := items[0], items[1..];
      assert items == [i] + rest;
      if i.Raw? {
        ExpandEmit(spec, acc + i.data, rest);
        EmitFirst(acc, i, rest);
        SrcFirst(i, rest);
        RestorableFirst(spec, i, rest);
        assert acc + i.data + Src(rest) == acc + (i.data + Src(rest));
      } else {
        ExpandEmit(spec, [], rest);
        ExpandEmitImage(spec, acc, i, rest);
      }
    }
  }

  lemma {:induction false} RunExpand(spec: RecodeSpec, chunks: seq<Bytes>)
    requires Lawful(spec.lib)
    ensures var e, items := ExpandAll(spec.lib, RunUnits(spec, chunks)), RunItems(spec, chunks);
            && (e.Some? ==> |e.value| == |Src(items)|)
            && (Exact(spec) ==> (e == Some(Src(items)) <==> AllRestorable(spec, items)))
  {
    if chunks != [] {
      var front, last := chunks[..|chunks| - 1], chunks[|chunks| - 1];
      var before, now := RunItems(spec, front), Push(spec, Run(spec, front), last).1;
      RunExpand(spec, front);
      RunConserves(spec, front);
      PushOk(spec, Run(spec, front), last);
      ExpandEmit(spec, [], now);
      ExpandAppend(spec.lib, RunUnits(spec, front), Emit([], now));
      SrcAppend(before, now);
      assert [] + Src(now) == Src(now);
      var e0, e1 := ExpandAll(spec.lib, RunUnits(spec, front)), ExpandAll(spec.lib, Emit([], now));
      if e0.Some? && e1.Some? {
        SplitEqual(e0.value, e1.value, Src(before), Src(now));
      }
      RestorableAppend(spec, before, now);
    }
  }

  lemma RestorableFirst(spec: RecodeSpec, i: Item, rest: seq<Item>)
    ensures AllRestorable(spec, [i] + rest) <==> Restorable(spec, i) && AllRestorable(spec, rest)
    ensures i.Raw? ==> Restorable(spec, i)
  {
    RestorableAppend(spec, [i], rest);
    assert AllRestorable(spec, [i]) <==> Restorable(spec, [i][0]);
  }

  lemma RestorableAppend(spec: RecodeSpec, a: seq<Item>, b: seq<Item>)
    ensures AllRestorable(spec, a + b) <==> AllRestorable(spec, a) && AllRestorable(spec, b)
  {
    hide Restorable;
    var c := a + b;
    assert forall i :: 0 <= i < |a| ==> c[i] == a[i];
    assert forall i :: 0 <= i < |b| ==> b[i] == c[|a| + i];
  }

  /** THE law of an exact codec, in either tier. For every stream and every way of
      reading it, the bytes the client writes followed by the bytes the relay still
      withholds are the bytes the application sent, exactly when every request that was
      recoded is restorable. */
  lemma ExactCodec(spec: RecodeSpec, chunks: seq<Bytes>)
    requires Lawful(spec.lib) && Exact(spec)
    requires !Run(spec, chunks).crashed
    ensures var e := ExpandAll(spec.lib, RunUnits(spec, chunks));
            e.Some? && e.value + Run(spec, chunks).buf == Flat(chunks)
            <==> AllRestorable(spec, RunItems(spec, chunks))
  {
    hide AllRestorable, Exact, Lawful;
    RunExpand(spec, chunks);
    RunConserves(spec, chunks);
    var e, items := ExpandAll(spec.lib, RunUnits(spec, chunks)), RunItems(spec, chunks);
    if e.Some? {
      SplitEqual(e.value, Run(spec, chunks).buf, Src(items), Run(spec, chunks).buf);
    }
  }

  /** THE lossless tier. For every stream and every way of reading it, the bytes
      the client writes followed by the bytes the relay still withholds are the
      bytes the application sent, exactly when every request that was recoded
      has sides the decoder accepts and zeros behind its pixels. */
  lemma Lossless(spec: RecodeSpec, chunks: seq<Bytes>)
    requires Lawful(spec.lib) && spec.codec.Png?
    requires !Run(spec, chunks).crashed
    ensures var e := ExpandAll(spec.lib, RunUnits(spec, chunks));
            e.Some? && e.value + Run(spec, chunks).buf == Flat(chunks)
            <==> AllFaithful(RunItems(spec, chunks))
  {
    hide ExpandAll, Run, RunItems, RunUnits, Lawful;
    ExactCodec(spec, chunks);
    var items := RunItems(spec, chunks);
    assert AllRestorable(spec, items) <==> AllFaithful(items);
  }

  /** Either tier keeps the stream's length: no request is ever lengthened,
      shortened or dropped without the connection failing. */
  lemma LengthKept(spec: RecodeSpec, chunks: seq<Bytes>)
    requires Lawful(spec.lib) && !Run(spec, chunks).crashed
    ensures var e := ExpandAll(spec.lib, RunUnits(spec, chunks));
            e.Some? ==> |e.value| + |Run(spec, chunks).buf| == |Flat(chunks)|
  {
    RunExpand(spec, chunks);
    RunConserves(spec, chunks);
  }

  // ----------------------------------------------- independence of chunking

  /** Adjacent raw units run together; containers stay where they are. */
  function Merge(acc: Bytes, units: seq<Unit>): seq<Unit>
    decreases |units|
  {
    if units == [] then FlushRaw(acc)
    else if units[0].RawUnit? then Merge(acc + units[0].data, units[1..])
    else FlushRaw(acc) + [units[0]] + Merge([], units[1..])
  }

  lemma MergeFlush(acc: Bytes, run: Bytes, units: seq<Unit>)
    ensures Merge(acc, FlushRaw(run) + units) == Merge(acc + run, units)
  {
    if run == [] {
      assert FlushRaw(run) + units == units && acc + run == acc;
    } else {
      assert (FlushRaw(run) + units)[1..] == units;
    }
  }

  lemma {:induction false} MergeOne(acc: Bytes, run: Bytes, items: seq<Item>)
    ensures Merge(acc, Emit(run, items)) == Emit(acc + run, items)
    decreases |items|
  {
    if items == [] {
      MergeFlush(acc, run, []);
      assert FlushRaw(run) + [] == FlushRaw(run);
    } else if items[0].Raw? {
      MergeOne(acc, run + items[0].data, items[1..]);
      assert acc + (run + items[0].data) == acc + run + items[0].data;
    } else {
      var c := [ContainerUnit(items[0].body)];
      var tail := Emit([], items[1..]);
      MergeOne([], [], items[1..]);
      assert Emit(run, items) == FlushRaw(run) + (c + tail);
      MergeFlush(acc, run, c + tail);
      assert (c + tail)[1..] == tail;
    }
  }

  lemma EmitImage(run: Bytes, i: Item, rest: seq<Item>, more: seq<Unit>)
    requires i.Image?
    ensures Emit(run, [i] + rest) + more == FlushRaw(run) + ([ContainerUnit(i.body)] + (Emit([], rest) + more))
  {
    EmitFirst(run, i, rest);
  }

  lemma MergeContainer(acc: Bytes, run: Bytes, c: Unit, tail: seq<Unit>)
    requires c.ContainerUnit?
    ensures Merge(acc, FlushRaw(run) + ([c] + tail)) == FlushRaw(acc + run) + [c] + Merge([], tail)
  {
    MergeFlush(acc, run, [c] + tail);
    assert ([c] + tail)[1..] == tail;
  }

  /** Merging the units of two emissions gives the emission of all their items. */
  lemma {:induction false} MergeEmit(acc: Bytes, run: Bytes, items: seq<Item>, more: seq<Item>)
    ensures Merge(acc, Emit(run, items) + Emit([], more)) == Emit(acc + run, items + more)
    decreases |items|
  {
    hide Merge;
    if items == [] {
      assert items + more == more;
      MergeFlush(acc, run, Emit([], more));
      MergeOne(acc + run, [], more);
      assert acc + run + [] == acc + run;
    } else {
      var i, rest := items[0], items[1..];
      assert items == [i] + rest && items + more == [i] + (rest + more);
      EmitFirst(acc + run, i, rest + more);
      if i.Raw? {
        EmitFirst(run, i, rest);
        MergeEmit(acc, run + i.data, rest, more);
        assert acc + (run + i.data) == acc + run + i.data;
      } else {
        EmitImage(run, i, rest, Emit([], more));
        MergeContainer(acc, run, ContainerUnit(i.body), Emit([], rest) + Emit([], more));
        MergeEmit([], [], rest, more);
      }
    }
  }

  /** Two lists of items that stand for the same stream of containers and
      verbatim runs. */
  ghost predicate SameUnits(a: seq<Item>, b: seq<Item>) {
    forall acc: Bytes :: Emit(acc, a) == Emit(acc, b)
  }

  lemma SameUnitsRefl(a: seq<Item>)
    ensures SameUnits(a, a)
  {
  }

  lemma SameUnitsFirst(i: Item, a: seq<Item>, b: seq<Item>)
    requires SameUnits(a, b)
    ensures SameUnits([i] + a, [i] + b)
  {
    forall acc: Bytes ensures Emit(acc, [i] + a) == Emit(acc, [i] + b) {
      EmitFirst(acc, i, a);
      EmitFirst(acc, i, b);
      if i.Raw? { assert Emit(acc + i.data, a) == Emit(acc + i.data, b); }
      else { assert Emit([], a) == Emit([], b); }
    }
  }

  lemma SameUnitsRaw(x: Bytes, y: Bytes)
    ensures SameUnits([Raw(x + y)], [Raw(x)] + [Raw(y)])
  {
    forall acc: Bytes ensures Emit(acc, [Raw(x + y)]) == Emit(acc, [Raw(x)] + [Raw(y)]) {
      EmitFirst(acc, Raw(x), [Raw(y)]);
      EmitFirst(acc + x, Raw(y), []);
      EmitFirst(acc, Raw(x + y), []);
      assert acc + x + y == acc + (x + y);
    }
  }

  lemma FramingStable(bigEndian: bool, buf: Bytes, more: Bytes)
    ensures var f := FrameNext(bigEndian, buf);
            && (f != NeedMore ==> FrameNext(bigEndian, buf + more) == f)
            && (f.Request? ==> (buf + more)[..f.len] == buf[..f.len] && (buf + more)[f.len..] == buf[f.len..] + more)
  {
    if |buf| >= 4 {
      assert U16At(buf + more, 2, bigEndian) == U16At(buf, 2, bigEndian);
      if |buf| >= 8 {
        assert U32At(buf + more, 4, bigEndian) == U32At(buf, 4, bigEndian);
      }
    }
  }

  /** Walking the requests of a longer buffer resumes where the walk of its
      front stopped. */
  lemma {:induction false} ConsumeAppend(spec: RecodeSpec, be: bool, disabled: bool, buf: Bytes, more: Bytes)
    ensures var w, whole := Consume(spec, be, disabled, buf), Consume(spec, be, disabled, buf + more);
            var resumed := Consume(spec, be, w.status == Disabled, w.rest + more);
            if w.status == Crashed then whole == w
            else whole.rest == resumed.rest && whole.status == resumed.status && SameUnits(whole.items, w.items + resumed.items)
    decreases |buf|
  {
    hide FrameNext, Judge;
    if disabled {
      SameUnitsRaw(buf, more);
      assert [] + more == more;
    } else {
      var f := FrameNext(be, buf);
      FramingStable(be, buf, more);
      match f {
        case NeedMore =>
          var whole := Requests(spec, be, buf + more);
          assert [] + whole.items == whole.items;
        case Absurd =>
          SameUnitsRaw(buf, more);
          assert [] + more == more;
        case Request(n) =>
          var v := Judge(spec, be, buf[..n]);
          ConsumeAppend(spec, be, false, buf[n..], more);
          if v.Keep? {
            var w, next := Requests(spec, be, buf[n..]), Requests(spec, be, buf[n..] + more);
            if w.status != Crashed {
              var resumed := Consume(spec, be, w.status == Disabled, w.rest + more);
              SameUnitsFirst(v.item, next.items, w.items + resumed.items);
              assert [v.item] + (w.items + resumed.items) == [v.item] + w.items + resumed.items;
            }
          }
      }
    }
  }

  /** The machine cannot tell a read from two reads: the chunk `b` does not start
      like a setup request just after a non-X11 start degraded the machine. */
  predicate Seamless(m: Machine, a: Bytes, b: Bytes) {
    || m.crashed || m.stage == InRequests
    || m.buf + a == [] || X11Start(m.buf + a)
    || !X11Start(b)
  }

  lemma SetupStable(buf: Bytes, more: Bytes)
    requires SetupMessageLen(buf).Some?
    ensures SetupMessageLen(buf + more) == SetupMessageLen(buf)
    ensures SetupMessageLen(buf).value.1 <= |buf| ==>
              var len := SetupMessageLen(buf).value.1;
              (buf + more)[..len] == buf[..len] && (buf + more)[len..] == buf[len..] + more
  {
    var be := buf[0] == 0x42;
    assert U16At(buf + more, 6, be) == U16At(buf, 6, be) && U16At(buf + more, 8, be) == U16At(buf, 8, be);
  }

  /** THE chunking law. Reading `a` then `b` leaves the machine as reading them at
      once does exactly when the cut is seamless; it then also sends the same
      containers and the same verbatim runs. */
  lemma PushTwice(spec: RecodeSpec, m: Machine, a: Bytes, b: Bytes)
    requires MachineOk(m)
    ensures var (m1, items1) := Push(spec, m, a);
            var (m2, items2) := Push(spec, m1, b);
            var (m', items) := Push(spec, m, a + b);
            && (m2 == m' <==> Seamless(m, a, b))
            && (Seamless(m, a, b) && !m2.crashed ==> SameUnits(items, items1 + items2))
  {
    hide Consume, SetupMessageLen, SameUnits;
    var buf := m.buf + a;
    SetupShort(buf);
    SetupShort(m.buf);
    assert m.buf + (a + b) == buf + b;
    var (m1, items1) := Push(spec, m, a);
    var (m2, items2) := Push(spec, m1, b);
    var (m', items) := Push(spec, m, a + b);
    assert [] + b == b && [] + items == items;
    if m.crashed {
    } else if m.stage == InRequests {
      ConsumeAppend(spec, m.bigEndian, m.disabled, buf, b);
    } else if buf == [] {
      assert buf + b == b && m1 == m && items1 + items2 == items;
      SameUnitsRefl(items);
    } else if !X11Start(buf) {
      if !X11Start(b) {
        SameUnitsRaw(buf, b);
        if b == [] {
          assert buf + b == buf && items1 + items2 == items;
          SameUnitsRefl(items);
        }
      }
    } else if SetupMessageLen(buf).None? || SetupMessageLen(buf).value.1 > |buf| {
      assert (buf + b)[0] == buf[0];
      assert m1 == m.(buf := buf) && items1 == [];
      SameUnitsRefl(items);
    } else {
      SetupStable(buf, b);
      var (be, len) := SetupMessageLen(buf).value;
      var rest := buf[len..];
      ConsumeAppend(spec, be, m.disabled, rest, b);
      var w, whole := Consume(spec, be, m.disabled, rest), Consume(spec, be, m.disabled, rest + b);
      if w.status != Crashed {
        var resumed := Consume(spec, be, w.status == Disabled, w.rest + b);
        SameUnitsFirst(Raw(buf[..len]), whole.items, w.items + resumed.items);
        assert [Raw(buf[..len])] + (w.items + resumed.items) == [Raw(buf[..len])] + w.items + resumed.items;
      }
    }
  }

  lemma {:induction false} MergeConcat(acc: Bytes, a: seq<Unit>, b: seq<Unit>)
    ensures Merge(acc, a + b) == Merge([], Merge(acc, a) + b)
    decreases |a|
  {
    if a == [] {
      assert a + b == b && [] + acc == acc;
      MergeFlush([], acc, b);
    } else {
      var rest := a[1..];
      assert (a + b)[1..] == rest + b;
      if a[0].RawUnit? {
        MergeConcat(acc + a[0].data, rest, b);
      } else {
        var tail := Merge([], rest) + b;
        MergeConcat([], rest, b);
        assert Merge(acc, a) + b == FlushRaw(acc) + ([a[0]] + tail);
        MergeFlush([], acc, [a[0]] + tail);
        assert ([a[0]] + tail)[1..] == tail && [] + acc == acc;
      }
    }
  }

  lemma {:induction false} MergeRun(spec: RecodeSpec, chunks: seq<Bytes>)
    ensures Merge([], RunUnits(spec, chunks)) == Emit([], RunItems(spec, chunks))
  {
    if chunks != [] {
      var front, last := chunks[..|chunks| - 1], chunks[|chunks| - 1];
      var now := Push(spec, Run(spec, front), last).1;
      MergeRun(spec, front);
      MergeConcat([], RunUnits(spec, front), Emit([], now));
      MergeEmit([], [], RunItems(spec, front), now);
    }
  }

  lemma FreshEmpty(spec: RecodeSpec)
    ensures MachineOk(FRESH) && Push(spec, FRESH, []) == (FRESH, []) && SameUnits([], [])
    ensures Emit([], []) == []
  {
  }

  lemma SameUnitsTrans(a: seq<Item>, b: seq<Item>, c: seq<Item>)
    requires SameUnits(a, b) && SameUnits(b, c)
    ensures SameUnits(a, c) && Emit([], a) == Emit([], c)
  {
    forall acc: Bytes ensures Emit(acc, a) == Emit(acc, c) {
      assert Emit(acc, a) == Emit(acc, b);
    }
  }

  lemma SameUnitsAppend(a: seq<Item>, b: seq<Item>, c: seq<Item>)
    requires SameUnits(a, b)
    ensures SameUnits(a + c, b + c)
  {
    forall acc: Bytes ensures Emit(acc, a + c) == Emit(acc, b + c) {
      MergeEmit(acc, [], a, c);
      MergeEmit(acc, [], b, c);
      assert acc + [] == acc;
    }
  }

  /** For a stream that starts like a setup request, every way of cutting it into
      reads ends in the same machine and sends the same containers and verbatim
      runs as reading it at once. */
  lemma {:induction false} ChunkingIrrelevant(spec: RecodeSpec, chunks: seq<Bytes>)
    requires Flat(chunks) == [] || X11Start(Flat(chunks))
    ensures var (m, items) := Push(spec, FRESH, Flat(chunks));
            && Run(spec, chunks) == m
            && (!m.crashed ==>
                  && SameUnits(items, RunItems(spec, chunks))
                  && Merge([], RunUnits(spec, chunks)) == Emit([], items))
  {
    hide Push, Emit, Merge, MachineOk, SameUnits;
    MergeRun(spec, chunks);
    FreshEmpty(spec);
    if chunks == [] {
      assert RunItems(spec, chunks) == [] && Run(spec, chunks) == FRESH && Flat(chunks) == [];
    } else {
      var front, last := chunks[..|chunks| - 1], chunks[|chunks| - 1];
      assert chunks == front + [last];
      FlatSnoc(front, last);
      assert Flat(front) != [] ==> Flat(front)[0] == Flat(chunks)[0];
      ChunkingIrrelevant(spec, front);
      RunConserves(spec, front);
      PushTwice(spec, FRESH, Flat(front), last);
      PushOk(spec, Run(spec, front), last);
      var (m, now) := Push(spec, Run(spec, front), last);
      var whole := Push(spec, FRESH, Flat(chunks)).1;
      if !m.crashed {
        SameUnitsAppend(Push(spec, FRESH, Flat(front)).1, RunItems(spec, front), now);
        SameUnitsTrans(whole, Push(spec, FRESH, Flat(front)).1 + now, RunItems(spec, chunks));
      }
    }
  }

  /** The client takes two kinds of unit, verbatim and container, and fails the connection
      on any other; an empty payload is nothing to write. */
  lemma KindsExactly(lib: Imaging, payload: Bytes)
    ensures payload == [] ==> Expand(lib, payload) == Expanded([])
    ensures payload != [] && payload[0] == 0 ==> Expand(lib, payload) == Expanded(payload[1..])
    ensures payload != [] && payload[0] == 1 && DecodeContainer(payload[1..]) == None ==> Expand(lib, payload) == Refused
    ensures payload != [] && payload[0] > 1 ==> Expand(lib, payload) == Refused
  {
    hide DecodeContainer, RebuildRequest, PackRgb;
  }

  /** Which container bodies are taken, octet by octet: the magic, version 1, one of two
      codecs, sides from 1 to 8192, a pixel block of exactly that many pixels, all announced
      octets there, and the front of a ZPixmap PutImage. */
  lemma AcceptedExactly(body: Bytes)
    ensures DecodeContainer(body).Some? <==>
              && |body| >= 32 && body[..5] == [0x52, 0x58, 0x49, 0x43, 1] && body[5] in {1, 2}
              && var front, total, width := U32At(body, 8, false), U32At(body, 12, false), U32At(body, 16, false);
                 var height, dataLen, blobLen := U32At(body, 20, false), U32At(body, 24, false), U32At(body, 28, false);
                 && 0 < width <= 8192 && 0 < height <= 8192 && dataLen == width * height * 4
                 && 32 + front + blobLen <= |body| && front + dataLen <= total
                 && front >= 2 && body[32] == 72 && body[33] == 2
  {
    hide U32At;
    if |body| >= 32 {
      assert body[..5] == body[..4] + [body[4]];
      var front := HeaderWord(body, 0) as int;
      if 2 <= front && 32 + front <= |body| {
        assert body[32..32 + front][0] == body[32] && body[32..32 + front][1] == body[33];
      }
    }
  }

  /** What becomes of a container that is taken: it fails the connection exactly when its
      library cannot undo it, gives back another number of channels than three, or another
      number of pixel octets than announced. */
  lemma RefusedExactly(lib: Imaging, body: Bytes)
    requires DecodeContainer(body).Some?
    ensures var c := DecodeContainer(body).value;
            var e := Expand(lib, [1] + body);
            && (c.codec.Png? ==>
                  (e == Refused <==> lib.pngDecode(c.blob) == None || |lib.pngDecode(c.blob).value| != c.dataLen))
            && (c.codec.Jpeg? ==>
                  (e == Refused <==> lib.jpegDecode(c.blob) == None || lib.jpegDecode(c.blob).value.components != 3))
            && (e == Fault <==>
                  && c.codec.Jpeg? && lib.jpegDecode(c.blob).Some? && lib.jpegDecode(c.blob).value.components == 3
                  && |lib.jpegDecode(c.blob).value.rgb| < c.width * c.height * 3)
  {
    hide RebuildRequest, PackRgb;
    assert ([1] + body)[1..] == body;
  }
}
