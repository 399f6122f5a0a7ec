/** The downstream recoder (crates/rx11-core/src/x11recode/mod.rs): the relay
    side turns an X11 byte stream into units, the client side turns each unit
    back into bytes. `Walk` and `Push` are the specification of the machine; the
    class `DownstreamReencoder` is the machine itself. */
module X11Recode {
  import opened Bytes
  import opened X11Frame

  datatype JpegImage = JpegImage(rgb: Bytes, components: nat)

  /** The PNG and JPEG libraries, as uninterpreted functions. */
  datatype Imaging = Imaging(
    pngEncode: Bytes -> Bytes,
    pngDecode: Bytes -> Option<Bytes>,
    jpegEncode: (Bytes, nat, nat, byte) -> Option<Bytes>,
    jpegDecode: Bytes -> Option<JpegImage>)

  /** What is assumed of the libraries: PNG is lossless up to the decoder's size
      limit, JPEG keeps the dimensions and the three channels. An empty PNG
      result is the encoder declining. */
  ghost predicate Lawful(lib: Imaging) {
    && (forall px: Bytes :: lib.pngEncode(px) != [] && |px| <= MAX_RECODE_REQUEST
          ==> lib.pngDecode(lib.pngEncode(px)) == Some(px))
    && (forall rgb: Bytes, w: nat, h: nat, q: byte ::
          var e := lib.jpegEncode(rgb, w, h, q);
          e.Some? && e.value != [] && |rgb| == w * h * 3 ==>
            && lib.jpegDecode(e.value).Some?
            && lib.jpegDecode(e.value).value.components == 3
            && |lib.jpegDecode(e.value).value.rgb| == w * h * 3)
  }

  datatype RecodeSpec = RecodeSpec(lib: Imaging, codec: Codec, quality: byte, minBytes: nat)

  // ------------------------------------------------------- one whole request

  /** A stretch of the application's stream: kept as it is, or recoded into a
      container. */
  datatype Item = Raw(data: Bytes) | Image(req: Bytes, frame: PutImageFrame, blob: Bytes, body: Bytes)

  /** What becomes of one complete request. `Broken` is the panic of the
      classifier's unchecked index. */
  datatype Verdict = Keep(item: Item) | Broken

  function EncodeBlob(spec: RecodeSpec, f: PutImageFrame, pixels: Bytes): Option<Bytes>
    requires PixelCount(f.width, f.height) * 4 <= |pixels|
  {
    match spec.codec
    case Png => Some(spec.lib.pngEncode(pixels))
    case Jpeg =>
      spec.lib.jpegEncode(UnpackRgb(pixels, PixelCount(f.width, f.height), f.bigEndian),
                          f.width, f.height, spec.quality)
  }

  /** The codec's result when it is worth a container. */
  function WorthwhileBlob(spec: RecodeSpec, f: PutImageFrame, pixels: Bytes): (blob: Option<Bytes>)
    requires PixelCount(f.width, f.height) * 4 <= |pixels|
    ensures blob.Some? ==> |blob.value| + 33 + f.dataOff < f.dataLen
  {
    match EncodeBlob(spec, f, pixels)
    case None => None
    case Some(blob) => if blob == [] || |blob| + 1 + 32 + f.dataOff >= f.dataLen then None else Some(blob)
  }

  function Recode(spec: RecodeSpec, f: PutImageFrame, req: Bytes): Item
    requires FrameFits(f, req)
  {
    match WorthwhileBlob(spec, f, req[f.dataOff..f.dataOff + f.dataLen])
    case None => Raw(req)
    case Some(blob) => Image(req, f, blob, EncodeContainer(spec.codec, spec.quality, f, req, blob))
  }

  function Judge(spec: RecodeSpec, bigEndian: bool, req: Bytes): Verdict
    requires |req| >= 4
  {
    match ClassifyPutImage(req, bigEndian)
    case OutOfBounds => Broken
    case NotRecodable => Keep(Raw(req))
    case Recodable(f) =>
      ClassifySound(req, bigEndian);
      if f.dataLen < spec.minBytes then Keep(Raw(req)) else Keep(Recode(spec, f, req))
  }

  // ------------------------------------------------- the stream of requests

  datatype Status = Running | Disabled | Crashed

  datatype Walk = Walk(items: seq<Item>, rest: Bytes, status: Status)

  datatype Framing = NeedMore | Absurd | Request(len: nat)

  /** The request at the head of the buffer, by its length field. */
  function FrameNext(bigEndian: bool, buf: Bytes): (f: Framing)
    ensures f.Request? ==> 4 <= f.len <= |buf| && f.len <= MAX_RECODE_REQUEST
  {
    if |buf| < 4 then NeedMore
    else
      var lenField := U16At(buf, 2, bigEndian);
      if lenField == 0 && |buf| < 8 then NeedMore
      else
        var total: nat := if lenField == 0 then U32At(buf, 4, bigEndian) as int * 4 else lenField as int * 4;
        if !(4 <= total <= MAX_RECODE_REQUEST) then Absurd
        else if |buf| < total then NeedMore
        else Request(total)
  }

  /** Cuts the buffer into complete requests. */
  function Requests(spec: RecodeSpec, bigEndian: bool, buf: Bytes): Walk
    decreases |buf|
  {
    match FrameNext(bigEndian, buf)
    case NeedMore => Walk([], buf, Running)
    case Absurd => Walk([Raw(buf)], [], Disabled)
    case Request(n) =>
      match Judge(spec, bigEndian, buf[..n])
      case Broken => Walk([], [], Crashed)
      case Keep(item) =>
        var w := Requests(spec, bigEndian, buf[n..]);
        Walk([item] + w.items, w.rest, w.status)
  }

  function Consume(spec: RecodeSpec, bigEndian: bool, disabled: bool, buf: Bytes): Walk {
    if disabled then Walk([Raw(buf)], [], Disabled) else Requests(spec, bigEndian, buf)
  }

  // ------------------------------------------------------------ the machine

  datatype Stage = Setup | InRequests

  datatype Machine = Machine(stage: Stage, bigEndian: bool, disabled: bool, crashed: bool, buf: Bytes)

  const FRESH: Machine := Machine(Setup, false, false, false, [])

  predicate X11Start(buf: Bytes) { buf != [] && (buf[0] == 0x42 || buf[0] == 0x6C) }

  function After(m: Machine, w: Walk): Machine {
    m.(buf := w.rest, disabled := w.status == Disabled, crashed := w.status == Crashed)
  }

  /** One push of a read chunk, `buf` being everything buffered with the chunk
      appended: the next machine and the stretches released. */
  function PushAll(spec: RecodeSpec, m: Machine, buf: Bytes): (Machine, seq<Item>) {
    if m.crashed then (m, [])
    else if m.stage == InRequests then
      var w := Consume(spec, m.bigEndian, m.disabled, buf);
      (After(m, w), w.items)
    else if buf != [] && !X11Start(buf) then
      (m.(disabled := true, buf := []), [Raw(buf)])
    else
      match SetupMessageLen(buf)
      case None => (m.(buf := buf), [])
      case Some((bigEndian, len)) =>
        if |buf| < len then (m.(buf := buf), [])
        else
          var w := Consume(spec, bigEndian, m.disabled, buf[len..]);
          (After(m.(stage := InRequests, bigEndian := bigEndian), w), [Raw(buf[..len])] + w.items)
  }

  function Push(spec: RecodeSpec, m: Machine, chunk: Bytes): (Machine, seq<Item>) {
    PushAll(spec, m, m.buf + chunk)
  }

  // ------------------------------------------------------------------ units

  datatype Unit = RawUnit(data: Bytes) | ContainerUnit(body: Bytes)

  function Wire(u: Unit): Bytes {
    match u
    case RawUnit(d) => [0] + d
    case ContainerUnit(b) => [1] + b
  }

  function FlushRaw(acc: Bytes): seq<Unit> {
    if acc == [] then [] else [RawUnit(acc)]
  }

  /** The units for a list of items, adjacent verbatim stretches coalesced;
      `acc` is the verbatim run still open. */
  function Emit(acc: Bytes, items: seq<Item>): seq<Unit>
    decreases |items|
  {
    if items == [] then FlushRaw(acc)
    else match items[0]
      case Raw(d) => Emit(acc + d, items[1..])
      case Image(_, _, _, body) => FlushRaw(acc) + [ContainerUnit(body)] + Emit([], items[1..])
  }

  lemma EmitFirst(acc: Bytes, item: Item, rest: seq<Item>)
    ensures Emit(acc, [item] + rest) ==
            if item.Raw? then Emit(acc + item.data, rest)
            else FlushRaw(acc) + [ContainerUnit(item.body)] + Emit([], rest)
  {
    assert ([item] + rest)[1..] == rest;
  }

  /** Releasing one item takes the units out and the open run from the first
      pair to the second. */
  ghost predicate Released(out0: seq<Unit>, acc0: Bytes, item: Item, out: seq<Unit>, acc: Bytes) {
    if item.Raw? then out == out0 && acc == acc0 + item.data
    else out == out0 + FlushRaw(acc0) + [ContainerUnit(item.body)] && acc == []
  }

  lemma EmitStep(out0: seq<Unit>, acc0: Bytes, item: Item, rest: seq<Item>, out: seq<Unit>, acc: Bytes)
    requires Released(out0, acc0, item, out, acc)
    ensures out + Emit(acc, rest) == out0 + Emit(acc0, [item] + rest)
  {
    EmitFirst(acc0, item, rest);
  }

  // --------------------------------------------------------------- the class

  class DownstreamReencoder {
    const spec: RecodeSpec
    var buf: Bytes
    var rawAcc: Bytes
    var stage: Stage
    var bigEndian: bool
    var disabled: bool
    var crashed: bool

    constructor (spec: RecodeSpec)
      ensures this.spec == spec && View() == FRESH && rawAcc == []
    {
      this.spec := spec;
      buf, rawAcc, stage := [], [], Setup;
      bigEndian, disabled, crashed := false, false, false;
    }

    ghost function View(): Machine
      reads this
    {
      Machine(stage, bigEndian, disabled, crashed, buf)
    }

    /** Feeds one read chunk and appends its units to `out0`. */
    method PushChunk(chunk: Bytes, out0: seq<Unit>) returns (out: seq<Unit>)
      requires rawAcc == []
      modifies this
      ensures rawAcc == []
      ensures View() == Push(spec, old(View()), chunk).0
      ensures !crashed ==> out == out0 + Emit([], Push(spec, old(View()), chunk).1)
    {
      out := out0;
      if crashed { return; }
      buf := buf + chunk;
      match stage {
        case Setup => out := ConsumeSetup(out);
        case InRequests => out := ConsumeRequests(out);
      }
      if crashed {
        rawAcc := [];
        return;
      }
      out := FlushRawUnits(out);
    }

    method FlushRawUnits(out0: seq<Unit>) returns (out: seq<Unit>)
      modifies this`rawAcc
      ensures rawAcc == [] && out == out0 + FlushRaw(old(rawAcc))
    {
      out := out0;
      if rawAcc != [] {
        out := out + [RawUnit(rawAcc)];
        rawAcc := [];
      }
    }

    method ConsumeSetup(out0: seq<Unit>) returns (out: seq<Unit>)
      requires stage == Setup && !crashed && rawAcc == []
      modifies this
      ensures View() == PushAll(spec, old(View()), old(buf)).0
      ensures !crashed ==>
                out + FlushRaw(rawAcc) == out0 + Emit([], PushAll(spec, old(View()), old(buf)).1)
    {
      out := out0;
      ghost var whole := buf;
      if buf != [] && buf[0] != 0x42 && buf[0] != 0x6C {
        disabled := true;
        rawAcc := rawAcc + buf;
        buf := [];
        EmitFirst([], Raw(whole), []);
        return;
      }
      match SetupMessageLen(buf) {
        case None =>
          // The code degrades here when more than 64 KiB are buffered, but a
          // header of 12 octets that starts with a byte order is never refused.
          if |buf| > 64 * 1024 {
            assert false;
          }
        case Some((be, len)) =>
          if |buf| < len { return; }
          bigEndian := be;
          rawAcc := rawAcc + buf[..len];
          buf := buf[len..];
          stage := InRequests;
          EmitFirst([], Raw(whole[..len]), Consume(spec, be, disabled, buf).items);
          out := ConsumeRequests(out);
      }
    }

    method ConsumeRequests(out0: seq<Unit>) returns (out: seq<Unit>)
      requires !crashed
      modifies this`buf, this`rawAcc, this`disabled, this`crashed
      ensures var w := Consume(spec, bigEndian, old(disabled), old(buf));
              && buf == w.rest && disabled == (w.status == Disabled) && crashed == (w.status == Crashed)
              && (!crashed ==> out + FlushRaw(rawAcc) == out0 + Emit(old(rawAcc), w.items))
    {
      out := out0;
      ghost var w0 := Consume(spec, bigEndian, disabled, buf);
      while true
        invariant !crashed
        invariant Consume(spec, bigEndian, disabled, buf).rest == w0.rest
        invariant Consume(spec, bigEndian, disabled, buf).status == w0.status
        invariant out + Emit(rawAcc, Consume(spec, bigEndian, disabled, buf).items)
               == out0 + Emit(old(rawAcc), w0.items)
        decreases |buf|, if disabled then 0 else 1
      {
        if disabled {
          EmitFirst(rawAcc, Raw(buf), []);
          rawAcc := rawAcc + buf;
          buf := [];
          return;
        }
        var head := FrameHead();
        match head {
          case NeedMore => return;
          case Absurd => disabled := true;
          case Request(total) =>
            ghost var acc, out1 := rawAcc, out;
            ghost var next := Requests(spec, bigEndian, buf[total..]);
            out := ForwardRequest(buf[..total], out);
            if crashed {
              buf := [];
              return;
            }
            EmitStep(out1, acc, Judge(spec, bigEndian, buf[..total]).item, next.items, out, rawAcc);
            buf := buf[total..];
        }
      }
    }

    /** Reads the length of the request at the head of the buffer: bytes 2..4,
        in 4-byte units, 0 marking a 32-bit length behind the header. */
    method FrameHead() returns (head: Framing)
      ensures head == FrameNext(bigEndian, buf)
    {
      if |buf| < 4 { return NeedMore; }
      var lenField := U16At(buf, 2, bigEndian);
      var total: nat;
      if lenField == 0 {
        if |buf| < 8 { return NeedMore; }
        total := U32At(buf, 4, bigEndian) as int * 4;
      } else {
        total := lenField as int * 4;
      }
      if !(4 <= total <= MAX_RECODE_REQUEST) { return Absurd; }
      if |buf| < total { return NeedMore; }
      return Request(total);
    }

    /** Classifies one complete request and releases it, recoded or verbatim. */
    method ForwardRequest(req: Bytes, out0: seq<Unit>) returns (out: seq<Unit>)
      requires |req| >= 4 && !crashed
      modifies this`rawAcc, this`crashed
      ensures crashed == Judge(spec, bigEndian, req).Broken?
      ensures !crashed ==>
                Released(out0, old(rawAcc), Judge(spec, bigEndian, req).item, out, rawAcc)
    {
      out := out0;
      var recoded := false;
      match ClassifyPutImage(req, bigEndian) {
        case OutOfBounds =>
          crashed := true;
          return;
        case Recodable(f) =>
          ClassifySound(req, bigEndian);
          if f.dataLen >= spec.minBytes {
            recoded, out := TryRecodeAt(req, f, out);
          }
        case NotRecodable =>
      }
      if !recoded {
        rawAcc := rawAcc + req;
      }
    }

    /** Emits a container for the request when the codec gains, and leaves
        everything as it is otherwise. */
    method TryRecodeAt(req: Bytes, f: PutImageFrame, out0: seq<Unit>) returns (recoded: bool, out: seq<Unit>)
      requires FrameFits(f, req)
      modifies this`rawAcc
      ensures recoded == Recode(spec, f, req).Image?
      ensures !recoded ==> out == out0 && rawAcc == old(rawAcc)
      ensures recoded ==>
                && rawAcc == []
                && out == out0 + FlushRaw(old(rawAcc)) + [ContainerUnit(Recode(spec, f, req).body)]
    {
      out := out0;
      var pixels := req[f.dataOff..f.dataOff + f.dataLen];
      var blob: Bytes;
      match spec.codec {
        case Png => blob := spec.lib.pngEncode(pixels);
        case Jpeg =>
          var rgb := UnpackRgbLoop(f, pixels);
          match spec.lib.jpegEncode(rgb, f.width, f.height, spec.quality) {
            case None => return false, out0;
            case Some(b) => blob := b;
          }
      }
      if blob == [] { return false, out0; }
      var overhead := 1 + 32 + f.dataOff;
      if |blob| + overhead >= f.dataLen { return false, out0; }
      var container := EncodeContainer(spec.codec, spec.quality, f, req, blob);
      out := FlushRawUnits(out);
      out := out + [ContainerUnit(container)];
      recoded := true;
    }
  }

  // ------------------------------------------------------------ the expander

  /** `Refused` fails the connection; `Fault` is the panic of slicing a decoded
      image that is smaller than the container claims. */
  datatype Expansion = Expanded(data: Bytes) | Refused | Fault

  function Expand(lib: Imaging, payload: Bytes): Expansion {
    if payload == [] then Expanded([])
    else if payload[0] == 0 then Expanded(payload[1..])
    else if payload[0] == 1 then
      match DecodeContainer(payload[1..])
      case None => Refused
      case Some(c) =>
        match c.codec
        case Png =>
          (match lib.pngDecode(c.blob)
           case None => Refused
           case Some(pixels) =>
             if |pixels| != c.dataLen then Refused else Expanded(RebuildRequest(c, pixels)))
        case Jpeg =>
          (match lib.jpegDecode(c.blob)
           case None => Refused
           case Some(img) =>
             if img.components != 3 then Refused
             else if |img.rgb| < c.width * c.height * 3 then Fault
             else
               var pixels := PackRgb(img.rgb, c.width * c.height, c.bigEndian);
               if |pixels| != c.dataLen then Refused else Expanded(RebuildRequest(c, pixels)))
    else Refused
  }

  /** What the client writes to the local X server: nothing at all once a unit
      cannot be expanded. */
  function ExpandAll(lib: Imaging, units: seq<Unit>): Option<Bytes> {
    if units == [] then Some([])
    else
      match Expand(lib, Wire(units[0]))
      case Expanded(d) =>
        (match ExpandAll(lib, units[1..])
         case None => None
         case Some(rest) => Some(d + rest))
      case _ => None
  }
}
