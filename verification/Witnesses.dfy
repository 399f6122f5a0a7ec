/** Inputs on which the code does not do what its surroundings suggest: one for the
    failing side of each exact law that has one. */
module Witnesses {
  import opened Bytes
  import opened Messages
  import opened FrameCodec
  import opened Transport
  import opened X11Frame
  import opened X11Recode
  import opened X11RecodeProofs
  import Audio

  // ---------------------------------------------------------------- recoder

  /** A framed ZPixmap PutImage of eight octets: classification indexes past its end. */
  lemma ShortPutImagePanics(spec: RecodeSpec)
    ensures var req := [72, 2, 0, 2, 0, 0, 0, 0];
            FrameNext(true, req) == Request(8) && Judge(spec, true, req) == Broken
  {
    var req: Bytes := [72, 2, 0, 2, 0, 0, 0, 0];
    assert U16At(req, 2, true) == 2;
  }

  /** A stream that does not start like X11, cut before an octet that does: read in two
      the machine ends waiting for a setup request, read at once it does not. */
  lemma CutMatters(spec: RecodeSpec)
    ensures Push(spec, Push(spec, FRESH, [0]).0, [0x42]).0 != Push(spec, FRESH, [0] + [0x42]).0
  {
    FreshEmpty(spec);
    PushTwice(spec, FRESH, [0], [0x42]);
    assert [] + [0] == [0];
  }

  /** An imaging library that knows one picture, the black one of `n` octets. */
  function OnePicture(n: nat): Imaging {
    Imaging(px => if px == Zeros(n) then [1] else [],
            blob => if blob == [1] then Some(Zeros(n)) else None,
            (rgb, w, h, q) => None,
            blob => None)
  }

  lemma OnePictureLawful(n: nat)
    ensures X11Recode.Lawful(OnePicture(n))
  {
  }

  const SETUP: Bytes := [0x42, 0, 0, 11, 0, 0, 0, 0, 0, 0, 0, 0]

  function ImageHead(w: nat): (h: Bytes)
    requires w < 60000
    ensures |h| == 24
  {
    [72, 2, (6 + w) / 256, (6 + w) % 256, 0, 0, 0, 0, 0, 0, 0, 0, w / 256, w % 256, 0, 1, 0, 0, 0, 0, 0, 24, 0, 0]
  }

  /** A black image of `w` pixels in one row. */
  function BlackRow(w: nat): Bytes
    requires w < 60000
  {
    ImageHead(w) + Zeros(4 * w)
  }

  function RowSpec(w: nat): RecodeSpec { RecodeSpec(OnePicture(4 * w), Png, 0, 0) }

  lemma RowClassified(w: nat)
    requires 14 < w < 60000
    ensures var req := BlackRow(w);
            && FrameNext(true, req) == Request(|req|)
            && ClassifyPutImage(req, true) == Recodable(PutImageFrame(24, w, 1, 4 * w, |req|, true))
  {
    var req, h := BlackRow(w), ImageHead(w);
    assert forall k :: 0 <= k < 24 ==> req[k] == h[k];
    assert U16At(req, 2, true) == 6 + w && U16At(req, 12, true) == w && U16At(req, 14, true) == 1;
  }

  lemma RowJudged(w: nat)
    requires 14 < w < 60000
    ensures var v := Judge(RowSpec(w), true, BlackRow(w));
            v.Keep? && v.item.Image? && v.item.req == BlackRow(w)
            && v.item.frame == PutImageFrame(24, w, 1, 4 * w, |BlackRow(w)|, true)
  {
    hide ClassifyPutImage, EncodeContainer;
    RowClassified(w);
    var req := BlackRow(w);
    assert req[24..24 + 4 * w] == Zeros(4 * w);
  }

  /** Lossless or not, with a lawful library and one image: the image is recoded, and
      the client writes back what was sent exactly when the row has at most 8192
      pixels. A row of 9000 is refused and fails the connection. */
  lemma RowCrosses(w: nat)
    requires 14 < w < 60000
    ensures var spec, chunks := RowSpec(w), [SETUP + BlackRow(w)];
            && X11Recode.Lawful(spec.lib) && !Run(spec, chunks).crashed && Run(spec, chunks).buf == []
            && (exists i :: i in RunItems(spec, chunks) && i.Image?)
            && (ExpandAll(spec.lib, RunUnits(spec, chunks)) == Some(Flat(chunks)) <==> w <= MAX_SIDE)
  {
    hide Judge, FrameNext, Push, ExpandAll;
    var spec, req, all := RowSpec(w), BlackRow(w), SETUP + BlackRow(w);
    var chunks := [all];
    RowClassified(w);
    RowJudged(w);
    OnePictureLawful(4 * w);
    var item := Judge(spec, true, req).item;
    RowRequests(spec, req, item);
    RowPushed(spec, req, item);
    assert chunks[..0] == [] && Run(spec, chunks) == Push(spec, FRESH, all).0;
    assert RunItems(spec, chunks) == [] + [Raw(SETUP), item];
    assert item in RunItems(spec, chunks);
    assert Flat(chunks) == all + [] == all;
    Lossless(spec, chunks);
    RowFaithful(w, item);
    var e := ExpandAll(spec.lib, RunUnits(spec, chunks));
    assert e.Some? ==> e.value + [] == e.value;
  }

  lemma RowRequests(spec: RecodeSpec, req: Bytes, item: Item)
    requires FrameNext(true, req) == Request(|req|) && Judge(spec, true, req) == Keep(item)
    ensures Requests(spec, true, req) == Walk([item], [], Running)
  {
    assert req[..|req|] == req && req[|req|..] == [];
    assert FrameNext(true, []) == NeedMore;
    assert Requests(spec, true, []) == Walk([], [], Running);
  }

  lemma RowPushed(spec: RecodeSpec, req: Bytes, item: Item)
    requires Requests(spec, true, req) == Walk([item], [], Running)
    ensures Push(spec, FRESH, SETUP + req) == (Machine(InRequests, true, false, false, []), [Raw(SETUP), item])
  {
    hide Requests;
    var buf := SETUP + req;
    assert [] + buf == buf && buf[..12] == SETUP && buf[12..] == req;
    assert U16At(buf, 6, true) == 0 && U16At(buf, 8, true) == 0;
    assert SetupMessageLen(buf) == Some((true, 12));
    assert [Raw(SETUP)] + [item] == [Raw(SETUP), item];
  }

  lemma RowFaithful(w: nat, item: Item)
    requires 14 < w < 60000 && item.Image? && item.req == BlackRow(w)
    requires item.frame == PutImageFrame(24, w, 1, 4 * w, |BlackRow(w)|, true)
    ensures AllFaithful([] + [Raw(SETUP), item]) <==> w <= MAX_SIDE
  {
    var items := [] + [Raw(SETUP), item];
    assert items[0] == Raw(SETUP) && items[1] == item;
  }

  // -------------------------------------------------------------- transport

  /** Eleven zero octets in front of a frame: read together with it they are skipped,
      read alone they fail the connection. */
  lemma GarbageReadAlone(json: JsonParser, f: Frame)
    requires Encodable(f) && WellFormed(json, f)
    ensures Recv(json, Zeros(11), [Encoding(f)]).outcome == NoRecovery
    ensures Recv(json, Zeros(11) + Encoding(f), []).outcome == Received(f)
  {
    hide Encoding, WellFormed, Recv, Encodable;
    var zeros, enc := Zeros(11), Encoding(f);
    EncodingLength(f);
    FlatOne(enc);
    assert zeros + enc + [] == zeros + enc;
    ZerosCorrupt(enc);
    Resync(json, zeros, f, [], zeros, [enc]);
    Resync(json, zeros, f, [], zeros + enc, []);
  }

  lemma FlatOne(b: Bytes)
    ensures Flat([b]) == b && Flat([]) == []
  {
    assert [b][1..] == [] && b + [] == b;
  }

  lemma ZerosCorrupt(more: Bytes)
    ensures Peek(Zeros(11)) == Corrupt && Peek(Zeros(11) + more) == Corrupt
    ensures NoMagicInside(Zeros(11), Zeros(11) + more) && NoMagicInside(Zeros(11), Zeros(11) + more + [])
    ensures [] + more == more && Zeros(11) + more + [] == Zeros(11) + more
  {
    var d := Zeros(11) + more;
    assert d + [] == d;
    assert Zeros(11)[..4][0] == 0 && d[..4][0] == 0;
    forall i | 1 <= i < 11 ensures !MagicAt(d, i) {
      if i + 4 <= |d| { assert d[i..i + 4][0] == d[i]; }
    }
  }

  // ------------------------------------------------------------------ audio

  const WAV_HEADER: Bytes := Audio.RIFF + [0, 0, 0, 0] + Audio.WAVE + Audio.DATA + [0, 0, 0, 0]

  /** A twenty-octet header and 64 KiB of sound: in two reads the header goes, in one it
      is played. */
  lemma HeaderPlayed()
    ensures var sound := Zeros(0x1_0000);
            && Audio.FeedAll([WAV_HEADER, sound]).1 == sound
            && Audio.FeedAll([WAV_HEADER + sound]).1 == WAV_HEADER + sound
  {
    hide Audio.Walk, Audio.IsWav;
    var sound := Zeros(0x1_0000);
    var all := WAV_HEADER + sound;
    assert Audio.IsHeader(WAV_HEADER, [0, 0, 0, 0], [], [0, 0, 0, 0]) by { assert Audio.EncodeAll([]) == []; }
    Audio.HeaderIsWalked(WAV_HEADER, [0, 0, 0, 0], [], [0, 0, 0, 0], sound);
    Audio.HeaderIsWalked(WAV_HEADER, [0, 0, 0, 0], [], [0, 0, 0, 0], []);
    assert WAV_HEADER + [] == WAV_HEADER;
    FeedOnce(all);
    FeedOnce(WAV_HEADER);
    var two := [WAV_HEADER, sound];
    assert two[..1] == [WAV_HEADER] && two[1] == sound;
    assert [] + WAV_HEADER == WAV_HEADER && WAV_HEADER[|WAV_HEADER|..] == [] && [] + all == all;
    var (g, out) := Audio.FeedAll([WAV_HEADER]);
    assert g.decided == Some(|WAV_HEADER|) && out == [] && out + sound == sound;
  }

  lemma FeedOnce(chunk: Bytes)
    ensures Audio.FeedAll([chunk]) == Audio.Feed(Audio.Gate([], None), chunk)
  {
    assert [chunk][..0] == [] && Audio.FeedAll([]) == (Audio.Gate([], None), []);
    var (g, out) := Audio.Feed(Audio.Gate([], None), chunk);
    assert [] + out == out;
  }
}
