/** The recorder's sniffing gate and the packetizer behind it
    (crates/rx11-core/src/audio/mod.rs, `FormatGate` and `Packetizer`; RIFF layout
    as in Multimedia Programming Interface and Data Specifications 1.0, chapter 2). */
module Audio {
  import opened Bytes

  const MAX_HEADER_BYTES: nat := 64 * 1024
  const PCM_FRAME_BYTES: nat := 960 * 2 * 2

  const RIFF: Bytes := [0x52, 0x49, 0x46, 0x46]
  const WAVE: Bytes := [0x57, 0x41, 0x56, 0x45]
  const DATA: Bytes := [0x64, 0x61, 0x74, 0x61]

  // ------------------------------------------------------------------- gate

  predicate IsWav(p: Bytes) { |p| >= 12 && p[0..4] == RIFF && p[8..12] == WAVE }

  /** Where the chunk at `off` ends, its padding included. */
  function ChunkEnd(p: Bytes, off: nat): (end: nat)
    requires off + 8 <= |p|
    ensures end >= off + 8
  {
    var size := U32At(p, off + 4, false);
    off + 8 + size + size % 2
  }

  /** Walks whole chunks from `off` to the end of a data header. */
  function Walk(p: Bytes, off: nat): (k: Option<nat>)
    ensures k.Some? ==> off + 8 <= k.value <= |p|
    decreases |p| - off
  {
    if off + 8 > |p| then None
    else if p[off..off + 4] == DATA then Some(off + 8)
    else Walk(p, ChunkEnd(p, off))
  }

  datatype Gate = Gate(prefix: Bytes, decided: Option<nat>)

  function Feed(g: Gate, more: Bytes): (Gate, Bytes) {
    if g.decided.Some? then (g, more)
    else
      var p := g.prefix + more;
      if |p| >= 12 && !IsWav(p) then (Gate([], Some(0)), p)
      else if |p| >= MAX_HEADER_BYTES then (Gate([], Some(0)), p)
      else if |p| < 12 then (Gate(p, None), [])
      else match Walk(p, 12)
        case Some(k) => (Gate([], Some(k)), p[k..])
        case None => (Gate(p, None), [])
  }

  class FormatGate {
    var prefix: Bytes
    var decided: Option<nat>

    constructor ()
      ensures View() == Gate([], None)
    {
      prefix, decided := [], None;
    }

    ghost function View(): Gate
      reads this
    {
      Gate(prefix, decided)
    }

    method FeedBytes(more: Bytes) returns (audio: Bytes)
      modifies this
      ensures (View(), audio) == Feed(old(View()), more)
    {
      hide ChunkEnd;
      if decided.Some? {
        return more;
      }
      prefix := prefix + more;
      if |prefix| >= 12 && (prefix[0..4] != RIFF || prefix[8..12] != WAVE) {
        audio, prefix, decided := prefix, [], Some(0);
        return;
      }
      if |prefix| >= MAX_HEADER_BYTES {
        audio, prefix, decided := prefix, [], Some(0);
        return;
      }
      if |prefix| < 12 {
        return [];
      }
      var off := 12;
      while off + 8 <= |prefix|
        invariant Walk(prefix, off) == Walk(prefix, 12)
        decreases |prefix| - off
      {
        if prefix[off..off + 4] == DATA {
          audio, prefix, decided := prefix[off + 8..], [], Some(off + 8);
          return;
        }
        off := ChunkEnd(prefix, off);
      }
      return [];
    }
  }

  /** A fresh gate fed a list of chunks: where it stands and all it let through. */
  function FeedAll(chunks: seq<Bytes>): (Gate, Bytes) {
    if chunks == [] then (Gate([], None), [])
    else
      var (g, out) := FeedAll(chunks[..|chunks| - 1]);
      var (g', more) := Feed(g, chunks[|chunks| - 1]);
      (g', out + more)
  }

  // ---------------------------------------------- what a walk depends on

  lemma ChunkEndInside(p: Bytes, n: nat, off: nat)
    requires off + 8 <= n <= |p|
    ensures ChunkEnd(p[..n], off) == ChunkEnd(p, off) && p[..n][off..off + 4] == p[off..off + 4]
  {
    hide U32At;
    assert [] + p[..n] + p[n..] == p;
    ReadInside([], p[..n], p[n..], off + 4, false);
  }

  /** A walk over a prefix of the stream finds the data header exactly when the
      prefix reaches past it. */
  lemma {:induction false} WalkOfPrefix(p: Bytes, n: nat, off: nat)
    requires n <= |p|
    ensures Walk(p[..n], off) == match Walk(p, off) { case None => None case Some(k) => if k <= n then Some(k) else None }
    decreases |p| - off
  {
    hide ChunkEnd;
    if off + 8 <= n {
      ChunkEndInside(p, n, off);
      if p[off..off + 4] != DATA { WalkOfPrefix(p, n, ChunkEnd(p, off)); }
    }
  }

  /** Some read ended past the data header and short of the sniffing limit. */
  ghost predicate SeenWhole(chunks: seq<Bytes>, k: nat) {
    exists i :: 0 <= i <= |chunks| && k <= |Flat(chunks[..i])| < MAX_HEADER_BYTES
  }

  /** The header that is stripped: a whole RIFF walk some read has shown in time. */
  ghost predicate Strips(chunks: seq<Bytes>, k: nat) {
    IsWav(Flat(chunks)) && Walk(Flat(chunks), 12) == Some(k) && SeenWhole(chunks, k)
  }

  ghost predicate Undecided(chunks: seq<Bytes>) {
    && |Flat(chunks)| < MAX_HEADER_BYTES
    && (|Flat(chunks)| >= 12 ==> IsWav(Flat(chunks)) && Walk(Flat(chunks), 12) == None)
  }

  ghost predicate Sniffed(chunks: seq<Bytes>, g: Gate, out: Bytes) {
    match g.decided
    case None => g.prefix == Flat(chunks) && out == [] && Undecided(chunks)
    case Some(k) =>
      if k != 0 then Strips(chunks, k) && out == Flat(chunks)[k..]
      else
        && out == Flat(chunks)
        && (|Flat(chunks)| >= 12 && (IsWav(Flat(chunks)) ==> |Flat(chunks)| >= MAX_HEADER_BYTES))
        && forall j: nat :: !Strips(chunks, j)
  }

  lemma {:induction false} BoundariesGrow(chunks: seq<Bytes>, i: nat)
    requires i <= |chunks|
    ensures |Flat(chunks[..i])| <= |Flat(chunks)|
  {
    assert chunks[..i] + chunks[i..] == chunks;
    FlatAppend(chunks[..i], chunks[i..]);
  }

  lemma SeenWholeSnoc(chunks: seq<Bytes>, c: Bytes, k: nat)
    ensures SeenWhole(chunks + [c], k) <==> SeenWhole(chunks, k) || k <= |Flat(chunks + [c])| < MAX_HEADER_BYTES
  {
    hide Flat;
    var all := chunks + [c];
    assert all[..|all|] == all;
    if i :| 0 <= i <= |all| && k <= |Flat(all[..i])| < MAX_HEADER_BYTES {
      if i < |all| { assert all[..i] == chunks[..i]; }
    }
    if i :| 0 <= i <= |chunks| && k <= |Flat(chunks[..i])| < MAX_HEADER_BYTES {
      assert all[..i] == chunks[..i];
    }
  }

  lemma SeenNothing(chunks: seq<Bytes>, k: nat)
    requires k > |Flat(chunks)|
    ensures !SeenWhole(chunks, k)
  {
    hide Flat;
    if i :| 0 <= i <= |chunks| && k <= |Flat(chunks[..i])| < MAX_HEADER_BYTES {
      BoundariesGrow(chunks, i);
    }
  }

  lemma SameFront(a: Bytes, b: Bytes)
    requires |a| >= 12
    ensures IsWav(a + b) <==> IsWav(a)
  {
    assert (a + b)[0..4] == a[0..4] && (a + b)[8..12] == a[8..12];
  }

  /** A gate that has decided keeps its verdict. */
  lemma DecidedStays(chunks: seq<Bytes>, c: Bytes, g: Gate, out: Bytes)
    requires Sniffed(chunks, g, out) && g.decided.Some?
    ensures Sniffed(chunks + [c], g, out + c)
  {
    hide Flat, Walk, SeenWhole, IsWav;
    var was, now := Flat(chunks), Flat(chunks + [c]);
    FlatSnoc(chunks, c);
    SameFront(was, c);
    assert now[..|was|] == was;
    WalkOfPrefix(now, |was|, 12);
    var k := g.decided.value;
    if k != 0 {
      SeenWholeSnoc(chunks, c, k);
      assert was[k..] + c == now[k..];
    } else {
      forall j: nat | Strips(chunks + [c], j) ensures false {
        SeenWholeSnoc(chunks, c, j);
        assert !Strips(chunks, j);
        if j > |was| { SeenNothing(chunks, j); }
      }
    }
  }

  /** A sniffing gate decides, or goes on, by what it has buffered. */
  lemma UndecidedMoves(chunks: seq<Bytes>, c: Bytes, g: Gate)
    requires Sniffed(chunks, g, []) && g.decided == None
    ensures var (g', out) := Feed(g, c); Sniffed(chunks + [c], g', out)
  {
    hide Flat, Walk, SeenWhole, IsWav;
    var was, now := Flat(chunks), Flat(chunks + [c]);
    FlatSnoc(chunks, c);
    assert now[..|was|] == was;
    WalkOfPrefix(now, |was|, 12);
    if |was| >= 12 { SameFront(was, c); }
    forall j | Walk(now, 12) == Some(j)
      ensures SeenWhole(chunks + [c], j) <==> |now| < MAX_HEADER_BYTES
    {
      SeenWholeSnoc(chunks, c, j);
      SeenNothing(chunks, j);
    }
  }

  lemma {:induction false} Sniffing(chunks: seq<Bytes>)
    ensures var (g, out) := FeedAll(chunks); Sniffed(chunks, g, out)
  {
    hide Sniffed, Feed;
    if chunks == [] {
      NothingFed();
    } else {
      var most, c := chunks[..|chunks| - 1], chunks[|chunks| - 1];
      Sniffing(most);
      var (g, out) := FeedAll(most);
      assert chunks == most + [c];
      FeedMoves(most, c, g, out);
    }
  }

  lemma NothingFed()
    ensures Sniffed([], Gate([], None), [])
  {
  }

  lemma FeedMoves(chunks: seq<Bytes>, c: Bytes, g: Gate, out: Bytes)
    requires Sniffed(chunks, g, out)
    ensures var (g', more) := Feed(g, c); Sniffed(chunks + [c], g', out + more)
  {
    hide Flat, Walk, SeenWhole, IsWav;
    if g.decided.Some? {
      DecidedStays(chunks, c, g, out);
    } else {
      UndecidedMoves(chunks, c, g);
      assert [] + Feed(g, c).1 == Feed(g, c).1;
    }
  }

  // ------------------------------------------------------- the gate's verdict

  /** THE gate law, for every way of cutting the recorder's stream. What came
      through is nothing, or everything, or everything after the header; the header
      goes exactly when the stream is RIFF/WAVE and some read ended past its data
      header while fewer than 64 KiB were buffered. */
  lemma GateExact(chunks: seq<Bytes>)
    ensures var (g, out) := FeedAll(chunks);
            var all := Flat(chunks);
            && (forall k: nat :: k != 0 ==> (g.decided == Some(k) <==> Strips(chunks, k)))
            && (g.decided == None <==> Undecided(chunks))
            && out == match g.decided { case None => [] case Some(k) => if k <= |all| then all[k..] else [] }
            && (g.decided == None ==> g.prefix == all)
  {
    hide Flat, Walk, IsWav, FeedAll;
    Sniffing(chunks);
    forall k: nat | Strips(chunks, k) ensures k > 0 && !Undecided(chunks) {
      if |Flat(chunks)| < 12 { WalkShort(chunks); }
    }
    assert Flat(chunks)[0..] == Flat(chunks);
  }

  lemma WalkShort(chunks: seq<Bytes>)
    requires |Flat(chunks)| < 12
    ensures Walk(Flat(chunks), 12) == None
  {
  }

  /** Two cuttings of one stream that both strip a header strip the same one. */
  lemma SameHeader(a: seq<Bytes>, b: seq<Bytes>)
    requires Flat(a) == Flat(b)
    requires FeedAll(a).0.decided !in {None, Some(0)} && FeedAll(b).0.decided !in {None, Some(0)}
    ensures FeedAll(a).0.decided == FeedAll(b).0.decided && FeedAll(a).1 == FeedAll(b).1
  {
    hide Flat, Walk, IsWav, FeedAll, SeenWhole;
    GateExact(a);
    GateExact(b);
  }

  // ---------------------------------------------------------- RIFF as a grammar

  /** A chunk other than the sound itself: identifier, length, payload, padding to
      an even length. */
  datatype Chunk = Chunk(id: Bytes, payload: Bytes, pad: Bytes)

  predicate WellFormed(c: Chunk) {
    |c.id| == 4 && c.id != DATA && |c.payload| < 0x1_0000_0000 && |c.pad| == |c.payload| % 2
  }

  function Encode(c: Chunk): Bytes
    requires WellFormed(c)
  {
    c.id + Le32(|c.payload|) + c.payload + c.pad
  }

  function EncodeAll(chunks: seq<Chunk>): Bytes
    requires forall k :: 0 <= k < |chunks| ==> WellFormed(chunks[k])
  {
    if chunks == [] then [] else Encode(chunks[0]) + EncodeAll(chunks[1..])
  }

  /** The header in front of the sound: the form type, the other chunks, and the
      identifier and length of the data chunk. */
  ghost predicate IsHeader(h: Bytes, riffSize: Bytes, chunks: seq<Chunk>, dataSize: Bytes) {
    && |riffSize| == 4 && |dataSize| == 4 && (forall k :: 0 <= k < |chunks| ==> WellFormed(chunks[k]))
    && h == RIFF + riffSize + WAVE + EncodeAll(chunks) + DATA + dataSize
  }

  lemma ChunkEndOf(pre: Bytes, c: Chunk, post: Bytes)
    requires WellFormed(c)
    ensures var p := pre + Encode(c) + post;
            && |pre| + 8 <= |p| && p[|pre|..|pre| + 4] == c.id && ChunkEnd(p, |pre|) == |pre| + |Encode(c)|
  {
    hide U32At, Le32;
    var p, at := pre + Encode(c) + post, |pre|;
    assert p[at..at + 4] == c.id;
    assert p[at + 4..at + 8] == Le32(|c.payload|);
    ReadLe32(p, at + 4, |c.payload|);
  }

  lemma Regroup<T>(a: seq<T>, b: seq<T>, c: seq<T>, d: seq<T>, e: seq<T>, f: seq<T>)
    ensures a + (b + c) + d + e + f == a + b + (c + d + e + f) && a + (b + c) + d + e + f == a + b + c + d + e + f
  {
  }

  lemma {:induction false} WalkOfChunks(pre: Bytes, chunks: seq<Chunk>, dataSize: Bytes, post: Bytes)
    requires |dataSize| == 4 && forall k :: 0 <= k < |chunks| ==> WellFormed(chunks[k])
    ensures Walk(pre + EncodeAll(chunks) + DATA + dataSize + post, |pre|) == Some(|pre| + |EncodeAll(chunks)| + 8)
    decreases |chunks|
  {
    hide ChunkEnd, Encode, EncodeAll, Walk;
    var p := pre + EncodeAll(chunks) + DATA + dataSize + post;
    EncodeAllFirst(chunks);
    if chunks == [] {
      assert p[|pre|..|pre| + 4] == DATA;
      WalkStep(p, |pre|);
    } else {
      var first, others := Encode(chunks[0]), EncodeAll(chunks[1..]);
      var tail := others + DATA + dataSize + post;
      Regroup(pre, first, others, DATA, dataSize, post);
      ChunkEndOf(pre, chunks[0], tail);
      WalkStep(p, |pre|);
      WalkOfChunks(pre + first, chunks[1..], dataSize, post);
    }
  }

  lemma WalkStep(p: Bytes, off: nat)
    requires off + 8 <= |p|
    ensures Walk(p, off) == if p[off..off + 4] == DATA then Some(off + 8) else Walk(p, ChunkEnd(p, off))
  {
  }

  lemma EncodeAllFirst(chunks: seq<Chunk>)
    requires forall k :: 0 <= k < |chunks| ==> WellFormed(chunks[k])
    ensures EncodeAll(chunks) == if chunks == [] then [] else Encode(chunks[0]) + EncodeAll(chunks[1..])
  {
  }

  /** Whatever sound follows it, a header of the grammar is walked to its end. */
  lemma HeaderIsWalked(h: Bytes, riffSize: Bytes, chunks: seq<Chunk>, dataSize: Bytes, sound: Bytes)
    requires IsHeader(h, riffSize, chunks, dataSize)
    ensures IsWav(h + sound) && Walk(h + sound, 12) == Some(|h|)
  {
    hide Walk, EncodeAll;
    var pre := RIFF + riffSize + WAVE;
    var p := h + sound;
    assert p[0..4] == RIFF && p[8..12] == WAVE;
    assert p == pre + EncodeAll(chunks) + DATA + dataSize + sound;
    WalkOfChunks(pre, chunks, dataSize, sound);
  }

  lemma FourSlices(p: Bytes, a: nat, b: nat, c: nat, d: nat, e: nat)
    requires a <= b <= c <= d <= e <= |p|
    ensures p[a..e] == p[a..b] + p[b..c] + p[c..d] + p[d..e]
  {
    assert p[a..c] == p[a..b] + p[b..c];
    assert p[a..d] == p[a..c] + p[c..d];
    assert p[a..e] == p[a..d] + p[d..e];
  }

  lemma ParseChunk(p: Bytes, off: nat) returns (c: Chunk)
    requires off + 8 <= |p| && ChunkEnd(p, off) <= |p| && p[off..off + 4] != DATA
    ensures WellFormed(c) && Encode(c) == p[off..ChunkEnd(p, off)]
  {
    hide U32At, Le32;
    var size := U32At(p, off + 4, false);
    c := Chunk(p[off..off + 4], p[off + 8..off + 8 + size], p[off + 8 + size..ChunkEnd(p, off)]);
    LengthOf(p, off + 4);
    assert Le32(|c.payload|) == p[off + 4..off + 8];
    FourSlices(p, off, off + 4, off + 8, off + 8 + size, ChunkEnd(p, off));
  }

  lemma LengthOf(p: Bytes, at: nat)
    requires at + 4 <= |p|
    ensures Le32(U32At(p, at, false)) == p[at..at + 4]
  {
    hide Word, Le32;
    OctetsOfWord(p[at + 3], p[at + 2], p[at + 1], p[at]);
  }

  lemma {:induction false} ParseChunks(p: Bytes, off: nat, k: nat) returns (chunks: seq<Chunk>)
    requires off <= |p| && Walk(p, off) == Some(k)
    ensures off <= k - 8 && k <= |p| && (forall i :: 0 <= i < |chunks| ==> WellFormed(chunks[i]))
    ensures p[off..k] == EncodeAll(chunks) + DATA + p[k - 4..k]
    decreases |p| - off
  {
    hide ChunkEnd, Encode;
    if p[off..off + 4] == DATA {
      chunks := [];
      assert p[off..k] == p[off..off + 4] + p[k - 4..k];
    } else {
      var end := ChunkEnd(p, off);
      var others := ParseChunks(p, end, k);
      var c := ParseChunk(p, off);
      chunks := [c] + others;
      assert chunks[1..] == others;
      assert p[off..k] == p[off..end] + p[end..k];
      assert Encode(c) + (EncodeAll(others) + DATA + p[k - 4..k]) == Encode(c) + EncodeAll(others) + DATA + p[k - 4..k];
    }
  }

  lemma WalkedIsHeader(p: Bytes, k: nat) returns (chunks: seq<Chunk>)
    requires IsWav(p) && Walk(p, 12) == Some(k)
    ensures 12 <= k - 8 && k <= |p| && IsHeader(p[..k], p[4..8], chunks, p[k - 4..k])
  {
    hide Walk, EncodeAll;
    chunks := ParseChunks(p, 12, k);
    FourSlices(p, 0, 4, 8, 12, k);
    assert p[0..k] == p[..k];
    var pre := RIFF + p[4..8] + WAVE;
    Assoc(pre, EncodeAll(chunks) + DATA, p[k - 4..k]);
    Assoc(pre, EncodeAll(chunks), DATA);
  }

  /** THE header law: the walk stops at `k` exactly when the first `k` bytes are a
      RIFF/WAVE header of the grammar, so there is at most one such prefix. */
  lemma WalkIsGrammar(p: Bytes, k: nat)
    requires k <= |p|
    ensures IsWav(p) && Walk(p, 12) == Some(k) <==>
            exists riffSize, chunks, dataSize :: IsHeader(p[..k], riffSize, chunks, dataSize)
  {
    hide Walk, IsWav, IsHeader;
    if IsWav(p) && Walk(p, 12) == Some(k) {
      var chunks := WalkedIsHeader(p, k);
      assert IsHeader(p[..k], p[4..8], chunks, p[k - 4..k]);
    }
    assert p == p[..k] + p[k..];
    if riffSize, chunks, dataSize :| IsHeader(p[..k], riffSize, chunks, dataSize) {
      HeaderIsWalked(p[..k], riffSize, chunks, dataSize, p[k..]);
    }
  }

  // ------------------------------------------------------------- packetizer

  datatype Packet = Packet(number: u32, data: Bytes)

  /** The encoder is foreign and keeps state: what it makes of a block depends on
      the blocks before it, and it may fail. */
  type Encoder = (seq<Bytes>, Bytes) -> Option<Bytes>

  /** `fed` stands for the encoder's state: the blocks it has been handed. */
  datatype Pack = Pack(carry: Bytes, number: u32, fed: seq<Bytes>, sent: seq<Packet>)

  function TakeBlock(enc: Encoder, s: Pack): Pack
    requires |s.carry| >= PCM_FRAME_BYTES
  {
    var block := s.carry[..PCM_FRAME_BYTES];
    Pack(s.carry[PCM_FRAME_BYTES..], (s.number + 1) % 0x1_0000_0000, s.fed + [block],
         match enc(s.fed, block) { case Some(data) => s.sent + [Packet(s.number, data)] case None => s.sent })
  }

  function Drain(enc: Encoder, s: Pack): Pack
    decreases |s.carry|
  {
    if |s.carry| < PCM_FRAME_BYTES then s else Drain(enc, TakeBlock(enc, s))
  }

  lemma DrainStep(enc: Encoder, s: Pack)
    ensures Drain(enc, s) == if |s.carry| < PCM_FRAME_BYTES then s else Drain(enc, TakeBlock(enc, s))
  {
  }

  function Push(enc: Encoder, s: Pack, data: Bytes): Pack {
    if data == [] then s else Drain(enc, s.(carry := s.carry + data))
  }

  class Packetizer {
    const enc: Encoder
    var carry: Bytes
    var number: u32
    var fed: seq<Bytes>

    constructor (enc: Encoder)
      ensures this.enc == enc && carry == [] && number == 0 && fed == []
    {
      this.enc := enc;
      carry, number, fed := [], 0, [];
    }

    ghost function View(sent: seq<Packet>): Pack
      reads this
    {
      Pack(carry, number, fed, sent)
    }

    method PushBytes(data: Bytes) returns (packets: seq<Packet>)
      modifies this
      ensures View(packets) == Push(enc, old(View([])), data)
    {
      hide Drain;
      packets := [];
      if data == [] {
        return;
      }
      carry := carry + data;
      while |carry| >= PCM_FRAME_BYTES
        invariant Drain(enc, View(packets)) == Drain(enc, old(View([])).(carry := old(carry) + data))
        decreases |carry|
      {
        DrainStep(enc, View(packets));
        var block := carry[..PCM_FRAME_BYTES];
        match enc(fed, block) {
          case Some(packet) => packets := packets + [Packet(number, packet)];
          case None =>
        }
        fed := fed + [block];
        carry := carry[PCM_FRAME_BYTES..];
        number := (number + 1) % 0x1_0000_0000;
      }
      DrainStep(enc, View(packets));
    }
  }

  function PushAll(enc: Encoder, chunks: seq<Bytes>): Pack {
    if chunks == [] then Pack([], 0, [], []) else Push(enc, PushAll(enc, chunks[..|chunks| - 1]), chunks[|chunks| - 1])
  }

  /** The packets of a list of blocks: each encoded after all before it, numbered by
      its place modulo 2^32; a block the encoder refuses costs its packet and keeps
      its number. */
  function PacketsOf(enc: Encoder, blocks: seq<Bytes>): seq<Packet> {
    if blocks == [] then []
    else
      var before, last := blocks[..|blocks| - 1], blocks[|blocks| - 1];
      match enc(before, last)
      case Some(data) => PacketsOf(enc, before) + [Packet(|before| % 0x1_0000_0000, data)]
      case None => PacketsOf(enc, before)
  }

  ghost predicate Blocks(fed: seq<Bytes>) { forall k :: 0 <= k < |fed| ==> |fed[k]| == PCM_FRAME_BYTES }

  ghost predicate Packed(enc: Encoder, stream: Bytes, s: Pack) {
    && Blocks(s.fed) && Flat(s.fed) + s.carry == stream
    && s.number == |s.fed| % 0x1_0000_0000
    && s.sent == PacketsOf(enc, s.fed)
  }

  lemma BlockKeeps(enc: Encoder, stream: Bytes, s: Pack)
    requires Packed(enc, stream, s) && |s.carry| >= PCM_FRAME_BYTES
    ensures Packed(enc, stream, TakeBlock(enc, s))
  {
    hide Flat;
    var block, left := s.carry[..PCM_FRAME_BYTES], s.carry[PCM_FRAME_BYTES..];
    assert s.carry == block + left;
    FlatSnoc(s.fed, block);
    Assoc(Flat(s.fed), block, left);
    var fed := s.fed + [block];
    assert fed[..|fed| - 1] == s.fed && fed[|fed| - 1] == block;
  }

  lemma {:induction false} DrainKeeps(enc: Encoder, stream: Bytes, s: Pack)
    requires Packed(enc, stream, s)
    ensures Packed(enc, stream, Drain(enc, s)) && |Drain(enc, s).carry| < PCM_FRAME_BYTES
    decreases |s.carry|
  {
    hide Packed;
    if |s.carry| >= PCM_FRAME_BYTES {
      BlockKeeps(enc, stream, s);
      DrainKeeps(enc, stream, TakeBlock(enc, s));
    }
  }

  /** THE packet law. However the stream is cut into pushes, the encoder is handed
      its consecutive whole blocks, the packets are theirs, and what is carried is
      the rest, shorter than a block. */
  lemma {:induction false} PacketsExact(enc: Encoder, chunks: seq<Bytes>)
    ensures var s := PushAll(enc, chunks);
            && Blocks(s.fed) && Flat(s.fed) + s.carry == Flat(chunks) && |s.carry| < PCM_FRAME_BYTES
            && s.number == |s.fed| % 0x1_0000_0000
            && s.sent == PacketsOf(enc, s.fed)
  {
    hide Flat, PacketsOf, Drain;
    if chunks == [] {
      NoPackets(enc);
    } else {
      var most, c := chunks[..|chunks| - 1], chunks[|chunks| - 1];
      PacketsExact(enc, most);
      var s := PushAll(enc, most);
      assert chunks == most + [c];
      FlatSnoc(most, c);
      if c == [] {
        assert Flat(most) + [] == Flat(most);
      } else {
        Assoc(Flat(s.fed), s.carry, c);
        DrainKeeps(enc, Flat(chunks), s.(carry := s.carry + c));
      }
    }
  }

  lemma NoPackets(enc: Encoder)
    ensures Flat([]) == [] && PacketsOf(enc, []) == []
  {
  }

  lemma {:induction false} BlocksUnique(a: seq<Bytes>, x: Bytes, b: seq<Bytes>, y: Bytes)
    requires Blocks(a) && Blocks(b) && Flat(a) + x == Flat(b) + y && |x| < PCM_FRAME_BYTES && |y| < PCM_FRAME_BYTES
    ensures a == b && x == y
    decreases |a|
  {
    var s := Flat(a) + x;
    if a != [] && b != [] {
      Assoc(a[0], Flat(a[1..]), x);
      Assoc(b[0], Flat(b[1..]), y);
      assert s[..PCM_FRAME_BYTES] == a[0] && s[..PCM_FRAME_BYTES] == b[0];
      assert s[PCM_FRAME_BYTES..] == Flat(a[1..]) + x && s[PCM_FRAME_BYTES..] == Flat(b[1..]) + y;
      BlocksUnique(a[1..], x, b[1..], y);
      assert a == [a[0]] + a[1..] && b == [b[0]] + b[1..];
    } else {
      assert a != [] ==> |s| >= PCM_FRAME_BYTES;
      assert b != [] ==> |s| >= PCM_FRAME_BYTES;
      assert [] + x == x && [] + y == y;
    }
  }

  /** The cutting is invisible: two cuttings of one stream leave the packetizer in
      the same state with the same packets sent. */
  lemma CuttingIrrelevant(enc: Encoder, a: seq<Bytes>, b: seq<Bytes>)
    requires Flat(a) == Flat(b)
    ensures PushAll(enc, a) == PushAll(enc, b)
  {
    hide Flat, PacketsOf, PushAll;
    PacketsExact(enc, a);
    PacketsExact(enc, b);
    BlocksUnique(PushAll(enc, a).fed, PushAll(enc, a).carry, PushAll(enc, b).fed, PushAll(enc, b).carry);
  }

  // ---------------------------------------------------- gate into packetizer

  /** What the gate hands on, read by read. */
  function Slices(chunks: seq<Bytes>): seq<Bytes> {
    if chunks == [] then []
    else Slices(chunks[..|chunks| - 1]) + [Feed(FeedAll(chunks[..|chunks| - 1]).0, chunks[|chunks| - 1]).1]
  }

  lemma {:induction false} SlicesAre(chunks: seq<Bytes>)
    ensures Flat(Slices(chunks)) == FeedAll(chunks).1
  {
    hide Feed, Flat;
    if chunks == [] {
      NothingFed();
      assert Flat([]) == [];
    } else {
      var most, c := chunks[..|chunks| - 1], chunks[|chunks| - 1];
      SlicesAre(most);
      FlatSnoc(Slices(most), Feed(FeedAll(most).0, c).1);
    }
  }

  /** THE capture law: from the recorder's reads to the encoder. A stream without a
      stripped header is encoded whole once the gate has decided, one with a header
      is encoded from the first octet of sound, in consecutive blocks. */
  lemma CaptureExact(enc: Encoder, chunks: seq<Bytes>)
    ensures var s := PushAll(enc, Slices(chunks));
            && Blocks(s.fed) && |s.carry| < PCM_FRAME_BYTES && s.sent == PacketsOf(enc, s.fed)
            && (Undecided(chunks) ==> s.fed == [] && s.carry == [])
            && (forall k: nat :: Strips(chunks, k) ==> Flat(s.fed) + s.carry == Flat(chunks)[k..])
            && (!Undecided(chunks) && (forall k: nat :: !Strips(chunks, k)) ==> Flat(s.fed) + s.carry == Flat(chunks))
  {
    hide Flat, PushAll, PacketsOf, Slices, FeedAll, Undecided, Strips;
    var s := PushAll(enc, Slices(chunks));
    PacketsExact(enc, Slices(chunks));
    SlicesAre(chunks);
    GateExact(chunks);
    if Undecided(chunks) { NoBlocks(s.fed); }
    forall k: nat | Strips(chunks, k) ensures 20 <= k <= |Flat(chunks)| {
      StripsSome(chunks, k);
    }
    assert Flat(chunks)[0..] == Flat(chunks);
  }

  lemma StripsSome(chunks: seq<Bytes>, k: nat)
    requires Strips(chunks, k)
    ensures 20 <= k <= |Flat(chunks)|
  {
  }

  lemma NoBlocks(fed: seq<Bytes>)
    requires Blocks(fed) && |Flat(fed)| == 0
    ensures fed == []
  {
  }
}
