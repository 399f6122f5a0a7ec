# rx11 protocol model

rx11 carries a strict, positional X11 byte stream between a relay and a client
through a stack of stateful transformations. This project models that stack and
proves that each layer, and the layers together, give back at the far end what went
in, whatever the read boundaries, interleavings and losses the code allows.

| file | what it models |
|---|---|
| `X11Frame.dfy`, `X11Recode.dfy`, `X11RecodeProofs.dfy`, `X11Wire.dfy` | PutImage recognition, the recode container, the recoder and the expander, and connections as an application writes them |
| `Messages.dfy`, `Incremental.dfy`, `DataPlane.dfy`, `Shapes.dfy`, `DataPlaneRuns.dfy`, `Pumps.dfy`, `Capability.dfy`, `Handshake.dfy` | diffing, compression, the shape a payload leaves in, inbound handling, runs of both ends, pumps sharing an encoder, negotiation |
| `BinaryCodec.dfy`, `FrameCodec.dfy`, `WireLaws.dfy`, `FrameLimits.dfy`, `Transport.dfy` | payload and frame layouts, what they can carry, reassembly and resynchronisation |
| `Writer.dfy`, `WriterCuts.dfy`, `WriterProofs.dfy`, `CuttingRuns.dfy`, `Queue.dfy`, `QueueLaws.dfy` | the two-lane coalescing writer, where it may put a priority frame, and the byte-budgeted queue |
| `FlowMeter.dfy`, `Advertiser.dfy`, `AdvertiserRuns.dfy` | the congestion gauge and the advertisement protocol |
| `Supervisor.dfy`, `Audio.dfy`, `OutletTable.dfy` | tunnel rebuilding, the WAV gate and packetizer, audio selection |
| `Downlink.dfy` | the composition, from the application's bytes to the local X server |
| `Witnesses.dfy` | inputs for the failing sides of the exact laws |

Objects the code updates in place are classes whose methods are proved against
specification functions; the laws are then proved about those functions over every
run. `dafny verify dfyconfig.toml` checks everything.

## Premises

* PNG, JPEG, zstd, lz4, zlib, Opus and JSON are uninterpreted functions. The
  predicates `Lawful` say what is assumed of them: PNG and the one-shot codecs give
  back what they were given, JPEG keeps the dimensions and three channels, and the
  streaming codec gives back a non-empty payload under the same history. Where a JPEG
  library is asked to give back the very picture (`X11RecodeProofs.Exact`), the law says so.
* Payloads handed to the data plane are not empty (the pumps stop on an empty read,
  and a unit always holds its kind). An empty payload in stream mode with threshold 0
  would move the encoder's history and not the decoder's.
* `DataPlaneRuns` and `Downlink` build and enqueue a frame in one step. `Pumps` takes
  the two apart and proves which order of enqueueing they rely on.
* The streaming codec's expansion is bounded by the payload's length
  (`FrameLimits.Expands`); the one-shot codecs only go out when they gain.
* The diff chunk size is positive; at 0 the diff loop does not move.
* The floating-point savings ratio is an arbitrary predicate (`DiffParams.worthwhile`).
* Library and socket outcomes, arrivals and timers are inputs. The writer's `future`,
  the receiver's `script` and the supervisor's `script` list them.
* Delivery on the wire is in order and intact; only the priority lane drops frames.

## Where the code differs from its own comments or from what it seems to promise

The model follows the code.

* The recoder recognizes opcode 72 and reads extended pixel data at offset 28
  (frame.rs:47, frame.rs:121); the module comment says otherwise.
* `classify_put_image` indexes past a short PutImage: `X11RecodeProofs.PanicsExactly`,
  `Witnesses.ShortPutImagePanics`.
* The encoder never checks the decoder's side limit and bytes behind the pixels are
  rebuilt as zeros, so losslessness holds exactly for faithful requests
  (`X11RecodeProofs.Lossless`, `Witnesses.RowCrosses`).
* A recoder that degraded in its setup stage looks at the next chunk again, so chunking
  matters exactly in that case (`X11RecodeProofs.PushTwice`, `Witnesses.CutMatters`).
* The 64 KiB check of the setup stage (mod.rs:135-138) can never fire.
* The recoder accepts requests longer than a frame can carry
  (`Downlink.OversizedRequest`), and a diff can have more chunks than a frame can count
  although its payload would fit plain (`FrameLimits.TooManyChunks`). `FrameLimits.Fits`
  is the length that is safe in every state, exact without compression.
* The comment at transport.rs:254-256 says coalesced bytes are flushed before an encode
  failure is acted on; the loop leaves before the first chunk, so none are.
* Commit cuts every 64 KiB ignore frame boundaries, so a priority frame can land inside
  a bulk frame (`WriterProofs.CuttingRunCorrupts`). `CuttingRuns.PlacingExact` says for
  which bulk lanes this can happen, and `WriterProofs.MisplacedExact` what the far end
  makes of it.
* Nothing keeps two pumps from enqueueing in another order than they encoded in, which
  breaks the shared stream (`Pumps.OvertakingBreaks`, `Pumps.OrderlyDelivers`).
* Resynchronisation gives up when the next magic is not in the buffer yet
  (`Transport.Resync`, `Witnesses.GarbageReadAlone`), and the buffer's hard limit is unreachable.
* Publishing before charging leaks on the queue's counter (`Queues.LeakReachable`,
  `Queues.WaitsForEver`); `Queues.CanEnterExactly` says when other senders end the wait.
* Equal watermarks leave the meter without hysteresis (`FlowMeters.HysteresisExact`).
* The comment at flow.rs:244-248 says a redundant Resume passes one frame through; the
  code sends none and cancels the repeats (`AdvertiserRuns.StrandedForEver`,
  `AdvertiserRuns.LateReportSticks`, `AdvertiserRuns.ReopensExactly`).
* A first read of 64 KiB or more is taken as raw sound even behind a short WAV header
  (`Audio.GateExact`, `Witnesses.HeaderPlayed`).
* Closing the channel that is heard leaves its application silent until the next open
  or foreground change (`OutletTables.CloseSettledExactly`).

## Model

| member | source | states |
|---|---|---|
| `Downlink.StreamCrosses` | crates/rx11-server/src/x11_listener.rs:214-260 | End to end, for PNG and for a JPEG that gives back what it is handed: as long as what the relay buffers at each read fits a frame by its length, every frame encodes and, whatever the relay reads, whatever the client reads, and whichever payloads travel as diffs or compressed, the local X server is written exactly what the application sent (less the withheld unfinished request) if and only if every recoded request is restorable |
| `Downlink.StreamsCross` | crates/rx11-server/src/x11_listener.rs:214-260 | End to end for a whole session: the units of any number of connections, interleaved in any way on one link, each fitting a frame; every local X server is written exactly what its own application sent (less the withheld unfinished request) if and only if the recoded requests of that stream are restorable |
| `Downlink.PayloadsCross` | crates/rx11-client/src/proxy.rs:307-323 | Any list of non-empty payloads that fit by their length, on any connections, is built into frames that all encode; their bytes, read in any pieces, are received frame by frame and answered with exactly those payloads in order, nothing left over |
| `Downlink.BothLanesCross` | crates/rx11-core/src/transport.rs:210-289 | The same beside a priority lane of control frames and sound, through the writer, when its commit cuts fall between frames: whatever arrives when, every frame of both lanes is received, the sound of owned channels goes to the players and the payloads are answered in order |
| `Downlink.FramesCross` | crates/rx11-client/src/proxy.rs:307-323 | The same for any payloads, under the weaker condition that the frames encode |
| `Downlink.DispatchSorts` | crates/rx11-client/src/serve/mod.rs:230-281 | Control frames and data frames of owned audio channels, mixed in anywhere, go where they belong, and the plane answers the other frames and ends as if they had come alone |
| `Downlink.DispatchedExactly` | crates/rx11-client/src/serve/mod.rs:230-281 | A plain data frame of an owned audio channel goes to its player, any other data frame to the plane, everything else to neither |
| `Downlink.BuiltForPlane` | crates/rx11-client/src/serve/mod.rs:255-276 | A frame built for a connection that is no audio channel is never taken out before the plane, whatever its shape |
| `Downlink.RunUnitsBounded` | crates/rx11-core/src/x11recode/mod.rs:104-234 | No unit is longer than what the relay had buffered when it released it, and its kind octet |
| `FrameLimits.BuiltEncodable` | crates/rx11-core/src/dataplane.rs:334-360 | Exactly when the frame a plane builds is encodable, shape by shape: by size alone for plain and compressed frames; for a diff also by its number of chunks (16 bits) and eight octets for each of them |
| `FrameLimits.EncodableExactly` | crates/rx11-core/src/protocol/binary.rs:53-141 | Exactly when a data-plane frame is encodable, from its own fields |
| `FrameLimits.FitsEncodes` | crates/rx11-core/src/protocol/binary.rs:339-373 | A payload whose length fits is built into an encodable frame in every state of the sender |
| `FrameLimits.FitsExactly` | crates/rx11-core/src/incremental.rs:134-240 | Without compression, and for lengths at which a diff is worth sending, the bound is exact: all states give encodable frames for a length if and only if it fits |
| `FrameLimits.TooManyChunks` | crates/rx11-core/src/protocol/binary.rs:339-373 | A 70000-octet payload whose diff in one-octet chunks no frame can carry, although its plain frame is far below the limit |
| `FrameLimits.CountNeverBinds` | crates/rx11-core/src/config.rs:93-94 | With chunks of 257 octets or more the chunk count is never the obstacle |
| `FrameLimits.PiecesAtMost` | crates/rx11-core/src/incremental.rs:208-240 | The number of pieces of a payload is its length over the chunk size, rounded up |
| `Downlink.FramesDeliver` | crates/rx11-core/src/dataplane.rs:334-466 | From fresh ends, the frames built for a list of payloads are answered with the payloads, and bases and codec histories of both ends then agree |
| `Downlink.ExpandDelivered` | crates/rx11-client/src/proxy.rs:335-352 | Expanding payload by payload what was delivered is expanding the units that were sent |
| `Downlink.PlainUnitFits` | crates/rx11-core/src/protocol/binary.rs:59-78 | A verbatim unit is accepted by the frame encoder as a plain frame exactly when it is at most 16 MiB less 9 octets long |
| `Downlink.OversizedRequest` | crates/rx11-core/src/x11recode/mod.rs:154-198 | The recoder withholds a non-image request until it is whole and releases it as one unit, so exactly the requests above 16 MiB less 9 octets cannot travel as a plain frame |
| `Downlink.OversizedExists` | crates/rx11-core/src/x11recode/frame.rs:40-53 | Such a request exists: the recoder accepts requests up to 16 MiB + 64 |
| `X11Recode.DownstreamReencoder.PushChunk` | crates/rx11-core/src/x11recode/mod.rs:104-111 | One push moves the machine and appends the units exactly as the stream walk says, with no verbatim run left open |
| `X11Recode.DownstreamReencoder.FlushRawUnits` | crates/rx11-core/src/x11recode/mod.rs:113-121 | Closes the open verbatim run as one unit, or nothing when it is empty |
| `X11Recode.DownstreamReencoder.ConsumeSetup` | crates/rx11-core/src/x11recode/mod.rs:123-152 | Forwards the whole setup request before any request is framed; degrades on a first octet that is not a byte order; the 64 KiB branch is proved dead |
| `X11Recode.DownstreamReencoder.ConsumeRequests` | crates/rx11-core/src/x11recode/mod.rs:154-198 | The drain loop leaves the buffer, flags and units of the recursive walk over whole requests, and panics exactly where that walk does |
| `X11Recode.DownstreamReencoder.FrameHead` | crates/rx11-core/src/x11recode/mod.rs:160-182 | The length of the request at the head of the buffer in either length form, more bytes needed, or an absurd length |
| `X11Recode.DownstreamReencoder.ForwardRequest` | crates/rx11-core/src/x11recode/mod.rs:183-196 | Releases one request recoded or verbatim, keeping order with the open run, and panics exactly when classification indexes past the end |
| `X11Recode.DownstreamReencoder.TryRecodeAt` | crates/rx11-core/src/x11recode/mod.rs:203-234 | A container goes out exactly when the codec gains over the pixel block, otherwise nothing changes |
| `X11RecodeProofs.Lossless` | crates/rx11-core/src/x11recode/mod.rs:104-280 | THE lossless law: for every stream and every cutting into reads, the expanded units followed by the withheld bytes are the bytes pushed exactly when every recoded request has sides up to 8192 and zeros behind its pixels; degraded runs included |
| `X11RecodeProofs.ExactCodec` | crates/rx11-core/src/x11recode/mod.rs:104-280 | The same in either tier for a codec that gives back what it is handed: for JPEG the octet without colour must be zero in every pixel as well |
| `X11RecodeProofs.AcceptedExactly` | crates/rx11-core/src/x11recode/frame.rs:249-296 | Which container bodies the client takes, octet by octet |
| `X11RecodeProofs.RefusedExactly` | crates/rx11-core/src/x11recode/mod.rs:249-280 | Which of those fail the connection, by what the library answers; the one that panics instead is a JPEG with too few colours |
| `X11RecodeProofs.KindsExactly` | crates/rx11-core/src/x11recode/mod.rs:242-249 | Verbatim and container units are the two kinds; any other fails the connection |
| `X11RecodeProofs.LengthKept` | crates/rx11-core/src/x11recode/mod.rs:104-280 | Under either codec the expanded units and the withheld bytes have the length of the bytes pushed, or a unit is refused |
| `X11RecodeProofs.RunConserves` | crates/rx11-core/src/x11recode/mod.rs:104-198 | Over every run: released stretches followed by withheld bytes are the bytes pushed, less than one request limit is withheld and never a complete request, and every container unit is strictly smaller than the pixel block it replaces |
| `X11RecodeProofs.PushOk` | crates/rx11-core/src/x11recode/mod.rs:104-198 | One push keeps that invariant from any state that has it |
| `X11RecodeProofs.PanicsExactly` | crates/rx11-core/src/x11recode/frame.rs:95-127 | Classification indexes out of bounds exactly on a ZPixmap PutImage shorter than its own fixed part (24 octets, 28 extended) |
| `X11RecodeProofs.PushTwice` | crates/rx11-core/src/x11recode/mod.rs:104-152 | THE chunking law for one cut: reading a then b ends in the state of reading them at once if and only if b does not start like a setup request right after a start that degraded the machine; it then sends the same containers and verbatim runs |
| `X11RecodeProofs.ChunkingIrrelevant` | crates/rx11-core/src/x11recode/mod.rs:104-198 | For streams that start with B or l every cutting into reads ends in the same machine and, once adjacent raw units are merged, in the same units |
| `X11RecodeProofs.ConsumeAppend` | crates/rx11-core/src/x11recode/mod.rs:154-198 | Walking the requests of a longer buffer resumes where the walk of its front stopped |
| `X11RecodeProofs.MergeEmit` | crates/rx11-core/src/x11recode/mod.rs:113-121 | Merging adjacent raw units of two emissions is one emission of all their items |
| `X11RecodeProofs.ExpandImage` | crates/rx11-core/src/x11recode/mod.rs:249-280 | A container expands to the header and length of the original request with the codec's pixels and zeros behind; over-sized images are refused; neither library outcome faults |
| `X11RecodeProofs.ExpandImageExact` | crates/rx11-core/src/x11recode/mod.rs:249-280 | Whatever is produced has the original length; with an exact codec it is the original exactly when the request is restorable |
| `X11Frame.ClassifySound` | crates/rx11-core/src/x11recode/frame.rs:95-145 | A classified image is a ZPixmap PutImage whose pixel block of width * height * 4 octets lies inside the request |
| `X11Frame.UnpackRgbLoop` | crates/rx11-core/src/x11recode/frame.rs:149-166 | The loop over pixels computes the recursive unpacking |
| `X11Frame.PackRgbLoop` | crates/rx11-core/src/x11recode/frame.rs:168-182 | The loop over pixels computes the recursive packing |
| `X11Frame.UnpackAfterPack` | crates/rx11-core/src/x11recode/frame.rs:149-182 | Unpacking undoes packing in both byte orders |
| `X11Frame.PackAfterUnpack` | crates/rx11-core/src/x11recode/frame.rs:149-182 | Packing undoes unpacking exactly on blocks whose unused octets are zero |
| `X11Frame.UnpackColours` | crates/rx11-core/src/x11recode/frame.rs:149-166 | Unpacking takes red, green and blue of each pixel from their own octets in both byte orders |
| `X11Frame.PackColours` | crates/rx11-core/src/x11recode/frame.rs:168-182 | Packing puts them there again, and zero in the octet between |
| `X11Frame.ContainerRoundTrip` | crates/rx11-core/src/x11recode/frame.rs:213-296 | A container built from a classified image parses back to the same fields, exactly when both sides are within the decoder's limit the encoder never checks |
| `X11Frame.ContainerHeader` | crates/rx11-core/src/x11recode/frame.rs:213-247 | Each field of a container stands where the decoder reads it, and the length is header, prefix and blob |
| `X11Wire.SetupLength` | crates/rx11-core/src/x11recode/frame.rs:310-333 | For a setup request written field by field, in either byte order, the length read from its first 12 octets is its own length: name, authorization data and both pads counted |
| `X11Wire.SetupReleased` | crates/rx11-core/src/x11recode/mod.rs:123-152 | The first thing released is exactly that setup request, the byte order is latched, and requests are framed from what comes behind it |
| `X11Wire.FramedExactly` | crates/rx11-core/src/x11recode/mod.rs:154-182 | A request written in either byte order and either length form is framed at its own end, whatever follows, exactly when it is within the limit |
| `X11Wire.ConnectionFramed` | crates/rx11-core/src/x11recode/mod.rs:104-198 | THE framing law: a connection written as a setup request, requests and the start of one more, read in any pieces, is taken apart into just these, in order, and withholds what is unfinished |
| `X11Wire.RequestsFramed` | crates/rx11-core/src/x11recode/mod.rs:154-198 | One released stretch for each request, that stands for it and is what becomes of it |
| `X11Wire.RecognizedExactly` | crates/rx11-core/src/x11recode/frame.rs:95-145 | Of all PutImage requests, written field by field in both byte orders and both length forms, exactly the true-colour ones with all pixels there are recognized, with the fields they were written with |
| `X11Wire.RecodedExactly` | crates/rx11-core/src/x11recode/mod.rs:183-234 | THE recoding law: an image goes out as a container exactly when it is true-colour, has enough pixel octets and its coded form gains; PNG is handed the pixel block as it stands, JPEG its colours, each from its own octet of its own pixel, with the image's sides and the quality; everything else goes out as it is |
| `X11Wire.JpegCarries` | crates/rx11-core/src/x11recode/mod.rs:249-280 | With a lawful JPEG library the client writes the request's header, pixels whose colours are those the library gives back for the request's own, each in its own octet with zero between, and zeros behind |
| `Witnesses.ShortPutImagePanics` | crates/rx11-core/src/x11recode/frame.rs:95-127 | An eight-octet framed PutImage on which classification indexes past the end |
| `Witnesses.CutMatters` | crates/rx11-core/src/x11recode/mod.rs:123-131 | A stream and a cut of it after which the machine is not where one read leaves it |
| `Witnesses.RowCrosses` | crates/rx11-core/src/x11recode/mod.rs:203-280 | With a lawful library one black row is recoded, and comes back exactly when it has at most 8192 pixels |
| `DataPlaneRuns.RunDelivers` | crates/rx11-core/src/dataplane.rs:334-493 | THE data-plane law: over every run of sends on interleaved connections, sender resets, receiver losses and in-order deliveries, each answer is the payload sent or, only for a damaged connection, a resync request; no honest frame is dropped or breaks the stream; drained ends have equal histories and agreeing bases |
| `DataPlaneRuns.DeliveredExactly` | crates/rx11-core/src/dataplane.rs:334-493 | Without losses the outcomes are the payloads of the run's sends, one for one, in order, unchanged; all of them once the wire is drained |
| `DataPlaneRuns.ResetHeals` | crates/rx11-client/src/proxy.rs:303-323 | After the sender clears its base every later payload on that connection is answered with exactly that payload, until the receiver loses the base again |
| `Pumps.OrderlyDelivers` | crates/rx11-client/src/proxy.rs:303-323 | THE sharing law: pumps that share one stream encoder build and enqueue in separate steps, interleaved freely; while no frame of that encoder overtakes an earlier one on the way to the queue, every frame on the wire is answered with its payload in order, and the ends agree once nothing is pending |
| `Pumps.OvertakingBreaks` | crates/rx11-client/src/proxy.rs:321-323 | With a lawful library two pumps that build in one order and enqueue in the other break the stream on the first frame |
| `Pumps.TakenFirst` | crates/rx11-core/src/dataplane.rs:365-493 | A frame may be answered before frames built earlier for other connections, when it does not overtake a history-moving frame as one itself |
| `Pumps.Commute` | crates/rx11-core/src/dataplane.rs:365-493 | Two frames of different connections, not both history-moving, are answered alike in either order and leave the same receiver |
| `DataPlaneRuns.SafeAfterReset` | crates/rx11-client/src/proxy.rs:303-323 | Nothing sent on the connection after the reset is marked damaged |
| `DataPlaneRuns.SendReceive` | crates/rx11-core/src/dataplane.rs:334-493 | One step of the simulation, in all four frame shapes, with and without the receiver's base |
| `DataPlaneRuns.RunSynchronized` | crates/rx11-core/src/dataplane.rs:334-493 | The simulation invariant between two bases and two codec histories holds after every run, frames in flight included |
| `DataPlaneRuns.NoLossAllSafe` | crates/rx11-core/src/dataplane.rs:421-493 | Without losses no connection is ever damaged |
| `DataPlaneRuns.SentIsSends` | crates/rx11-core/src/dataplane.rs:334-360 | The record of sent payloads is the run's sends in order |
| `DataPlaneRuns.DrainLacking` | crates/rx11-core/src/dataplane.rs:365-493 | A receiver that lacks some bases answers honest frames like one that has them, or asks for a resync, and its history stays equal |
| `DataPlaneRuns.CompressRoundTrip` | crates/rx11-core/src/dataplane.rs:142-286 | What compression lets out is decompressed to the payload by the peer with the same history, and both histories then move together |
| `DataPlaneRuns.DiffCarried` | crates/rx11-core/src/dataplane.rs:311-328 | A diff reaches the peer's cache as it was made, compressed or not |
| `DataPlaneRuns.BuildWellFormed` | crates/rx11-core/src/dataplane.rs:334-360 | Every frame a plane builds is well formed for the wire |
| `DataPlaneRuns.HandshakeMatches` | crates/rx11-core/src/protocol/handshake.rs:90-135 | The planes both ends build from their own side of the handshake permit the same diffs in each direction and decompress with the algorithm the other compresses with |
| `Handshake.BothAgree` | crates/rx11-core/src/protocol/handshake.rs:213-222 | Both ends come away with the same features and the same algorithm: the most preferred one the client offered, or none exactly when it offered none |
| `Handshake.AlgorithmExactly` | crates/rx11-core/src/compress.rs:38-43 | The choice algorithm by algorithm at both ends: streaming zstd, zstd, lz4, zlib, none |
| `Handshake.PickBest` | crates/rx11-core/src/compress.rs:98-110 | The choice is supported by both ends and nothing preferred to it is; none exactly when they share none |
| `DataPlanes.DataPlane.Build` | crates/rx11-core/src/dataplane.rs:334-360 | The frame, codec history and base after a send are those of the specification; the base is refreshed exactly when this direction may diff |
| `DataPlanes.DataPlane.Receive` | crates/rx11-core/src/dataplane.rs:365-466 | The answer, history and base after a frame are those of the specification, refusals included |
| `DataPlanes.DataPlane.CompressPayload` | crates/rx11-core/src/dataplane.rs:142-166 | Declines below the threshold or without a gain, except that stream mode never declines once it has consumed the payload |
| `DataPlanes.DataPlane.DecompressPayload` | crates/rx11-core/src/dataplane.rs:183-190 | The payload or nothing; the stream history moves exactly on success |
| `DataPlanes.DataPlane.PlainOrCompressedFrame` | crates/rx11-core/src/dataplane.rs:288-308 | Compressed frame when compression yields one, plain otherwise |
| `DataPlanes.DataPlane.WrapDiffFrame` | crates/rx11-core/src/dataplane.rs:311-328 | A diff is compressed from its own encoding when that exists and gains |
| `DataPlanes.DataPlane.ApplyDiffFrame` | crates/rx11-core/src/dataplane.rs:467-493 | A refused diff asks for a resync and leaves the base alone |
| `Shapes.BuiltShape` | crates/rx11-core/src/dataplane.rs:334-360 | THE shape law, under every compression: where diffs were negotiated a payload with a due diff leaves in one of the two diff shapes, every other payload in one of the two plain ones, compressed exactly when those octets travel compressed; the base is then the payload |
| `Shapes.ComputeExactly` | crates/rx11-core/src/incremental.rs:134-206 | Which diff is due: a bare reference exactly on a repeat that is long enough, the differing pieces, each whole and in order, exactly when there are some and sending them is worth it, and otherwise none |
| `Shapes.RepeatLeaves` | crates/rx11-core/src/dataplane.rs:311-328 | A repeat of more than 18 octets leaves as a reference of 18 octets or its compressed form, never as itself |
| `Shapes.CompressTravels` | crates/rx11-core/src/dataplane.rs:142-166 | What travels compressed: at or above the threshold, always through the stream encoder, otherwise exactly at a gain |
| `Shapes.DiffIsDiffering` | crates/rx11-core/src/incremental.rs:208-240 | The chunks are exactly the pieces that differ |
| `Shapes.AnswersExactly` | crates/rx11-core/src/dataplane.rs:365-493 | THE refusal law: dropped exactly when the shape was not agreed on, broken exactly when the library cannot undo it, a resync exactly when the diff cannot be read or does not fit the base; the base changes with an answered payload only |
| `Capabilities.EchoAgrees` | crates/rx11-core/src/protocol/handshake.rs:213-222 | Client and server compute the same features, whatever the client's list holds |
| `Capabilities.InForce` | crates/rx11-core/src/protocol/capability.rs:121-134 | A capability is in force exactly when neither end switched it off |
| `Capabilities.SwitchedExactly` | crates/rx11-core/src/protocol/capability.rs:121-134 | Each gated capability is agreed on exactly when both ends have its own switch on, and the others always |
| `Capabilities.ParseName` | crates/rx11-core/src/protocol/capability.rs:88-107 | A name parses to a capability exactly when it is that capability's wire name |
| `Incremental.DiffRoundTrip` | crates/rx11-core/src/incremental.rs:134-293 | Whenever a diff or reference is produced, applying it to the same base gives exactly the new payload, longer, shorter or equal; its chunks are in bounds, ascending and disjoint |
| `Incremental.ReferenceExactly` | crates/rx11-core/src/incremental.rs:134-206 | A bare reference is sent exactly when the payload repeats the base and is long enough; nothing else is a diff below the floor |
| `Incremental.DiffTidy` | crates/rx11-core/src/incremental.rs:208-240 | Chunks copy the new payload, are non-empty, in bounds, ascending and disjoint |
| `Incremental.OverlayDiff` | crates/rx11-core/src/incremental.rs:208-293 | Laying the chunks over the cut or zero-extended base gives the new payload |
| `Incremental.OverlayMeaning` | crates/rx11-core/src/incremental.rs:258-290 | An arbitrary chunk list is accepted exactly when each chunk is well formed; each octet is then the last covering chunk's or the base's |
| `Incremental.ApplyExactly` | crates/rx11-core/src/incremental.rs:242-293 | A diff is applied exactly when it names the held base by connection and number and its chunks, or its length when it has none, fit; each octet is then the last chunk's over it, the base's or zero |
| `Incremental.ConnectionDataCache.UpdateCache` | crates/rx11-core/src/incremental.rs:69-83 | Replaces one connection's base and no other |
| `Incremental.ConnectionDataCache.NextSequenceFor` | crates/rx11-core/src/incremental.rs:102-107 | The successor of the base's number; 1 without a base and after the last number; never 0 |
| `Incremental.ConnectionDataCache.ComputeDiffChunks` | crates/rx11-core/src/incremental.rs:208-240 | The loop over the payload computes the recursive diff |
| `Incremental.ConnectionDataCache.ComputeIncremental` | crates/rx11-core/src/incremental.rs:134-206 | Diff, reference or nothing, as specified |
| `Incremental.ConnectionDataCache.ApplyIncremental` | crates/rx11-core/src/incremental.rs:242-293 | A refused message leaves the cache untouched, an applied one becomes the base |
| `Incremental.ConnectionDataCache.ClearConnection` | crates/rx11-core/src/incremental.rs:295-297 | Forgets one connection's base and no other |
| `FrameCodec.FrameRoundTrip` | crates/rx11-core/src/protocol/frame.rs:68-107 | A well-formed frame followed by any bytes decodes to itself, consuming exactly its encoding |
| `FrameCodec.FrameRewrite` | crates/rx11-core/src/protocol/frame.rs:263-310 | The bytes consumed for an accepted frame are its encoding; only a diff may have come with ignored bytes |
| `FrameCodec.PayloadRewrite` | crates/rx11-core/src/protocol/frame.rs:148-228 | Any accepted payload re-encodes to itself, or for a diff to its front before ignored bytes |
| `FrameCodec.PayloadRoundTrip` | crates/rx11-core/src/protocol/binary.rs:174-400 | Each payload decodes to its message under its own tag |
| `FrameCodec.PeekEncoding` | crates/rx11-core/src/protocol/frame.rs:263-287 | The header of an encoded frame announces its exact length |
| `FrameCodec.PeekStable` | crates/rx11-core/src/protocol/frame.rs:263-287 | A header verdict does not change when more bytes arrive |
| `WireLaws.HeaderLayout` | crates/rx11-core/src/protocol/frame.rs:230-245 | Octet by octet: RX11, version 1, the kind's number and the payload's length, most significant octet first |
| `WireLaws.DataLayout` | crates/rx11-core/src/protocol/binary.rs:59-141 | Where connection, number, original length and data stand in each data payload |
| `WireLaws.DiffLayout` | crates/rx11-core/src/protocol/binary.rs:339-373 | Where connection, number, base, length and count stand in a diff |
| `WireLaws.ChunkLayout` | crates/rx11-core/src/protocol/binary.rs:339-373 | Where offset, length and octets of each chunk stand |
| `WireLaws.ControlCrosses` | crates/rx11-core/src/protocol/message_type.rs:8-36 | Each of the fourteen control messages, written octet by octet, is taken whole and as what it is when its text parses |
| `WireLaws.OtherTagsRefused` | crates/rx11-core/src/protocol/message_type.rs:110-140 | A header with a number of no message is refused |
| `FrameCodec.Peek` | crates/rx11-core/src/protocol/frame.rs:263-287 | An accepted header never announces more than the frame limit |
| `FrameCodec.BytesMut.EncodeInto` | crates/rx11-core/src/protocol/frame.rs:68-107 | Appends one whole frame exactly when it is encodable, and otherwise leaves the buffer as it was |
| `FrameCodec.BytesMut.BeginHeader` | crates/rx11-core/src/protocol/frame.rs:230-238 | Appends a header with a zero length |
| `FrameCodec.BytesMut.FinishHeader` | crates/rx11-core/src/protocol/frame.rs:240-245 | Back-patches the length of what follows the header and nothing else |
| `FrameCodec.BytesMut.EncodeFields` | crates/rx11-core/src/protocol/binary.rs:59-78 | Fixed fields and data, or nothing at all |
| `FrameCodec.BytesMut.EncodeDiffInto` | crates/rx11-core/src/protocol/binary.rs:339-373 | The chunk loop writes exactly the diff layout when it succeeds, and only ever appends |
| `FrameCodec.BytesMut.EncodePayloadInto` | crates/rx11-core/src/protocol/binary.rs:53-141 | Every payload kind, succeeding exactly under its own limits |
| `BinaryCodec.PayloadLenExact` | crates/rx11-core/src/protocol/binary.rs:321-323 | The announced payload length is the encoded length |
| `BinaryCodec.DiffWireRoundTrip` | crates/rx11-core/src/protocol/binary.rs:320-466 | A diff followed by any bytes decodes to the diff |
| `BinaryCodec.DiffRewrite` | crates/rx11-core/src/protocol/binary.rs:375-466 | An accepted diff payload starts with the encoding of what it decodes to |
| `BinaryCodec.DecodeIncrementalParts` | crates/rx11-core/src/protocol/binary.rs:420-466 | The parser accepts and returns exactly what the layout says |
| `BinaryCodec.DecodeChunks` | crates/rx11-core/src/protocol/binary.rs:443-466 | The loop over `pos` parses the chunk list or refuses |
| `Transport.Reassembly` | crates/rx11-core/src/transport.rs:36-80 | THE reassembly law: any list of frames, concatenated and delivered by any non-empty reads, is received as exactly that list, and what follows it is kept |
| `Transport.RecvOne` | crates/rx11-core/src/transport.rs:36-80 | A frame at the front of the stream is received whole wherever the reads cut it |
| `WireLaws.ReassemblyEnds` | crates/rx11-core/src/transport.rs:36-80 | Any frames, a piece of one more and the end of the stream: the frames are received, then the end is reported with the piece kept |
| `WireLaws.EndsClosed` | crates/rx11-core/src/transport.rs:70-80 | A stream that ends within a frame or between two, by an empty read or by no read, is reported closed with everything before read |
| `WireLaws.BadPayloadSkipped` | crates/rx11-core/src/transport.rs:36-62 | A frame with a sound header whose payload cannot be taken is reported once and the stream goes on behind it |
| `Transport.Resync` | crates/rx11-core/src/transport.rs:36-62 | Behind garbage without a later magic the frame is recovered whole exactly when its magic has been read already; otherwise the connection fails |
| `Witnesses.GarbageReadAlone` | crates/rx11-core/src/transport.rs:36-62 | Eleven zero octets before a frame: skipped when read with it, fatal when read alone |
| `Transport.HardLimitUnreachable` | crates/rx11-core/src/transport.rs:65-69 | The buffer limit error is never returned, whatever the peer sends |
| `Transport.ScanFirst` | crates/rx11-core/src/transport.rs:24-34 | The scan finds the first later magic, and reports none only when there is none |
| `Transport.ScanForMagic` | crates/rx11-core/src/transport.rs:24-34 | The loop computes the scan |
| `Transport.Rx11TransportReadHalf.RecvFrame` | crates/rx11-core/src/transport.rs:36-80 | The receive loop ends between reads and leaves the tail, the unread stream and the outcome of the specification |
| `Writer.Link.DrainFrames` | crates/rx11-core/src/transport.rs:210-289 | The writer's whole run is the specification's, and from a fresh link every law of `Writer.DriveLaws` holds of the output |
| `Writer.DriveLaws` | crates/rx11-core/src/transport.rs:210-289 | For every pattern of arrivals, hints and socket: each write is a whole priority frame that saw at most one commit chunk go by, or at most one chunk of bulk bytes; a clean end has both lanes out completely and in order; a break leaves a clean front of both lanes and at most a front of the next write, and happens only at a dead socket or an unencodable frame; no priority frame goes inside a batch when batches fit a chunk |
| `Writer.SmallFrames` | crates/rx11-core/src/config.rs:77-89 | Lanes of frames up to 1 KiB, or of one chunk altogether, make batches that fit one commit chunk |
| `Writer.Link.CommitBatch` | crates/rx11-core/src/transport.rs:252-288 | The state after a batch is the specification's |
| `Writer.CommitKeeps` | crates/rx11-core/src/transport.rs:252-288 | A batch goes out whole or as a front of itself, priority frames first before each chunk; after a failed coalescing none of it goes out; a batch of one chunk has no priority frame inside |
| `Writer.Link.Coalesce` | crates/rx11-core/src/transport.rs:229-251 | The batch and the state are the specification's |
| `Writer.CoalesceKeeps` | crates/rx11-core/src/transport.rs:229-251 | The batch is the encodings of a run of at most 64 frames taken in order, up to the first that cannot be encoded |
| `CuttingRuns.GatherRun` | crates/rx11-core/src/transport.rs:229-251 | With nobody else arriving the whole queued run joins the batch, up to 64 frames and to the one that reaches 256 KiB |
| `CuttingRuns.HintEnds` | crates/rx11-core/src/transport.rs:235-240 | A batch ends at the first hint of a parked priority frame |
| `Writer.Link.DrainPriority` | crates/rx11-core/src/transport.rs:259-268 | The state after draining is the specification's |
| `Writer.DrainPrioKeeps` | crates/rx11-core/src/transport.rs:259-268 | Draining empties the priority lane without touching the bulk bytes |
| `Writer.Link.SendPriority` | crates/rx11-core/src/transport.rs:218-226 | The state after the write is the specification's: the frame whole, or a front of it when the socket fails |
| `Writer.PrioKeeps` | crates/rx11-core/src/transport.rs:218-226 | A priority frame is written in lane order, having seen at most one chunk go by |
| `Writer.Link.SendBulk` | crates/rx11-core/src/transport.rs:272-275 | The state after the write is the specification's: the chunk whole, or a front of it when the socket fails |
| `Writer.BulkKeeps` | crates/rx11-core/src/transport.rs:272-275 | A chunk is added to the bulk bytes whole, or a front of it is the last thing out |
| `Writer.Link.RecvAny` | crates/rx11-core/src/queue.rs:213-236 | The item and the lanes are the specification's |
| `Writer.AnyKeeps` | crates/rx11-core/src/queue.rs:213-236 | Priority first; bulk only when no priority frame is parked; closed only when both lanes are out; no frame of either lane is lost or reordered |
| `Writer.Link.TryRecvPriority` | crates/rx11-core/src/queue.rs:196-203 | The item and the lanes are the specification's |
| `Writer.Link.TryRecv` | crates/rx11-core/src/queue.rs:182-188 | The item and the lanes are the specification's |
| `WriterProofs.Interleaves` | crates/rx11-core/src/transport.rs:210-289 | When every priority frame stands between whole bulk frames the output is the encodings of an interleaving of both lanes, each in order |
| `WriterProofs.InterleavingReceived` | crates/rx11-core/src/transport.rs:210-289 | When every commit cut of every batch that can form falls between frames, a clean run puts out an interleaving of both lanes and the far end receives it frame by frame, whatever the arrivals and the reads |
| `CuttingRuns.PlacingExact` | crates/rx11-core/src/transport.rs:210-289 | THE placing law, for any bulk lane: every pattern of arrivals, hints and socket keeps the priority frames between whole bulk frames if and only if every 64 KiB cut of every batch the writer can form of that lane falls between frames |
| `CuttingRuns.CutReached` | crates/rx11-core/src/transport.rs:258-273 | For any cut that falls inside a frame of a batch that can form, a run that writes a priority frame there |
| `WriterCuts.CleanCutsPlace` | crates/rx11-core/src/transport.rs:210-289 | The other half: with clean cuts no run puts one inside a frame |
| `WriterCuts.BatchFormable` | crates/rx11-core/src/transport.rs:229-251 | What the writer gathers is a formable batch: at most 64 frames, below 256 KiB before the last of them |
| `WriterCuts.SmallIsClean` | crates/rx11-core/src/config.rs:77-89 | Lanes whose batches fit one chunk have no cut at all |
| `WriterProofs.MisplacedExact` | crates/rx11-core/src/transport.rs:258-273 | The converse: at the first priority frame inside a bulk frame, the far end has whole frames up to that bulk frame, and gets it exactly when the octets coming in its place repeat the ones displaced |
| `WriterProofs.CutInside` | crates/rx11-core/src/transport.rs:258-273 | What is out before the first misplaced priority frame is an interleaving of whole frames and a front of one bulk frame |
| `WriterProofs.TornExact` | crates/rx11-core/src/transport.rs:258-273 | For any frame kind and any cut: the frame is found in place exactly when what was pushed in repeats the octets it displaced |
| `WriterProofs.SpliceUnnoticed` | crates/rx11-core/src/protocol/frame.rs:263-310 | Behind the fixed fields of a data frame the far end takes as many octets as were announced for data of the same connection and number |
| `WriterProofs.SpliceCorrupts` | crates/rx11-core/src/transport.rs:258-273 | A frame of any kind whose octets at the cut are not the magic never arrives as it was sent |
| `WriterProofs.CuttingRun` | crates/rx11-core/src/transport.rs:258-273 | A clean run that makes such a cut: any bulk frame of more than one commit chunk and at most two, met by a priority frame arriving while its first chunk goes out |
| `WriterProofs.CuttingRunCorrupts` | crates/rx11-core/src/transport.rs:258-273 | The far end takes from that run a data frame of the right length, connection and number with other octets in it |
| `Queues.QueueBounded` | crates/rx11-core/src/queue.rs:105-132 | With n senders interleaving check, publish and charge freely, the bytes queued never exceed max(budget, M) + (n - 1) * M |
| `Queues.CounterExact` | crates/rx11-core/src/queue.rs:105-132 | The counter with the uncharged bytes is never below the bytes queued and popped, and equals them exactly while no release has saturated |
| `Queues.LeakReachable` | crates/rx11-core/src/queue.rs:249-263 | A frame released between its publication and its charge stays on the counter of an empty idle queue |
| `Queues.QuietProgress` | crates/rx11-core/src/queue.rs:105-132 | A quiet queue lets a frame in exactly when the leak is nothing or leaves room for it |
| `Queues.WaitsForEver` | crates/rx11-core/src/queue.rs:105-132 | Left alone with the receiver, a sender waits for ever exactly when its frame does not fit beside a leak: then no further run changes anything |
| `Queues.CanEnterExactly` | crates/rx11-core/src/queue.rs:105-132 | From any quiet state a run can reach, other senders can let a waiting frame in if and only if the leak leaves it room, or leaves any room at all and there are two other senders or the single one may send a frame long enough, as computed from leak, budget and the largest frame |
| `Queues.OtherSenderFrees` | crates/rx11-core/src/queue.rs:119-121 | One way in: a frame of another sender that fits and is at least as long as the leak |
| `Queues.AtomicExact` | crates/rx11-core/src/queue.rs:105-132 | With publish and charge in one step the counter is the bytes queued, the queue is within budget or holds one frame, and some step is always enabled |
| `Queues.StepKeepsInv` | crates/rx11-core/src/queue.rs:105-132 | Every sub-step keeps the books and the ceiling |
| `QueueLaws.AdmitsExactly` | crates/rx11-core/src/queue.rs:105-132 | THE admission law, in every reachable state: an idle sender's frame gets in exactly when a frame more has a place and the queued and popped bytes, less the uncharged, plus the leak, are none or leave it room |
| `QueueLaws.AdmitsWhenExact` | crates/rx11-core/src/queue.rs:113-132 | With nothing leaked or uncharged: exactly when nothing is queued or popped, or that and the frame are within the budget |
| `QueueLaws.AtomicAdmits` | crates/rx11-core/src/queue.rs:105-132 | The same with publish and charge in one step |
| `QueueLaws.FirstInFirstOut` | crates/rx11-core/src/queue.rs:162-188 | Over every interleaving frames come out in the order they went in, and what is left is what is queued |
| `QueueLaws.DrainsOut` | crates/rx11-core/src/queue.rs:105-132 | From every reachable state what is under way can be finished without any new frame |
| `FlowMeters.EdgesAlternate` | crates/rx11-core/src/flow.rs:80-131 | Under every interleaving of atomic sub-steps edges alternate Pause, Resume between resets and the gauge is never below charged less discharged |
| `FlowMeters.HysteresisExact` | crates/rx11-core/src/flow.rs:59-101 | With whole calls latched implies above low and unlatched implies below high over every run, exactly when low < high |
| `FlowMeters.EdgeSpacing` | crates/rx11-core/src/flow.rs:80-101 | Opposite edges are at least high - low bytes apart |
| `FlowMeters.GaugeBand` | crates/rx11-core/src/flow.rs:80-101 | The invariant behind both, over every run of calls |
| `FlowMeters.Clamp` | crates/rx11-core/src/flow.rs:59-70 | Construction yields low <= high and high >= 1 |
| `FlowMeters.ClampExactly` | crates/rx11-core/src/flow.rs:59-70 | Sane watermarks are kept, and only what is not sane is moved |
| `FlowMeters.LatchedExactly` | crates/rx11-core/src/flow.rs:80-101 | THE latching law: latched exactly when some charge brought the backlog up to the high mark and no discharge since brought it down to the low one |
| `FlowMeters.UninterruptedCharge` | crates/rx11-core/src/flow.rs:80-83 | The sub-steps of a charge, with nobody between, make the whole call: backlog, latch and edge |
| `FlowMeters.UninterruptedDischarge` | crates/rx11-core/src/flow.rs:88-101 | The same of a discharge |
| `FlowMeters.FlowMeter.ChargeBytes` | crates/rx11-core/src/flow.rs:80-83 | The new gauge and the edge are those of the specification |
| `FlowMeters.FlowMeter.DischargeBytes` | crates/rx11-core/src/flow.rs:88-101 | The new gauge and the edge are those of the specification |
| `FlowMeters.FlowMeter.Reset` | crates/rx11-core/src/flow.rs:116-118 | Drops the latch and keeps the backlog |
| `AdvertiserRuns.PausedIffLastPause` | crates/rx11-client/src/serve/mod.rs:190-228 | Over every run of edges, ticks, closes, losses and deliveries a channel is held paused exactly when the last frame emitted for it since it was forgotten was a Pause |
| `AdvertiserRuns.TickReconciles` | crates/rx11-client/src/serve/mod.rs:206-228 | A tick ends the pause of every live unlatched channel and of no other, and states every remaining pause again |
| `AdvertiserRuns.GateAgrees` | crates/rx11-client/src/serve/mod.rs:404-448 | Once any frame emitted since the last transition is applied, the far gate agrees with the table and keeps agreeing whatever else is lost or delivered |
| `AdvertiserRuns.ReopensExactly` | crates/rx11-client/src/serve/mod.rs:404-448 | A shut gate of a channel that is not held can still open without a new edge, close or open exactly when its Resume is still being repeated or one is in the lane |
| `AdvertiserRuns.StrandedForEver` | crates/rx11-core/src/flow.rs:243-251 | From any run that holds a channel at both ends, a lost Resume followed by a redundant one leaves the gate shut for as long as the channel itself does not change |
| `AdvertiserRuns.LateReportSticks` | crates/rx11-client/src/serve/mod.rs:206-228 | The everyday input: the tick that ends a pause, both its Resume frames lost, then the pump's own Resume; the gate stays shut for as long as the channel itself does not change |
| `AdvertiserRuns.RedundantResumeSticks` | crates/rx11-core/src/flow.rs:243-251 | The same, step by step, from any such state |
| `AdvertiserRuns.HeldAtBothEnds` | crates/rx11-client/src/serve/mod.rs:404-448 | The premise of that gap is reachable |
| `AdvertiserRuns.RunKeeps` | crates/rx11-client/src/serve/mod.rs:190-228 | The invariant between table, lane and gates holds after every run |
| `AdvertiserRuns.TickDoes` | crates/rx11-client/src/serve/mod.rs:206-228 | A tick sends a Resume for each ended pause and then everything due, and leaves the reconciled, aged table |
| `Advertisers.ResumeRepeats` | crates/rx11-core/src/flow.rs:271-283 | The edge that ends a pause is sent once and repeated on exactly the next eight ticks |
| `Advertisers.PauseRepeats` | crates/rx11-core/src/flow.rs:271-283 | A held Pause is stated on every tick while it is held |
| `Advertisers.RedundantResumeCancels` | crates/rx11-core/src/flow.rs:243-251 | A Resume for a channel not held sends nothing and silences the channel |
| `Advertisers.CloseSilences` | crates/rx11-core/src/flow.rs:286-289 | Once a channel is closed nothing is said about it until its next edge, whatever was left to repeat |
| `Advertisers.Advertiser.RecordEdge` | crates/rx11-core/src/flow.rs:232-254 | The table after an edge, and a frame exactly on a real transition |
| `Advertisers.Advertiser.Due` | crates/rx11-core/src/flow.rs:271-283 | Every held Pause and every repeated Resume once, and the budgets aged |
| `Advertisers.Advertiser.Forget` | crates/rx11-core/src/flow.rs:286-289 | Drops the channel from both tables |
| `Advertisers.EgressGate.Set` | crates/rx11-core/src/flow.rs:158-164 | The gate takes the value and reports whether it changed |
| `Advertisers.ReAdvertise` | crates/rx11-client/src/serve/mod.rs:206-228 | The reconciliation loop ends each stale pause by an edge and then sends what is due |
| `Supervisors.OneTunnel` | crates/rx11-client/src/ssh.rs:201-286 | At most one tunnel is live, each is killed before the next sleep, attempt or return, and one is live exactly while it is watched |
| `Supervisors.ExhaustedExactly` | crates/rx11-client/src/ssh.rs:250-257 | Read off the log: exhaustion is reported exactly when the run returns after losing a tunnel with the whole budget of consecutive failures since the last success spent, with their number and last error |
| `Supervisors.WaitsGrow` | crates/rx11-client/src/ssh.rs:258-264 | The waits since the last success are the backoffs of 0, 1, 2, ... failures: never shrinking, never past the cap |
| `Supervisors.SessionEndFinal` | crates/rx11-client/src/ssh.rs:228-268 | The session's end wins at once in every phase, with the tunnel torn down, and nothing later changes it |
| `Supervisors.BackoffGrows` | crates/rx11-client/src/ssh.rs:173-177 | The backoff is monotone and capped |
| `Supervisors.BackoffDoubles` | crates/rx11-client/src/ssh.rs:173-177 | The first wait is the base, and each of ten failures doubles it until the cap holds it |
| `Supervisors.DeathSeen` | crates/rx11-client/src/ssh.rs:229-258 | From every run that watches a tunnel, its exit or bad health kills it and, without reconnecting, ends the run with that death; otherwise it leads to the first wait, or to exhaustion without a budget |
| `Supervisors.RebuildSeen` | crates/rx11-client/src/ssh.rs:244-284 | From every run that rebuilds: the timer starts an attempt, success takes over and clears the count, failure adds one with its error and leads to the next wait or to exhaustion, and nothing else moves it |
| `Supervisors.Supervise` | crates/rx11-client/src/ssh.rs:201-286 | The nested loops end as the event-by-event reaction does, whatever the script |
| `Audio.GateExact` | crates/rx11-core/src/audio/mod.rs:184-225 | For every cutting the gate lets through nothing, everything, or everything behind the header; the header goes exactly when the stream is RIFF/WAVE and some read ended past its data header with fewer than 64 KiB buffered |
| `Audio.WalkIsGrammar` | crates/rx11-core/src/audio/mod.rs:206-222 | The stripped prefix is exactly a header of the RIFF grammar, and there is at most one |
| `Audio.SameHeader` | crates/rx11-core/src/audio/mod.rs:184-225 | Two cuttings that both strip, strip the same header |
| `Witnesses.HeaderPlayed` | crates/rx11-core/src/audio/mod.rs:196-201 | A short header before 64 KiB of sound: stripped in two reads, played in one |
| `Audio.PacketsExact` | crates/rx11-core/src/audio/mod.rs:93-115 | The encoder is handed the consecutive 3840-octet blocks, packets carry their block's number modulo 2^32, and the carry is shorter than a block |
| `Audio.CuttingIrrelevant` | crates/rx11-core/src/audio/mod.rs:93-115 | Two cuttings of one stream leave the same packets and state |
| `Audio.CaptureExact` | crates/rx11-server/src/audio/per_app.rs:304-332 | From the recorder's reads through gate and packetizer: which octets are encoded, in which blocks |
| `Audio.FormatGate.FeedBytes` | crates/rx11-core/src/audio/mod.rs:184-225 | The sniffing state and the audio let through are those of the specification |
| `Audio.Packetizer.PushBytes` | crates/rx11-core/src/audio/mod.rs:93-115 | The packets and the state after a push are those of the specification |
| `OutletTables.HeardOnce` | crates/rx11-client/src/audioout/table.rs:138-173 | In per-application mode, over every run, a fed player is audible by the rule; so one player per tag, and a known foreground is the only one heard and never the mix |
| `OutletTables.SettledAfterRefresh` | crates/rx11-client/src/serve/audio.rs:28-57 | After an open or a foreground change exactly the audible players are fed |
| `OutletTables.FedExactly` | crates/rx11-client/src/audioout/table.rs:138-173 | THE selection law, read off the events alone: after an open or a foreground change a player is fed exactly when its channel is open and the relay ships the mix, or it is the lowest channel of the foreground application, or the foreground is unknown and it is untagged or the lowest of its tag |
| `OutletTables.ForegroundHeard` | crates/rx11-client/src/audioout/table.rs:150-160 | An application in the foreground that has an open channel is heard |
| `OutletTables.CloseSettledExactly` | crates/rx11-client/src/audioout/table.rs:90-93 | After a close that still holds exactly when the closed channel was not the one heard of an application with another channel open |
| `OutletTables.OutletTable.IsAudibleNow` | crates/rx11-client/src/audioout/table.rs:138-163 | Computes the rule |
| `OutletTables.OutletTable.IsFirstChannelOfApp` | crates/rx11-client/src/audioout/table.rs:166-173 | True exactly for the lowest-numbered channel of the tag |
| `OutletTables.OutletTable.RefreshAudibility` | crates/rx11-client/src/audioout/table.rs:207-211 | Feeds exactly the players the rule names |
| `OutletTables.OutletTable.InsertOutlet` | crates/rx11-client/src/audioout/table.rs:78-87 | A known channel is refused, a new player starts out fed |
| `OutletTables.OutletTable.RemoveOutlet` | crates/rx11-client/src/audioout/table.rs:90-93 | Forgets the channel and its tag, and selects no other player |
| `OutletTables.OutletTable.SetForegroundTo` | crates/rx11-client/src/audioout/table.rs:108-111 | Records the foreground and selects the players again |

## Left out

- Sockets, timeouts, task scheduling, process spawning and ssh commands: only their outcomes appear, as inputs.
- The inner zstd buffer-growing loops and context pooling: they rest on library behaviour; a context is the history it has been fed.
- JSON control messages: kept as text under their tag, with an uninterpreted validating parser.
- Statistics, logging, token generation and the connector's phases: observational.
- The relay's own connection task, session manager and yield rule: the peer of flow control is modelled by the client's gate handler.
- The scope-less form of a received FlowControl frame and un-negotiated flow control: the advertiser modelled never emits the first and the second ignores every frame.
- Setup watchers and resource ranges: the recoder's setup stage is the harder form of the same parsing.
- Closing of the outbound queue and wake-ups of waiting senders: a sender that waits simply checks again.
- Integer widths of `usize` counters: the gauge, the queue's counter and buffer lengths are unbounded; 32-bit wire fields, sequence numbers, packet numbers and the backoff product have their widths.
- Conversion of a block to 16-bit samples in front of the audio encoder: the encoder takes the block's octets.
- The audio depacketizer: floating-point scaling around a library call.
- Downlink.StreamCrosses: supposes one lane and lengths that fit; `Downlink.StreamsCross` has several connections, `Downlink.BothLanesCross` adds the priority lane, `Downlink.FramesCross` asks only that the frames encode, and `FrameLimits.BuiltEncodable` says exactly which do.
- Downlink.BothLanesCross: the set of owned audio channels is fixed during the run, so sound that comes before its channel is opened or after it is closed is not part of it; frames the priority lane sheds when full never enter it.
- WriterProofs.CuttingRun: one frame of at most two commit chunks, so that its whole output can be written down; `CuttingRuns.CutReached` covers every lane and every cut.
- FrameLimits.FitsExactly: states exactness without compression, because how much a foreign codec gains is not known, and where a diff is worth sending, because the floating-point ratio that decides this is a parameter; with compression `FrameLimits.FitsEncodes` gives the safe side.
- X11RecodeProofs.LengthKept: says nothing about pixel values after the lossy codec, which the codec decides.
