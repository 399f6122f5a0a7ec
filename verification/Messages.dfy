/** The data-plane messages and the frames of the wire
    (crates/rx11-core/src/protocol/messages.rs). */
module Messages {
  import opened Bytes

  datatype Chunk = Chunk(offset: nat, length: nat, data: Bytes)

  datatype DiffMessage = DiffMessage(
    connectionId: u32, sequenceId: u32, baseSequenceId: u32, totalLen: nat, chunks: seq<Chunk>)

  /** Every control message travels as JSON text, which is kept uninterpreted:
      `tag` is its wire tag and `json` its serialized form. */
  datatype Frame =
    | StreamData(connectionId: u32, sequenceId: u32, data: Bytes)
    | CompressedStreamData(connectionId: u32, sequenceId: u32, originalLen: nat, data: Bytes)
    | IncrementalStreamData(diff: DiffMessage)
    | CompressedIncrementalStreamData(connectionId: u32, sequenceId: u32, originalLen: nat, data: Bytes)
    | Control(tag: u16, json: Bytes)
    | Heartbeat
    | HeartbeatAck
}
