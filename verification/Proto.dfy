/** The protocol messages, field by field. Every proto2 field is optional. */
module Proto {
  import opened Basics

  // ---- Transport: one fragment of a serialized packet ----

  datatype Chunk = Chunk(
    payloadId: Option<U32>,
    chunkId: Option<U32>,
    totalPayloadSize: Option<U32>,
    payload: Option<Bytes>,
    retransmitId: Option<U32>)

  datatype PacketChunk =
    | ChunkMessage(chunk: Chunk)
    | ChunkAck(ackPayloadId: Option<U32>, ackChunkId: Option<U32>)
    | EmptyPacketChunk

  // ---- Application: what a packet says ----

  datatype FileTransferHeader = FileTransferHeader(filename: Option<string>, size: Option<U32>, id: Option<U32>)

  datatype FileTransferChunk = FileTransferChunk(id: Option<U32>, chunkId: Option<U32>, chunk: Option<Bytes>)

  datatype Packet = HeaderPacket(header: FileTransferHeader) | ChunkPacket(fileChunk: FileTransferChunk) | EmptyPacket
}
