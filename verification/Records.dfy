// The records every part of Sift shares: chunk rows, embeddings and their identities.

module Wrappers {
  datatype Option<+T> = None | Some(value: T)

  datatype Result<+T, +E> = Ok(value: T) | Err(error: E)
}

module Records {
  import opened Wrappers

  /** Position of a chunk's embedding in the matrix, and its rowid in the table. */
  type RowId = nat

  /** One fp16 value, kept as its bit pattern. */
  type Half = x: int | 0 <= x < 0x1_0000

  type Vector = seq<Half>

  datatype ContentHash = ContentHash(digest: seq<int>)

  datatype ChunkRecord = ChunkRecord(
    repository: string,
    file: string,
    language: string,
    symbol: string,
    symbolType: string,
    signature: string,
    docFirstLine: Option<string>,
    lineStart: nat,
    lineEnd: nat,
    contentHash: ContentHash
  )

  /** A chunk on its way into the store: its record and the text to embed. */
  datatype Chunk = Chunk(rec: ChunkRecord, body: string)

  /** Why an embedder fails. The daemon tells its client of a missing GPU in particular; any
      other failure is its message. */
  datatype InferError = GpuUnavailable(detail: string) | OtherInference(detail: string)

  function Hashes(chunks: seq<Chunk>): set<ContentHash> {
    set c | c in chunks :: c.rec.contentHash
  }
}
