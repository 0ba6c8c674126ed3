/** Records shared by ingestion, retrieval and generation. */
module Records {
  /** The metadata stored beside every indexed chunk: its file, that file's title, and its position. */
  datatype Metadata = Metadata(source: string, title: string, chunkIndex: nat)

  /** One retrieved chunk, as the retriever hands it to the generator. */
  datatype RetrievedChunk = RetrievedChunk(text: string, source: string, title: string, chunkIndex: nat)
}
