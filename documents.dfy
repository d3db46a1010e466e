/** The text-plus-metadata record the ingestion builds and the vector store returns. */
module Documents {

  import opened Wrappers

  /** The metadata dictionary attached to a page or a chunk. `page` may be
      absent on an entry of the store; every Document built by ingestion has one. */
  datatype Metadata = Metadata(page: Option<nat>, author: string, novel: string)

  /** A page (or a chunk of a page) of a novel. */
  datatype Document = Document(pageContent: string, metadata: Metadata)
}
