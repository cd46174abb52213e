/**
 * What both programs hand to a Chroma collection: an id, a document and a
 * metadata map whose values are strings or integers.
 */
module VectorRecords {

  datatype MetaValue = Text(text: string) | Int(number: int)

  type Metadata = map<string, MetaValue>

  /** One stored entry of a collection, apart from its id and its embedding. */
  datatype VectorRecord = VectorRecord(document: string, metadata: Metadata)
}
