/** Document metadata, shared by both components. */
module Metadata {

  /** Metadata of a document or byte stream; values are kept as text. */
  type Meta = map<string, string>
}
