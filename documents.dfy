/** The `{content, metadata}` document the loader produces, the
    preprocessor rewrites and the chunker consumes. */
module Documents {

  /** A metadata value, standing for Python's `Any` in `Dict[str, Any]`: the
      integers, floats, strings and nested dictionaries the pipeline itself
      stores, and `Other` for values it only passes along. */
  datatype Value =
    | IntV(i: int)
    | RealV(r: real)
    | StrV(s: string)
    | MapV(m: map<string, Value>)
    | Other(tag: nat)

  type Metadata = map<string, Value>

  /** A document dictionary. Its fields are updated in place. */
  class Document {
    var content: string
    var metadata: Metadata

    constructor (content: string, metadata: Metadata)
      ensures this.content == content && this.metadata == metadata
    {
      this.content := content;
      this.metadata := metadata;
    }
  }

  /** A value or the exception the source raises instead. */
  datatype Result<+T, +E> = Ok(value: T) | Err(error: E)
}
