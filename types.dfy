/**
 * The data shapes of src/types.rs, and the three-way outcome of a format
 * parser (`enums::Result`): a complete description of the file, a list of
 * formats it may still turn out to be, or a file the parser does not know.
 */
module Types {
  import opened Common
  import opened Enums

  /** The nanoseconds of a `Duration`, always below one second. */
  type Nanos = n: int | 0 <= n < 1_000_000_000

  /** `std::time::Duration`: whole seconds and the nanoseconds below one second. */
  datatype Duration = Duration(secs: uint64, nanos: Nanos)

  /** `types::Size`: the frame size in pixels. */
  datatype Size = Size(width: uint16, height: uint16)

  /** `types::Metadata`: what a parser reports about a whole file. */
  datatype Metadata = Metadata(
    format: KnownTypes,
    duration: Duration,
    size: Size,
    video: string,
    audio: Option<string>)

  /** `enums::Result`. */
  datatype Result =
    | Complete(metadata: Metadata)
    | Incomplete(candidates: seq<KnownTypes>)
    | Unknown
}
