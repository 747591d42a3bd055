/** The ways a legacy HWP read can fail, one per exception the reader lets escape. */
module Errors {

  datatype Error =
    /** `ValueError` from the format gate: a required stream is not listed. */
    | InvalidFormat
    /** The compound-file library cannot open the named stream. */
    | StreamNotFound(name: string)
    /** `IndexError`: the `FileHeader` stream has fewer than 37 bytes. */
    | TruncatedFileHeader
    /** `IndexError`: a listed path lacks the component the enumerator indexes. */
    | MalformedPath
    /** `ValueError` from `int()`: a `BodyText` stream name is not `Section<integer>`. */
    | MalformedSectionName(name: string)
    /** `zlib.error`: a compressed section is not valid raw DEFLATE data. */
    | InflateError
    /** `struct.error`: fewer than 4 bytes remain where a record header is read. */
    | TruncatedRecordHeader
    /** `UnicodeDecodeError`: a text record's payload is not valid UTF-16. */
    | TextDecodeError
}
