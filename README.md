# gethwp: the HWP 5.0 text reader, modelled in Dafny

`read_hwp` pulls the plain text out of a legacy Hancom HWP 5.0 document. This
file format is an OLE compound file. The reader works in four steps:

1. It gates the container. Both `FileHeader` and `\x05HwpSummaryInformation`
   must be listed.
2. It reads the compression flag: bit 0 of byte 36 of `FileHeader`.
3. It enumerates the `BodyText/Section<N>` streams in ascending id order.
4. For each section, it inflates the stream when the flag is set and walks its
   record stream. A record is a little-endian 32-bit header followed by its
   payload. The header's tag is bits 0-9 and its size is bits 20-31. The
   payload of every paragraph-text record (tag 67) is decoded from UTF-16, and
   a newline is added after it.

The section texts are joined with newlines, and the whole is stripped.

The project has these modules:

- `Wrappers`: `Option`, `Result` and `Outcome`.
- `Errors`: the ways a read can fail.
- `Text`: the Python string built-ins the reader uses, namely `str.join`,
  `str.strip`, `str.replace(pat, "")`, `int()` and `str()`.
- `RecordStream`: the record walk of `extract_text`. It appears twice:
  - `ExtractFrom`/`Extract`, a recursive function that walks from a cursor;
  - `ExtractText`, the source's `while` loop over a cursor and a text
    accumulator, proved to compute `Extract`.

  It also holds a record writer (`Record`, `Encode`), used to state what a
  stream of records reads back as. `WrittenPrefix` shows that, in any buffer,
  the bytes before each record boundary are such written records, so what is
  proved about written records holds at every boundary of every buffer.
- `Container`: the opened compound file (listed paths and stream bytes) and
  three functions over it:
  - `validate_hwp_file`;
  - `get_compression_flag`;
  - `get_section_ids`, with its sort.
- `HwpReader`: `read_section` and `read_hwp`.

Two operations are parameters of the model, because they are foreign calls:

- `Decoder` stands for UTF-16 decoding. It is a function from bytes to an
  optional string, and `None` stands for the codec raising.
- `Inflater` stands for raw DEFLATE inflation. It is a function from bytes to
  optional bytes.

Python exceptions become `Failure` values of the `Errors.Error` datatype:

| Error | Raised when |
|---|---|
| `InvalidFormat` | the gate's `ValueError` |
| `StreamNotFound` | a missing stream |
| `TruncatedFileHeader` | the `IndexError` on a short `FileHeader` |
| `MalformedPath` | the `IndexError` on a listed path with too few components |
| `MalformedSectionName` | `int()` fails |
| `InflateError` | zlib raises |
| `TruncatedRecordHeader` | `struct.error` with fewer than 4 bytes left |
| `TextDecodeError` | the codec raises |

Three behaviours of the code are worth spelling out:

- **Payload past the end of the buffer.** A record whose declared size passes
  the end of the buffer is not an error. The payload is a Python slice, which
  is clamped: the last record gets whatever bytes remain, and the loop then
  ends. `PayloadAt` and `ExtractLastRecord` model this.
- **Duplicate section ids.** The parsed ids are sorted without removing
  duplicates, so `SectionIds` keeps each one as often as it is listed.
- **Negative section ids.** `int()` accepts a sign, so `Section-1` is read as
  id -1.

## Model

| member | source | states |
|---|---|---|
| RecordStream.ReadU32LE | gethwp/__init__.py:45 | the unpacked word holds the four bytes at the cursor, least significant first |
| RecordStream.RecordTag | gethwp/__init__.py:46 | the tag `header & 0x3ff` is below 1024 |
| RecordStream.RecordSize | gethwp/__init__.py:46 | the size `(header >> 20) & 0xfff` is below 4096 |
| RecordStream.TagAt | gethwp/__init__.py:45-46 | the tag of the header at a cursor, from the first byte and the low two bits of the second, is below 1024 |
| RecordStream.SizeAt | gethwp/__init__.py:45-46 | the size of the header at a cursor, from the high nibble of the third byte and the fourth byte, is below 4096 |
| RecordStream.HeaderFields | gethwp/__init__.py:45-46 | masking and shifting the assembled little-endian word gives exactly `TagAt` and `SizeAt`; the level bits take no part |
| RecordStream.ReadRecordHeader | gethwp/__init__.py:45-46 | the header read inside the loop yields the tag and size of the record at the cursor |
| RecordStream.NextAt | gethwp/__init__.py:49 | the cursor moves on by `4 + size`, so it strictly increases; it is not clamped to the buffer |
| RecordStream.PayloadAt | gethwp/__init__.py:48 | the payload slice is `size` bytes long, or the bytes that remain when fewer do (Python slice clamping) |
| RecordStream.ExtractFrom | gethwp/__init__.py:42-50 | the walk from a cursor fails only on a header cut short or a payload the decoder rejects, and its text is empty or ends with the newline added after each paragraph |
| RecordStream.Extract | gethwp/__init__.py:42-50 | an empty buffer yields `""` without entering the loop; a buffer of 1-3 bytes fails reading the first header |
| RecordStream.ExtractLastRecord | gethwp/__init__.py:48-49 | a first record whose size reaches or passes the buffer's end gets the remaining bytes as its payload, with no error, and the walk stops after it |
| RecordStream.ExtractFromDrop | gethwp/__init__.py:44-49 | walking from cursor `k + at` of a buffer is walking from `at` in the buffer's suffix from `k` |
| RecordStream.HeadersFrom | gethwp/__init__.py:44-49 | the offsets where the walk reads headers all lie inside the buffer, at or after where it started |
| RecordStream.HeadersAreBoundaries | gethwp/__init__.py:44-49 | the walk reads a header iff the cursor is inside the buffer; the first header is where it starts, each next one is exactly `4 + size` past the one before, whatever its tag; the record boundaries end only at a header cut short or a record reaching the end (the walk itself can stop earlier, at a text payload the decoder rejects, as `ExtractText` states) |
| RecordStream.WalkTruncated | gethwp/__init__.py:44-45 | with 1-3 bytes left at the cursor, the walk fails there after reading that one header |
| RecordStream.WalkAt | gethwp/__init__.py:47-49 | one loop step: a record of another tag adds nothing; a tag-67 payload the decoder rejects fails the walk; otherwise its decoded text and a newline come before the rest of the walk |
| RecordStream.ExtractText | gethwp/__init__.py:42-50 | the `while` loop computes `Extract`; the offsets where it reads headers are exactly the record boundaries `HeadersFrom(data, 0)`, or a prefix of them when a text payload fails to decode |
| RecordStream.EncodeHeader | gethwp/__init__.py:45-46 | a written header for a tag, a level and a size is 4 bytes long |
| RecordStream.HeaderRoundTrip | gethwp/__init__.py:45-46 | reading a written header gives back its tag and its size, whatever its level and whatever follows it |
| RecordStream.ExtractRecord | gethwp/__init__.py:47-49 | a written record at the front of a buffer contributes its decoded text and a newline if its tag is 67, nothing otherwise, and the walk goes on right after it |
| RecordStream.ExtractEncoded | gethwp/__init__.py:43-50 | written records followed by any bytes read as the records' texts in order, then whatever the rest yields; the first failure wins |
| RecordStream.ExtractEncode | gethwp/__init__.py:43-50 | a buffer of written records, the last one ending exactly at the end, reads as the in-order concatenation of `decode(payload) + "\n"` over its tag-67 records |
| RecordStream.ExtractSplit | gethwp/__init__.py:43-50 | a buffer whose front part is written records, followed by any bytes: the text of the whole is the text of the front, then the text of the rest |
| RecordStream.SkipNonTextRecord | gethwp/__init__.py:47-48 | inserting a well-formed record of another tag right after written records leaves the result, text or error, unchanged |
| RecordStream.LevelAt | gethwp/__init__.py:45-46 | the level bits of the header at a cursor, which the source masks away, form a value below 1024 |
| RecordStream.HeaderAt | gethwp/__init__.py:45-46 | any four bytes are exactly the header written for the tag, level and size read from them, so every header the loop reads could have been written |
| RecordStream.RecordAt | gethwp/__init__.py:45-49 | a record lying wholly inside the buffer is a well-formed written record whose bytes are exactly those from its header to the next cursor |
| RecordStream.WrittenPrefix | gethwp/__init__.py:44-49 | for any buffer, the bytes from the start of the walk to any offset where it reads a header are a run of well-formed written records |
| RecordStream.ExtractSplitAtBoundary | gethwp/__init__.py:43-50 | cutting any buffer at any record boundary the walk reaches: the text of the whole is the text of the front, then the text of the rest |
| RecordStream.SkipNonTextAtBoundary | gethwp/__init__.py:47-48 | inserting a well-formed record of a tag other than 67 at any record boundary of any buffer leaves the result, text or error, unchanged |
| RecordStream.OddTextPayloadFails | gethwp/__init__.py:48 | with a UTF-16 decoder that rejects odd lengths, a tag-67 record with an odd payload length fails the walk once the records before it have decoded |
| Text.Join | gethwp/__init__.py:17 | the first part, then the separator when there is a second part, begin the joined string |
| Text.JoinIsPlainName | gethwp/__init__.py:22 | a name without the separator is the join of exactly the one-element list holding it, and of no other list |
| Text.LeadingSpaces | gethwp/__init__.py:17 | the count of leading characters for which `isspace()` holds: all of them are spaces and the next one is not |
| Text.TrailingSpaces | gethwp/__init__.py:17 | the count of trailing characters for which `isspace()` holds: all of them are spaces and the one before is not |
| Text.Strip | gethwp/__init__.py:17 | the result is one contiguous piece of the input, with only spaces before and after it, and it neither starts nor ends with a space |
| Text.StripExact | gethwp/__init__.py:17 | stripping removes an all-space prefix and suffix and nothing inside: a body with non-space ends is kept whole, inner spaces included |
| Text.StripIdempotent | gethwp/__init__.py:17 | stripping twice gives the same as stripping once |
| Text.RemoveAll | gethwp/__init__.py:31 | `replace(pat, "")` never lengthens a string and leaves one without `pat`'s first character unchanged |
| Text.ParseInt | gethwp/__init__.py:31 | `int()` fails exactly on the empty string, a lone sign, or a string with a non-digit after its optional sign; a negative result comes from a leading `-` |
| Text.NatToString | gethwp/__init__.py:36 | `str(n)` of a natural number is a non-empty run of decimal digits with no leading zero |
| Text.IntToString | gethwp/__init__.py:36 | `str(i)` is non-empty and made of digits and a minus sign |
| Text.NatToStringValue | gethwp/__init__.py:36 | the digits `str(n)` prints have value `n` |
| Text.ParseIntToString | gethwp/__init__.py:31-36 | `int(str(i)) == i` for every integer |
| Container.ValidateHwpFile | gethwp/__init__.py:20-23 | the gate passes, or fails with `InvalidFormat`; nothing else can happen |
| Container.JoinedName | gethwp/__init__.py:22 | a name without `/` is among the `/`-joined listed paths iff the one-component path holding it is listed |
| Container.ValidateListed | gethwp/__init__.py:21-23 | the gate passes iff `FileHeader` and `\x05HwpSummaryInformation` are both listed at the root |
| Container.CompressionFlag | gethwp/__init__.py:25-27 | the flag read fails only because `FileHeader` is missing or too short, and succeeds only on a header of at least 37 bytes |
| Container.CompressionFlagBit | gethwp/__init__.py:25-27 | a missing `FileHeader` fails with the library's error; otherwise the flag fails iff the header has 36 bytes or fewer, and is true iff byte 36 is odd |
| Container.CompressionFlagOnlyBitZero | gethwp/__init__.py:27 | headers whose byte 36 agrees in bit 0 give the same flag, whatever their other bits and bytes |
| Container.SectionId | gethwp/__init__.py:31-32 | a path contributes no id iff its first component is not `BodyText`; it is malformed iff it is empty or `BodyText` alone; any other failure is the section name that `int()` rejects |
| Container.ListedIds | gethwp/__init__.py:30-33 | the generator yields at most one id per listed path, and a failure is the error of the first path that fails |
| Container.ListedIdsStep | gethwp/__init__.py:30-33 | one step of the generator: it fails iff the first path or the rest fails, and otherwise adds the first path's id, if any, to the rest's |
| Container.ListedIdsBag | gethwp/__init__.py:30-33 | the generator succeeds iff every listed path parses, and then yields exactly the multiset of ids the `BodyText` paths carry |
| Container.ListedIdsCons | gethwp/__init__.py:30-33 | a `BodyText` path puts its id in front of the ids of the rest; any other path adds nothing |
| Container.BagOfAppend | gethwp/__init__.py:30-33 | the ids of two listings put together are the ids of each, added up |
| Container.BagOfPermutation | gethwp/__init__.py:30-33 | listings holding the same paths in any order carry the same multiset of ids |
| Container.IdBagPermutation | gethwp/__init__.py:30-33 | the listing's ids, as a bag, do not depend on listing order |
| Container.Insert | gethwp/__init__.py:30 | inserting into an ascending list keeps it ascending and adds exactly the one element |
| Container.Sort | gethwp/__init__.py:30 | `sorted` returns an ascending list holding the same elements, each as often |
| Container.SortedUnique | gethwp/__init__.py:30 | two ascending lists with the same elements are equal, so `sorted`'s result is determined by the multiset |
| Container.SortExample | gethwp/__init__.py:30 | `sorted([2, 0, 1]) == [0, 1, 2]` |
| Container.SectionIds | gethwp/__init__.py:29-33 | `get_section_ids` fails iff the generator does, with its error, and otherwise returns the generated ids in ascending order, the same ids each as often |
| Container.SectionIdsSorted | gethwp/__init__.py:29-33 | `get_section_ids` fails iff some listed path is malformed; otherwise its result is ascending and a permutation of the ids of the `BodyText` paths, duplicates kept |
| Container.SectionIdsOrderIndependent | gethwp/__init__.py:29-33 | containers that list the same paths in different orders both fail or give the same ids |
| Container.SectionPath | gethwp/__init__.py:36 | the path opened for a section, joined with `/`, is the string `BodyText/Section{id}` |
| Container.CanonicalSectionName | gethwp/__init__.py:31-36 | the stream name `read_section` opens for an id is enumerated as that id |
| Container.ListedSections | gethwp/__init__.py:30-33 | a listing of section paths enumerates as their ids, in listing order, before the sort |
| Container.ListedCanonical | gethwp/__init__.py:30-33 | a listing of the canonical section paths for any ids enumerates as those ids before the sort |
| Container.SectionOrderExample | gethwp/__init__.py:29-33 | sections listed as 2, 0, 1 after `FileHeader` are enumerated as 0, 1, 2 |
| HwpReader.Inflate | gethwp/__init__.py:38-39 | uncompressed bytes pass through unchanged; the step fails, with `InflateError`, iff the section is compressed and inflation fails |
| HwpReader.ReadSection | gethwp/__init__.py:35-40 | a missing section stream fails naming `BodyText/Section{id}`; a read fails only for a missing stream, a failed inflation, a header cut short or a payload that does not decode |
| HwpReader.ReadSections | gethwp/__init__.py:15 | the comprehension succeeds iff every section read does, gives one text per id with each equal to that section's text, and otherwise fails with the error of one of them |
| HwpReader.ReadSectionsFirstFailure | gethwp/__init__.py:15 | a failing comprehension fails with the error of the first section that fails: every section before it reads |
| HwpReader.AssembleText | gethwp/__init__.py:17 | the assembled text is one piece of the newline join, with only whitespace around it, and neither starts nor ends with whitespace |
| HwpReader.ReadSectionCompressed | gethwp/__init__.py:38-39 | a compressed section reads like an uncompressed one holding the inflated bytes, or fails when inflation fails |
| HwpReader.ReadSectionIgnoresInflater | gethwp/__init__.py:38-39 | an uncompressed section is never handed to the inflater |
| HwpReader.ReadHwp | gethwp/__init__.py:11-17 | a container that fails the gate is rejected with `InvalidFormat`; a successful read neither starts nor ends with whitespace |
| HwpReader.ReadHwpRejectsInvalid | gethwp/__init__.py:13 | a container missing either required stream is rejected with `InvalidFormat`, before anything is read |
| HwpReader.ReadHwpResult | gethwp/__init__.py:11-17 | a successful read passed the gate and read the flag, and its ids are sorted and a permutation of the listed ones; its result is the stripped newline join of those sections' texts, in that order |
| HwpReader.ReadHwpSucceeds | gethwp/__init__.py:11-17 | conversely, when the gate passes, the flag and the ids read, and every listed section reads, the read succeeds as the stripped newline join of those sections' texts in ascending id order |
| HwpReader.NoSectionIds | gethwp/__init__.py:32 | a listing without `BodyText` paths yields no ids |
| HwpReader.ReadHwpNoSections | gethwp/__init__.py:15-17 | a valid container with a full header and no `BodyText` stream reads as `""` |
| HwpReader.ReadHwpListingOrder | gethwp/__init__.py:15 | listing order changes nothing: containers that list the same streams in any order both fail, or read the same text |
| HwpReader.SameSections | gethwp/__init__.py:15 | reading sections depends on the container's streams only |
| HwpReader.AssembleKeepsInnerSpace | gethwp/__init__.py:17 | only the outer whitespace of the joined text is stripped: `["  a  ", "b"]` assembles to `"a  \nb"` |
| HwpReader.OneSectionHeader | gethwp/__init__.py:13-15 | a document with one uncompressed `Section0` passes the gate, has the flag off and enumerates as `[0]` |
| HwpReader.ReadOneSectionDocument | gethwp/__init__.py:11-17 | a document with one uncompressed section of written records reads as those records' texts, stripped, or fails as they do |
| HwpReader.HelloText | gethwp/__init__.py:47-48 | one tag-67 record decoding to `Hello` yields `"Hello\n"` |
| HwpReader.StripHello | gethwp/__init__.py:17 | stripping `"Hello\n"` gives `"Hello"` |
| HwpReader.ReadHello | gethwp/__init__.py:11-17 | such a document reads as `"Hello"`: the newline the walk adds after the last paragraph is stripped |
| HwpReader.SectionNameNotReopened | gethwp/__init__.py:31-36 | a listed `Section01` is enumerated as id 1, but the reader then opens `Section1`, a different stream |

## Left out

- Opening the compound file, `listdir` and `openstream` are foreign I/O. The
  container is given as its listed stream paths and a map from path to bytes.
- Container.OpenStream stands in for the library's `openstream`. It is a plain
  map lookup: the stream's bytes, or `StreamNotFound` with the `/`-joined
  path. The library matches stream names without regard to case; the model
  looks paths up exactly.
- Context-manager release of the file and its streams is I/O lifecycle, not
  logic.
- Raw DEFLATE inflation (`zlib.decompress(data, -15)`) is the `Inflater`
  parameter. RFC 1951 is not modelled.
- UTF-16 decoding is the `Decoder` parameter. BOM detection, byte order and
  surrogate checks are not modelled. `RejectsOddLength` states the one property
  used about it.
- Text.ParseInt: accepts an optional sign and ASCII decimal digits only.
  Python's `int()` also allows surrounding whitespace, `_` between digits and
  non-ASCII decimal digits.
- Text.IsSpace lists the code points for which `str.isspace()` holds. It is not
  derived from the Unicode database.
- The HWP extended-size form, a size field of `0xFFF` followed by a 4-byte
  length, is not implemented by the source. The model reads `0xFFF` as the size,
  as the source does.
- `read_hwpx`, `change_word` and the `__main__` block are not part of this
  model. They are zip, XML and file-writing glue.
- Integers are unbounded in both Python and the model, so there is no overflow
  to model. The 32-bit header word is a `bv32`.
