/**
 * The HWP 5.0 body-text record stream and its text extractor.
 *
 * A section stream is a run of records. Each record is a 4-byte little-endian
 * header word followed by its payload: bits 0-9 of the word are the tag,
 * bits 10-19 the nesting level (ignored here), bits 20-31 the payload size.
 * The extractor keeps the payload of every paragraph-text record, decoded from
 * UTF-16 and followed by a newline, and skips every other record by its size.
 */
module RecordStream {
  import opened Wrappers
  import opened Errors

  type Byte = bv8
  type Bytes = seq<Byte>

  /** UTF-16 text decoding (`bytes.decode('utf-16')`); `None` where the codec raises. */
  type Decoder = Bytes -> Option<string>

  const HEADER_SIZE: nat := 4
  const HWPTAG_BEGIN: nat := 0x10
  const HWPTAG_PARA_TEXT: nat := HWPTAG_BEGIN + 51

  function Min(a: int, b: int): int { if a <= b then a else b }

  // ----- the header word ----------------------------------------------------

  /** `struct.unpack_from("<I", data, at)[0]`: the word whose bytes, least significant first, are `data[at..at + 4]`. */
  function ReadU32LE(data: Bytes, at: nat): (w: bv32)
    requires at + HEADER_SIZE <= |data|
    ensures w & 0xFF == data[at] as bv32 && (w >> 8) & 0xFF == data[at + 1] as bv32
    ensures (w >> 16) & 0xFF == data[at + 2] as bv32 && w >> 24 == data[at + 3] as bv32
  {
    (data[at + 3] as bv32 << 24) | (data[at + 2] as bv32 << 16) | (data[at + 1] as bv32 << 8) | (data[at] as bv32)
  }

  /** `header & 0x3ff`. */
  function RecordTag(header: bv32): (tag: nat)
    ensures tag < 1024
  {
    (header & 0x3FF) as nat
  }

  /** `(header >> 20) & 0xfff`. */
  function RecordSize(header: bv32): (size: nat)
    ensures size < 4096
  {
    ((header >> 20) & 0xFFF) as nat
  }

  /**
   * The tag of the header at `at`: bits 0-9 of its little-endian word, that is
   * the first byte and the low two bits of the second.
   */
  function TagAt(data: Bytes, at: nat): (tag: nat)
    requires at + HEADER_SIZE <= |data|
    ensures tag < 1024
  {
    data[at] as int + 256 * (data[at + 1] as int % 4)
  }

  /**
   * The payload size of the header at `at`: bits 20-31 of its little-endian
   * word, that is the high nibble of the third byte and the fourth byte. The
   * level bits in between take no part in either field.
   */
  function SizeAt(data: Bytes, at: nat): (size: nat)
    requires at + HEADER_SIZE <= |data|
    ensures size < 4096
  {
    data[at + 2] as int / 16 + 16 * data[at + 3] as int
  }

  /** The masks and shift applied to the assembled header word pick out exactly those bits. */
  lemma HeaderFields(data: Bytes, at: nat)
    requires at + HEADER_SIZE <= |data|
    ensures RecordTag(ReadU32LE(data, at)) == TagAt(data, at)
    ensures RecordSize(ReadU32LE(data, at)) == SizeAt(data, at)
  {
    assert (data[at + 1] & 3) as int == data[at + 1] as int % 4;
    assert (data[at + 2] >> 4) as int == data[at + 2] as int / 16;
  }

  /** Where the cursor goes after the header at `at`: `4 + size` on, not clamped, like the source's `cursor`. */
  function NextAt(data: Bytes, at: nat): (next: nat)
    requires at + HEADER_SIZE <= |data|
    ensures next >= at + HEADER_SIZE
  {
    at + HEADER_SIZE + SizeAt(data, at)
  }

  /** The payload of the record at `at`, clamped to the buffer like a Python slice. */
  function PayloadAt(data: Bytes, at: nat): (payload: Bytes)
    requires at + HEADER_SIZE <= |data|
    ensures |payload| == Min(SizeAt(data, at), |data| - at - HEADER_SIZE)
  {
    data[at + HEADER_SIZE..Min(NextAt(data, at), |data|)]
  }

  // ----- the extractor as a function ----------------------------------------

  /** `prefix` put in front of a successful result; a failure is passed on. */
  function Prepend(prefix: string, r: Result<string, Error>): Result<string, Error>
  {
    match r
    case Success(t) => Success(prefix + t)
    case Failure(e) => Failure(e)
  }

  lemma PrependEmpty(r: Result<string, Error>)
    ensures Prepend("", r) == r
  {
    if r.Success? { assert "" + r.value == r.value; }
  }

  lemma PrependPrepend(a: string, b: string, r: Result<string, Error>)
    ensures Prepend(a, Prepend(b, r)) == Prepend(a + b, r)
  {
    if r.Success? { assert a + (b + r.value) == (a + b) + r.value; }
  }

  /**
   * What the walk produces from cursor `at` on: the decoded text of every
   * paragraph-text record, each followed by a newline, in stream order. The
   * first failure ends the walk: a header cut short, or a text payload the
   * decoder rejects. A cursor at or past the end produces nothing.
   */
  function ExtractFrom(data: Bytes, at: nat, decode: Decoder): (r: Result<string, Error>)
    ensures r.Failure? ==> r.error == TruncatedRecordHeader || r.error == TextDecodeError
    ensures r.Success? ==> r.value == [] || r.value[|r.value| - 1] == '\n'
    decreases |data| - at
  {
    if |data| <= at then Success("")
    else if |data| - at < HEADER_SIZE then Failure(TruncatedRecordHeader)
    else
      var rest := ExtractFrom(data, NextAt(data, at), decode);
      if TagAt(data, at) == HWPTAG_PARA_TEXT then
        match decode(PayloadAt(data, at))
        case None => Failure(TextDecodeError)
        case Some(s) => Prepend(s + "\n", rest)
      else rest
  }

  /** `extract_text(data)`: the walk from offset 0. */
  function Extract(data: Bytes, decode: Decoder): (r: Result<string, Error>)
    ensures data == [] ==> r == Success("")
    ensures 0 < |data| < HEADER_SIZE ==> r == Failure(TruncatedRecordHeader)
  {
    ExtractFrom(data, 0, decode)
  }

  /**
   * A final record whose size reaches or passes the end of the buffer: its
   * payload is whatever bytes remain, with no error for the shortfall, and the
   * walk stops after it.
   */
  lemma ExtractLastRecord(data: Bytes, decode: Decoder)
    requires HEADER_SIZE <= |data| <= HEADER_SIZE + SizeAt(data, 0)
    ensures TagAt(data, 0) != HWPTAG_PARA_TEXT ==> Extract(data, decode) == Success("")
    ensures TagAt(data, 0) == HWPTAG_PARA_TEXT ==>
      Extract(data, decode) == (match decode(data[HEADER_SIZE..]) case None => Failure(TextDecodeError) case Some(s) => Success(s + "\n"))
  {
    assert PayloadAt(data, 0) == data[HEADER_SIZE..];
    assert ExtractFrom(data, NextAt(data, 0), decode) == Success("");
    forall t: string ensures Prepend(t, Success("")) == Success(t) {
      assert t + "" == t;
    }
  }

  /** Starting the walk inside a buffer is starting it on the buffer's suffix. */
  lemma {:induction false} ExtractFromDrop(data: Bytes, k: nat, at: nat, decode: Decoder)
    requires k <= |data|
    ensures ExtractFrom(data, k + at, decode) == ExtractFrom(data[k..], at, decode)
    decreases |data| - k - at
  {
    var tail := data[k..];
    if k + at + HEADER_SIZE <= |data| {
      HeaderShift(data, k, at);
      ExtractFromDrop(data, k, NextAt(tail, at), decode);
    }
  }

  /** The walk from cursor `k` is the walk over the buffer's suffix from `k`. */
  lemma ExtractSuffix(data: Bytes, k: nat, decode: Decoder)
    requires k <= |data|
    ensures ExtractFrom(data, k, decode) == Extract(data[k..], decode)
  {
    ExtractFromDrop(data, k, 0, decode);
  }

  /** A header read inside a suffix is the header read at the shifted offset of the whole. */
  lemma HeaderShift(data: Bytes, k: nat, at: nat)
    requires k <= |data| && at + HEADER_SIZE <= |data| - k
    ensures SizeAt(data[k..], at) == SizeAt(data, k + at)
    ensures TagAt(data[k..], at) == TagAt(data, k + at)
    ensures NextAt(data, k + at) == k + NextAt(data[k..], at)
    ensures PayloadAt(data, k + at) == PayloadAt(data[k..], at)
  {
    assert data[k..][at..at + HEADER_SIZE] == data[k + at..k + at + HEADER_SIZE];
  }

  // ----- record boundaries --------------------------------------------------

  /** The offsets at which the walk from `at` reads a header, in order. */
  function HeadersFrom(data: Bytes, at: nat): (s: seq<nat>)
    ensures forall i :: 0 <= i < |s| ==> at <= s[i] < |data|
    decreases |data| - at
  {
    if |data| <= at then []
    else if |data| - at < HEADER_SIZE then [at]
    else [at] + HeadersFrom(data, NextAt(data, at))
  }

  /** Offsets `s[i]` and `s[i + 1]` are one whole record apart in `data`. */
  predicate Consecutive(data: Bytes, s: seq<nat>, i: nat)
    requires i + 1 < |s|
  {
    s[i] + HEADER_SIZE <= |data| && s[i + 1] == NextAt(data, s[i])
  }

  /** The walk ends at `last`: its header is cut short or its record reaches the end of `data`. */
  predicate EndsWalk(data: Bytes, last: nat)
  {
    last + HEADER_SIZE > |data| || last + HEADER_SIZE + SizeAt(data, last) >= |data|
  }

  /**
   * Every header is read at a record boundary: the first where the walk
   * starts, each next one exactly `4 + size` past the one before, whatever its
   * tag; and the boundaries end only at a header cut short or a record that
   * reaches the buffer's end. (The walk itself also stops at a text payload
   * the decoder rejects; `ExtractText` states where.)
   */
  lemma {:induction false} HeadersAreBoundaries(data: Bytes, at: nat)
    ensures at < |data| <==> |HeadersFrom(data, at)| > 0
    ensures at < |data| ==> HeadersFrom(data, at)[0] == at && EndsWalk(data, HeadersFrom(data, at)[|HeadersFrom(data, at)| - 1])
    ensures forall i :: 0 <= i < |HeadersFrom(data, at)| - 1 ==> Consecutive(data, HeadersFrom(data, at), i)
    decreases |data| - at
  {
    if at + HEADER_SIZE <= |data| {
      var next := NextAt(data, at);
      var s, t := HeadersFrom(data, at), HeadersFrom(data, next);
      HeadersAreBoundaries(data, next);
      assert s == [at] + t;
      if |t| > 0 {
        assert Consecutive(data, s, 0);
        forall i | 1 <= i < |s| - 1 ensures Consecutive(data, s, i) {
          assert Consecutive(data, t, i - 1);
        }
        assert s[|s| - 1] == t[|t| - 1];
      }
    }
  }

  // ----- the extractor as a loop --------------------------------------------

  /**
   * One header read of the loop: unpack the little-endian word at `at` and
   * mask out the tag and the size.
   */
  method ReadRecordHeader(data: Bytes, at: nat) returns (tag: nat, length: nat)
    requires at + HEADER_SIZE <= |data|
    ensures tag == TagAt(data, at) && length == SizeAt(data, at)
  {
    var header := ReadU32LE(data, at);
    tag, length := RecordTag(header), RecordSize(header);
    HeaderFields(data, at);
  }

  /** The walk at a cursor at or past the end: no text and no header. */
  lemma WalkDone(data: Bytes, at: nat, decode: Decoder)
    requires |data| <= at
    ensures ExtractFrom(data, at, decode) == Success("") && HeadersFrom(data, at) == []
  {
  }

  /** The walk at a header cut short: it fails there, after reading that one header. */
  lemma WalkTruncated(data: Bytes, at: nat, decode: Decoder)
    requires at < |data| < at + HEADER_SIZE
    ensures ExtractFrom(data, at, decode) == Failure(TruncatedRecordHeader) && HeadersFrom(data, at) == [at]
  {
  }

  /**
   * The walk at a whole header reads it, then goes on from `NextAt(data, at)`;
   * so the offsets read so far, then this one, then the rest are the same list.
   */
  lemma WalkHeader(data: Bytes, at: nat, offsets: seq<nat>)
    requires at + HEADER_SIZE <= |data|
    ensures HeadersFrom(data, at) == [at] + HeadersFrom(data, NextAt(data, at))
    ensures (offsets + [at]) + HeadersFrom(data, NextAt(data, at)) == offsets + HeadersFrom(data, at)
  {
    var rest := HeadersFrom(data, NextAt(data, at));
    assert (offsets + [at]) + rest == offsets + ([at] + rest);
  }

  /** One step of the walk at a whole header. */
  lemma WalkAt(data: Bytes, at: nat, decode: Decoder)
    requires at + HEADER_SIZE <= |data|
    ensures TagAt(data, at) != HWPTAG_PARA_TEXT ==> ExtractFrom(data, at, decode) == ExtractFrom(data, NextAt(data, at), decode)
    ensures TagAt(data, at) == HWPTAG_PARA_TEXT && decode(PayloadAt(data, at)).None? ==>
      ExtractFrom(data, at, decode) == Failure(TextDecodeError)
    ensures TagAt(data, at) == HWPTAG_PARA_TEXT && decode(PayloadAt(data, at)).Some? ==>
      ExtractFrom(data, at, decode) == Prepend(decode(PayloadAt(data, at)).value + "\n", ExtractFrom(data, NextAt(data, at), decode))
  {
  }

  lemma PrefixOfAppend(a: seq<nat>, b: seq<nat>, c: seq<nat>)
    requires a + b == c
    ensures a <= c
  {
    assert c[..|a|] == a;
  }

  /**
   * `extract_text` as the source writes it: a cursor starts at 0 and, while it
   * is inside the buffer, reads a header there, appends the decoded payload of
   * a paragraph-text record, and moves on by `4 + size`. It computes `Extract`,
   * and the offsets where it reads headers are `HeadersFrom(data, 0)` (a prefix
   * of them when a text payload fails to decode).
   */
  method ExtractText(data: Bytes, decode: Decoder) returns (r: Result<string, Error>, ghost offsets: seq<nat>)
    ensures r == Extract(data, decode)
    ensures offsets <= HeadersFrom(data, 0)
    ensures r != Failure(TextDecodeError) ==> offsets == HeadersFrom(data, 0)
  {
    var text: string, cursor: nat := "", 0;
    offsets := [];
    PrependEmpty(Extract(data, decode));
    while cursor < |data|
      invariant Extract(data, decode) == Prepend(text, ExtractFrom(data, cursor, decode))
      invariant offsets + HeadersFrom(data, cursor) == HeadersFrom(data, 0)
      decreases |data| - cursor
    {
      if |data| - cursor < HEADER_SIZE {
        WalkTruncated(data, cursor, decode);
        return Failure(TruncatedRecordHeader), offsets + [cursor];
      }
      var tag, length := ReadRecordHeader(data, cursor);
      var next := cursor + HEADER_SIZE + length;
      assert next == NextAt(data, cursor);
      WalkHeader(data, cursor, offsets);
      offsets := offsets + [cursor];
      if tag == HWPTAG_PARA_TEXT {
        var payload := data[cursor + HEADER_SIZE..Min(next, |data|)];
        assert payload == PayloadAt(data, cursor);
        WalkAt(data, cursor, decode);
        var decoded := decode(payload);
        if decoded.None? {
          PrefixOfAppend(offsets, HeadersFrom(data, next), HeadersFrom(data, 0));
          return Failure(TextDecodeError), offsets;
        }
        var line := decoded.value + "\n";
        PrependPrepend(text, line, ExtractFrom(data, next, decode));
        text := text + line;
      } else {
        WalkAt(data, cursor, decode);
      }
      cursor := next;
    }
    WalkDone(data, cursor, decode);
    assert offsets + [] == offsets;
    assert text + "" == text;
    r := Success(text);
  }

  // ----- records as values ---------------------------------------------------

  /** A record as a writer of the stream would lay it out. */
  datatype Record = Record(tag: nat, level: nat, payload: Bytes)

  predicate WellFormed(r: Record)
  {
    r.tag < 1024 && r.level < 1024 && |r.payload| < 4096
  }

  predicate AllWellFormed(rs: seq<Record>)
  {
    forall i :: 0 <= i < |rs| ==> WellFormed(rs[i])
  }

  /** The byte whose value is `n`. */
  function ByteOf(n: nat): (b: Byte)
    requires n < 256
    ensures b as int == n
  {
    if n == 0 then 0 else ByteOf(n - 1) + 1
  }

  /** The 4 little-endian bytes of `tag | level << 10 | size << 20`. */
  function EncodeHeader(tag: nat, level: nat, size: nat): (h: Bytes)
    requires tag < 1024 && level < 1024 && size < 4096
    ensures |h| == HEADER_SIZE
  {
    [ByteOf(tag % 256), ByteOf(tag / 256 + 4 * (level % 64)),
     ByteOf(level / 64 + 16 * (size % 16)), ByteOf(size / 16)]
  }

  /** Decoding a written header gives back its tag and size, whatever its level. */
  lemma HeaderRoundTrip(tag: nat, level: nat, size: nat, rest: Bytes)
    requires tag < 1024 && level < 1024 && size < 4096
    ensures TagAt(EncodeHeader(tag, level, size) + rest, 0) == tag
    ensures SizeAt(EncodeHeader(tag, level, size) + rest, 0) == size
  {
    HeaderArithmetic(tag, level, size);
  }

  lemma HeaderArithmetic(tag: nat, level: nat, size: nat)
    requires tag < 1024 && level < 1024 && size < 4096
    ensures tag % 256 + 256 * ((tag / 256 + 4 * (level % 64)) % 4) == tag
    ensures (level / 64 + 16 * (size % 16)) / 16 + 16 * (size / 16) == size
  {
  }

  function EncodeRecord(r: Record): (b: Bytes)
    requires WellFormed(r)
    ensures |b| == HEADER_SIZE + |r.payload|
  {
    EncodeHeader(r.tag, r.level, |r.payload|) + r.payload
  }

  function Encode(rs: seq<Record>): Bytes
    requires AllWellFormed(rs)
  {
    if rs == [] then [] else EncodeRecord(rs[0]) + Encode(rs[1..])
  }

  /** The text one record contributes: a decoded line for a paragraph-text record, nothing otherwise. */
  function RecordText(r: Record, decode: Decoder): Result<string, Error>
  {
    if r.tag != HWPTAG_PARA_TEXT then Success("")
    else match decode(r.payload)
      case None => Failure(TextDecodeError)
      case Some(s) => Success(s + "\n")
  }

  /** Sequential composition of two text results: the first failure wins. */
  function Then(a: Result<string, Error>, b: Result<string, Error>): Result<string, Error>
  {
    match a
    case Failure(e) => Failure(e)
    case Success(s) => Prepend(s, b)
  }

  /** Reference meaning of a record list: its records' texts in order. */
  function TextOf(rs: seq<Record>, decode: Decoder): Result<string, Error>
  {
    if rs == [] then Success("") else Then(RecordText(rs[0], decode), TextOf(rs[1..], decode))
  }

  lemma ThenAssoc(a: Result<string, Error>, b: Result<string, Error>, c: Result<string, Error>)
    ensures Then(Then(a, b), c) == Then(a, Then(b, c))
  {
    if a.Success? && b.Success? && c.Success? {
      assert (a.value + b.value) + c.value == a.value + (b.value + c.value);
    }
  }

  /** A written record at the front of a buffer is read back as itself, then the walk continues after it. */
  lemma ExtractRecord(r: Record, tail: Bytes, decode: Decoder)
    requires WellFormed(r)
    ensures Extract(EncodeRecord(r) + tail, decode) == Then(RecordText(r, decode), Extract(tail, decode))
  {
    var data := EncodeRecord(r) + tail;
    WrittenHeader(r, tail);
    ExtractSuffix(data, |EncodeRecord(r)|, decode);
    PrependEmpty(Extract(tail, decode));
    WalkAt(data, 0, decode);
  }

  /** The header at the front of a written record gives back its tag, payload and end. */
  lemma WrittenHeader(r: Record, tail: Bytes)
    requires WellFormed(r)
    ensures var data := EncodeRecord(r) + tail;
      && HEADER_SIZE <= |data|
      && TagAt(data, 0) == r.tag
      && NextAt(data, 0) == |EncodeRecord(r)|
      && PayloadAt(data, 0) == r.payload
      && data[|EncodeRecord(r)|..] == tail
  {
    var data := EncodeRecord(r) + tail;
    HeaderRoundTrip(r.tag, r.level, |r.payload|, r.payload + tail);
    assert data == EncodeHeader(r.tag, r.level, |r.payload|) + (r.payload + tail);
  }

  /**
   * Written records followed by any bytes: their texts in order, then whatever
   * the rest of the buffer yields.
   */
  lemma {:induction false} ExtractEncoded(rs: seq<Record>, tail: Bytes, decode: Decoder)
    requires AllWellFormed(rs)
    ensures Extract(Encode(rs) + tail, decode) == Then(TextOf(rs, decode), Extract(tail, decode))
  {
    if rs == [] {
      assert Encode(rs) + tail == tail;
      PrependEmpty(Extract(tail, decode));
    } else {
      var rest := Encode(rs[1..]) + tail;
      assert Encode(rs) + tail == EncodeRecord(rs[0]) + rest;
      ExtractRecord(rs[0], rest, decode);
      ExtractEncoded(rs[1..], tail, decode);
      ThenAssoc(RecordText(rs[0], decode), TextOf(rs[1..], decode), Extract(tail, decode));
    }
  }

  /** A buffer made only of written records reads as the records' texts, including a last record ending exactly at the buffer's end. */
  lemma ExtractEncode(rs: seq<Record>, decode: Decoder)
    requires AllWellFormed(rs)
    ensures Extract(Encode(rs), decode) == TextOf(rs, decode)
  {
    ExtractEncoded(rs, [], decode);
    assert Encode(rs) + [] == Encode(rs);
    var t := TextOf(rs, decode);
    if t.Success? { assert t.value + "" == t.value; }
  }

  /**
   * Splitting a stream right after written records: the text of the whole is
   * the text of the front part, then the text of the rest. `WrittenPrefix`
   * lifts this to every record boundary of any buffer.
   */
  lemma ExtractSplit(rs: seq<Record>, tail: Bytes, decode: Decoder)
    requires AllWellFormed(rs)
    ensures Extract(Encode(rs) + tail, decode) == Then(Extract(Encode(rs), decode), Extract(tail, decode))
  {
    ExtractEncoded(rs, tail, decode);
    ExtractEncode(rs, decode);
  }

  /**
   * Records other than paragraph text contribute nothing: inserting one right
   * after written records leaves the extracted text (or error) unchanged.
   */
  lemma SkipNonTextRecord(before: seq<Record>, r: Record, after: Bytes, decode: Decoder)
    requires AllWellFormed(before) && WellFormed(r) && r.tag != HWPTAG_PARA_TEXT
    ensures Extract(Encode(before) + EncodeRecord(r) + after, decode) == Extract(Encode(before) + after, decode)
  {
    var rest := EncodeRecord(r) + after;
    assert Encode(before) + EncodeRecord(r) + after == Encode(before) + rest;
    ExtractEncoded(before, rest, decode);
    ExtractRecord(r, after, decode);
    PrependEmpty(Extract(after, decode));
    assert Extract(rest, decode) == Extract(after, decode);
    ExtractEncoded(before, after, decode);
  }

  // ----- every boundary of every buffer is a written prefix ---------------------

  /**
   * The level of the header at `at`: bits 10-19 of its little-endian word, that
   * is the high six bits of the second byte and the low nibble of the third.
   */
  function LevelAt(data: Bytes, at: nat): (level: nat)
    requires at + HEADER_SIZE <= |data|
    ensures level < 1024
  {
    data[at + 1] as int / 4 + 64 * (data[at + 2] as int % 16)
  }

  /** A byte is the byte of its own value. */
  lemma ByteOfValue(b: Byte)
    ensures ByteOf(b as int) == b
  {
    if b != 0 {
      ByteOfValue(b - 1);
    }
  }

  /**
   * The digits of the three header fields, read from four byte values, give
   * back those byte values when written out again.
   */
  lemma HeaderDigits(i0: int, i1: int, i2: int, i3: int, tag: int, level: int, size: int)
    requires 0 <= i0 < 256 && 0 <= i1 < 256 && 0 <= i2 < 256 && 0 <= i3 < 256
    requires tag == i0 + 256 * (i1 % 4) && level == i1 / 4 + 64 * (i2 % 16) && size == i2 / 16 + 16 * i3
    ensures tag % 256 == i0 && tag / 256 + 4 * (level % 64) == i1
    ensures level / 64 + 16 * (size % 16) == i2 && size / 16 == i3
  {
    assert tag % 256 == i0 && tag / 256 == i1 % 4;
    assert level % 64 == i1 / 4 && level / 64 == i2 % 16;
    assert size % 16 == i2 / 16 && size / 16 == i3;
  }

  /** Byte `k` of the header rewritten from the fields of `h` is byte `k` of `h`. */
  lemma HeaderByte(h: Bytes, k: nat)
    requires |h| == HEADER_SIZE && k < HEADER_SIZE
    ensures EncodeHeader(TagAt(h, 0), LevelAt(h, 0), SizeAt(h, 0))[k] == h[k]
  {
    HeaderDigits(h[0] as int, h[1] as int, h[2] as int, h[3] as int, TagAt(h, 0), LevelAt(h, 0), SizeAt(h, 0));
    ByteOfValue(h[k]);
  }

  /** Any four bytes are the written header of the tag, level and size they hold. */
  lemma HeaderAt(data: Bytes, at: nat)
    requires at + HEADER_SIZE <= |data|
    ensures EncodeHeader(TagAt(data, at), LevelAt(data, at), SizeAt(data, at)) == data[at..at + HEADER_SIZE]
  {
    var h := data[at..at + HEADER_SIZE];
    assert TagAt(h, 0) == TagAt(data, at) && LevelAt(h, 0) == LevelAt(data, at) && SizeAt(h, 0) == SizeAt(data, at);
    forall k | 0 <= k < HEADER_SIZE
      ensures EncodeHeader(TagAt(h, 0), LevelAt(h, 0), SizeAt(h, 0))[k] == h[k]
    {
      HeaderByte(h, k);
    }
  }

  /** Writing one more record in front of written records. */
  lemma EncodeCons(r: Record, rest: seq<Record>)
    requires WellFormed(r) && AllWellFormed(rest)
    ensures AllWellFormed([r] + rest) && Encode([r] + rest) == EncodeRecord(r) + Encode(rest)
  {
    assert ([r] + rest)[1..] == rest;
  }

  lemma SliceSplit<T>(a: seq<T>, i: nat, j: nat, k: nat)
    requires i <= j <= k <= |a|
    ensures a[i..k] == a[i..j] + a[j..k]
  {
  }

  /** The whole record at `at`, as a writer would have laid it out. */
  function RecordAt(data: Bytes, at: nat): (r: Record)
    requires at + HEADER_SIZE <= |data| && NextAt(data, at) <= |data|
    ensures WellFormed(r) && EncodeRecord(r) == data[at..NextAt(data, at)]
  {
    HeaderAt(data, at);
    Record(TagAt(data, at), LevelAt(data, at), data[at + HEADER_SIZE..NextAt(data, at)])
  }

  /**
   * The bytes from where a walk starts up to any header it reads are written
   * records: whatever the buffer, each record boundary ends a written prefix.
   */
  lemma {:induction false} WrittenPrefix(data: Bytes, at: nat, i: nat)
    requires i < |HeadersFrom(data, at)|
    ensures exists rs :: AllWellFormed(rs) && data[at..HeadersFrom(data, at)[i]] == Encode(rs)
    decreases i
  {
    var s := HeadersFrom(data, at);
    if i == 0 {
      assert data[at..s[0]] == Encode([]);
    } else {
      var next := NextAt(data, at);
      var t := HeadersFrom(data, next);
      assert s == [at] + t;
      WrittenPrefix(data, next, i - 1);
      var rest :| AllWellFormed(rest) && data[next..t[i - 1]] == Encode(rest);
      var r := RecordAt(data, at);
      EncodeCons(r, rest);
      SliceSplit(data, at, next, s[i]);
      assert data[at..s[i]] == Encode([r] + rest);
    }
  }

  /**
   * Cutting any buffer at any of its record boundaries: the text of the whole
   * is the text of the front part, then the text of the rest.
   */
  lemma ExtractSplitAtBoundary(data: Bytes, i: nat, decode: Decoder)
    requires i < |HeadersFrom(data, 0)|
    ensures var cut := HeadersFrom(data, 0)[i];
      Extract(data, decode) == Then(Extract(data[..cut], decode), Extract(data[cut..], decode))
  {
    var cut := HeadersFrom(data, 0)[i];
    WrittenPrefix(data, 0, i);
    var rs :| AllWellFormed(rs) && data[0..cut] == Encode(rs);
    assert data == Encode(rs) + data[cut..];
    ExtractSplit(rs, data[cut..], decode);
  }

  /**
   * Inserting a well-formed record of a tag other than paragraph text at any
   * record boundary of any buffer leaves the extracted text (or error) unchanged.
   */
  lemma SkipNonTextAtBoundary(data: Bytes, i: nat, r: Record, decode: Decoder)
    requires i < |HeadersFrom(data, 0)|
    requires WellFormed(r) && r.tag != HWPTAG_PARA_TEXT
    ensures var cut := HeadersFrom(data, 0)[i];
      Extract(data[..cut] + EncodeRecord(r) + data[cut..], decode) == Extract(data, decode)
  {
    var cut := HeadersFrom(data, 0)[i];
    WrittenPrefix(data, 0, i);
    var rs :| AllWellFormed(rs) && data[0..cut] == Encode(rs);
    assert data == Encode(rs) + data[cut..];
    SkipNonTextRecord(rs, r, data[cut..], decode);
  }

  /** A decoder that, like Python's UTF-16 codec, rejects an odd number of bytes. */
  ghost predicate RejectsOddLength(decode: Decoder)
  {
    forall b: Bytes :: |b| % 2 == 1 ==> decode(b) == None
  }

  /**
   * A paragraph-text record with an odd payload length stops the walk with a
   * decode error, once the records before it have decoded.
   */
  lemma OddTextPayloadFails(before: seq<Record>, r: Record, after: Bytes, decode: Decoder)
    requires RejectsOddLength(decode)
    requires AllWellFormed(before) && WellFormed(r)
    requires r.tag == HWPTAG_PARA_TEXT && |r.payload| % 2 == 1
    requires TextOf(before, decode).Success?
    ensures Extract(Encode(before) + EncodeRecord(r) + after, decode) == Failure(TextDecodeError)
  {
    assert Encode(before) + EncodeRecord(r) + after == Encode(before) + (EncodeRecord(r) + after);
    ExtractEncoded(before, EncodeRecord(r) + after, decode);
    ExtractRecord(r, after, decode);
  }
}
