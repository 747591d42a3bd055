/**
 * `read_hwp`: gate the container, read the compression flag, enumerate the
 * sections in ascending id order, read each one's text, then join the texts
 * with newlines and strip the whole.
 */
module HwpReader {
  import opened Wrappers
  import opened Errors
  import opened Text
  import opened RecordStream
  import opened Container

  /** `zlib.decompress(data, -15)`: raw DEFLATE inflation; `None` where zlib raises. */
  type Inflater = Bytes -> Option<Bytes>

  /** Inflate when the document says its sections are compressed; pass the bytes on otherwise. */
  function Inflate(raw: Bytes, compressed: bool, inflate: Inflater): (r: Result<Bytes, Error>)
    ensures !compressed ==> r == Success(raw)
    ensures r.Failure? <==> compressed && inflate(raw).None?
    ensures r.Failure? ==> r.error == InflateError
  {
    if !compressed then Success(raw)
    else match inflate(raw)
      case None => Failure(InflateError)
      case Some(data) => Success(data)
  }

  /** `read_section`: open the section's stream, inflate it if need be, and extract its text. */
  function ReadSection(ole: Ole, id: int, compressed: bool, inflate: Inflater, decode: Decoder): (r: Result<string, Error>)
    ensures SectionPath(id) !in ole.streams ==> r == Failure(StreamNotFound("BodyText/Section" + IntToString(id)))
    ensures r.Failure? ==> r.error.StreamNotFound? || r.error in {InflateError, TruncatedRecordHeader, TextDecodeError}
  {
    var raw :- OpenStream(ole, SectionPath(id));
    var data :- Inflate(raw, compressed, inflate);
    Extract(data, decode)
  }

  /** The list comprehension in `read_hwp`: each section's text, in the order of `ids`; the first failure ends it. */
  function ReadSections(ole: Ole, ids: seq<int>, compressed: bool, inflate: Inflater, decode: Decoder): (r: Result<seq<string>, Error>)
    ensures r.Success? <==> forall k :: 0 <= k < |ids| ==> ReadSection(ole, ids[k], compressed, inflate, decode).Success?
    ensures r.Success? ==> |r.value| == |ids|
    ensures r.Success? ==>
      forall k :: 0 <= k < |ids| ==> ReadSection(ole, ids[k], compressed, inflate, decode) == Success(r.value[k])
    ensures r.Failure? ==> exists k :: 0 <= k < |ids| && ReadSection(ole, ids[k], compressed, inflate, decode) == Failure(r.error)
  {
    if ids == [] then Success([])
    else
      var text :- ReadSection(ole, ids[0], compressed, inflate, decode);
      var rest :- ReadSections(ole, ids[1..], compressed, inflate, decode);
      assert forall k :: 1 <= k < |ids| ==> ids[k] == ids[1..][k - 1];
      Success([text] + rest)
  }

  /** The sections `ids[..k]` all read: a failure at `k` is the first one. */
  predicate SectionsRead(ole: Ole, ids: seq<int>, k: nat, compressed: bool, inflate: Inflater, decode: Decoder)
    requires k <= |ids|
  {
    forall j :: 0 <= j < k ==> ReadSection(ole, ids[j], compressed, inflate, decode).Success?
  }

  /** `'\n'.join(section_texts).strip()`. */
  function AssembleText(texts: seq<string>): (r: string)
    ensures r == [] || (!IsSpace(r[0]) && !IsSpace(r[|r| - 1]))
    ensures exists i ::
      && 0 <= i <= |Join("\n", texts)| - |r| && r == Join("\n", texts)[i..i + |r|]
      && AllSpace(Join("\n", texts)[..i]) && AllSpace(Join("\n", texts)[i + |r|..])
  {
    Strip(Join("\n", texts))
  }

  /** `read_hwp` on an opened container. */
  function ReadHwp(ole: Ole, inflate: Inflater, decode: Decoder): (r: Result<string, Error>)
    ensures ValidateHwpFile(ole).Fail? ==> r == Failure(InvalidFormat)
    ensures r.Success? ==> r.value == [] || (!IsSpace(r.value[0]) && !IsSpace(r.value[|r.value| - 1]))
  {
    match ValidateHwpFile(ole)
    case Fail(e) => Failure(e)
    case Pass =>
      var compressed :- CompressionFlag(ole);
      var ids :- SectionIds(ole);
      var texts :- ReadSections(ole, ids, compressed, inflate, decode);
      Success(AssembleText(texts))
  }

  /** The comprehension raises the error of the first section that fails to read. */
  lemma {:induction false} ReadSectionsFirstFailure(ole: Ole, ids: seq<int>, compressed: bool, inflate: Inflater, decode: Decoder)
    requires ReadSections(ole, ids, compressed, inflate, decode).Failure?
    ensures var e := ReadSections(ole, ids, compressed, inflate, decode).error;
      exists k :: 0 <= k < |ids| && ReadSection(ole, ids[k], compressed, inflate, decode) == Failure(e) &&
        SectionsRead(ole, ids, k, compressed, inflate, decode)
  {
    var e := ReadSections(ole, ids, compressed, inflate, decode).error;
    if ReadSection(ole, ids[0], compressed, inflate, decode).Failure? {
      assert SectionsRead(ole, ids, 0, compressed, inflate, decode);
    } else {
      var tail := ids[1..];
      ReadSectionsCons(ole, ids, compressed, inflate, decode);
      ReadSectionsFirstFailure(ole, tail, compressed, inflate, decode);
      var k :| 0 <= k < |tail| && ReadSection(ole, tail[k], compressed, inflate, decode) == Failure(e) &&
        SectionsRead(ole, tail, k, compressed, inflate, decode);
      SectionsReadCons(ole, ids, k, compressed, inflate, decode);
      assert tail[k] == ids[k + 1];
    }
  }

  /** After a first section that reads, the comprehension goes on with the rest. */
  lemma ReadSectionsCons(ole: Ole, ids: seq<int>, compressed: bool, inflate: Inflater, decode: Decoder)
    requires ids != [] && ReadSection(ole, ids[0], compressed, inflate, decode).Success?
    ensures ReadSections(ole, ids, compressed, inflate, decode).Failure? ==>
      ReadSections(ole, ids[1..], compressed, inflate, decode) == Failure(ReadSections(ole, ids, compressed, inflate, decode).error)
  {
  }

  lemma SectionsReadCons(ole: Ole, ids: seq<int>, k: nat, compressed: bool, inflate: Inflater, decode: Decoder)
    requires k < |ids| - 1 && ReadSection(ole, ids[0], compressed, inflate, decode).Success?
    requires SectionsRead(ole, ids[1..], k, compressed, inflate, decode)
    ensures SectionsRead(ole, ids, k + 1, compressed, inflate, decode)
  {
    forall j | 0 < j < k + 1 ensures ReadSection(ole, ids[j], compressed, inflate, decode).Success? {
      assert ids[j] == ids[1..][j - 1];
    }
  }

  // ----- properties of read_section -----------------------------------------

  /**
   * A compressed section reads like an uncompressed one holding the inflated
   * bytes; when inflation fails, the read fails with the inflater's error.
   */
  lemma ReadSectionCompressed(ole: Ole, id: int, inflate: Inflater, decode: Decoder)
    requires SectionPath(id) in ole.streams
    ensures var raw := ole.streams[SectionPath(id)];
      match inflate(raw)
      case None => ReadSection(ole, id, true, inflate, decode) == Failure(InflateError)
      case Some(data) =>
        ReadSection(ole, id, true, inflate, decode) ==
        ReadSection(ole.(streams := ole.streams[SectionPath(id) := data]), id, false, inflate, decode)
  {
  }

  /** An uncompressed section is never handed to the inflater. */
  lemma ReadSectionIgnoresInflater(ole: Ole, id: int, inflate1: Inflater, inflate2: Inflater, decode: Decoder)
    ensures ReadSection(ole, id, false, inflate1, decode) == ReadSection(ole, id, false, inflate2, decode)
  {
  }

  // ----- properties of read_hwp ---------------------------------------------

  /** A container without `FileHeader` or the summary stream is rejected before anything is read. */
  lemma ReadHwpRejectsInvalid(ole: Ole, inflate: Inflater, decode: Decoder)
    requires [FILE_HEADER] !in ole.listing || [SUMMARY_INFORMATION] !in ole.listing
    ensures ReadHwp(ole, inflate, decode) == Failure(InvalidFormat)
  {
    ValidateListed(ole);
  }

  /**
   * A successful read is the gate passed, the flag read, and the texts of the
   * listed sections, in ascending id order, joined with newlines and stripped.
   */
  lemma ReadHwpResult(ole: Ole, inflate: Inflater, decode: Decoder)
    requires ReadHwp(ole, inflate, decode).Success?
    ensures [FILE_HEADER] in ole.listing && [SUMMARY_INFORMATION] in ole.listing
    ensures CompressionFlag(ole).Success? && SectionIds(ole).Success?
    ensures var ids := SectionIds(ole).value;
      && SortedAscending(ids) && multiset(ids) == IdBag(ole.listing)
      && exists texts: seq<string> ::
        && |texts| == |ids|
        && (forall k :: 0 <= k < |ids| ==> ReadSection(ole, ids[k], CompressionFlag(ole).value, inflate, decode) == Success(texts[k]))
        && ReadHwp(ole, inflate, decode) == Success(Strip(Join("\n", texts)))
  {
    ValidateListed(ole);
    SectionIdsSorted(ole);
    var texts := ReadSections(ole, SectionIds(ole).value, CompressionFlag(ole).value, inflate, decode).value;
    assert ReadHwp(ole, inflate, decode) == Success(Strip(Join("\n", texts)));
  }

  /**
   * Conversely, a container that passes the gate, whose flag and ids read,
   * and whose every listed section reads, is read successfully, as the
   * stripped newline join of those sections' texts in ascending id order.
   */
  lemma ReadHwpSucceeds(ole: Ole, inflate: Inflater, decode: Decoder)
    requires [FILE_HEADER] in ole.listing && [SUMMARY_INFORMATION] in ole.listing
    requires CompressionFlag(ole).Success? && SectionIds(ole).Success?
    requires forall k :: 0 <= k < |SectionIds(ole).value| ==>
      ReadSection(ole, SectionIds(ole).value[k], CompressionFlag(ole).value, inflate, decode).Success?
    ensures ReadHwp(ole, inflate, decode).Success?
    ensures exists texts: seq<string> ::
      && |texts| == |SectionIds(ole).value|
      && (forall k :: 0 <= k < |texts| ==>
        ReadSection(ole, SectionIds(ole).value[k], CompressionFlag(ole).value, inflate, decode) == Success(texts[k]))
      && ReadHwp(ole, inflate, decode) == Success(Strip(Join("\n", texts)))
  {
    ValidateListed(ole);
    var texts := ReadSections(ole, SectionIds(ole).value, CompressionFlag(ole).value, inflate, decode).value;
    assert ReadHwp(ole, inflate, decode) == Success(Strip(Join("\n", texts)));
  }

  /** A valid container with no `BodyText` stream reads as the empty string, not as an error. */
  lemma ReadHwpNoSections(ole: Ole, inflate: Inflater, decode: Decoder)
    requires [FILE_HEADER] in ole.listing && [SUMMARY_INFORMATION] in ole.listing
    requires [FILE_HEADER] in ole.streams && |ole.streams[[FILE_HEADER]]| > FLAGS_OFFSET
    requires forall i :: 0 <= i < |ole.listing| ==> |ole.listing[i]| > 0 && ole.listing[i][0] != BODY_TEXT
    ensures ReadHwp(ole, inflate, decode) == Success("")
  {
    ValidateListed(ole);
    NoSectionIds(ole.listing);
    assert Join("\n", []) == "";
    assert Strip("") == "";
  }

  lemma {:induction false} NoSectionIds(listing: seq<Path>)
    requires forall i :: 0 <= i < |listing| ==> |listing[i]| > 0 && listing[i][0] != BODY_TEXT
    ensures ListedIds(listing) == Success([])
  {
    if listing != [] {
      assert forall i :: 0 <= i < |listing[1..]| ==> listing[1..][i] == listing[i + 1];
      NoSectionIds(listing[1..]);
    }
  }

  /**
   * The order in which the container lists its streams changes nothing in a
   * successful read: the sections are read by ascending id either way.
   */
  lemma ReadHwpListingOrder(a: Ole, b: Ole, inflate: Inflater, decode: Decoder)
    requires multiset(a.listing) == multiset(b.listing) && a.streams == b.streams
    ensures ReadHwp(a, inflate, decode).Success? <==> ReadHwp(b, inflate, decode).Success?
    ensures ReadHwp(a, inflate, decode).Success? ==> ReadHwp(a, inflate, decode) == ReadHwp(b, inflate, decode)
  {
    assert ValidateHwpFile(a) == ValidateHwpFile(b) by {
      ValidateListed(a);
      ValidateListed(b);
      assert [FILE_HEADER] in a.listing <==> [FILE_HEADER] in multiset(b.listing);
      assert [SUMMARY_INFORMATION] in a.listing <==> [SUMMARY_INFORMATION] in multiset(b.listing);
    }
    assert CompressionFlag(a) == CompressionFlag(b);
    SectionIdsOrderIndependent(a, b);
    if SectionIds(a).Success? && CompressionFlag(a).Success? {
      SameSections(a, b, SectionIds(a).value, CompressionFlag(a).value, inflate, decode);
    }
  }

  /** Reading a list of sections looks only at the container's streams. */
  lemma {:induction false} SameSections(a: Ole, b: Ole, ids: seq<int>, compressed: bool, inflate: Inflater, decode: Decoder)
    requires a.streams == b.streams
    ensures ReadSections(a, ids, compressed, inflate, decode) == ReadSections(b, ids, compressed, inflate, decode)
  {
    if ids != [] {
      assert OpenStream(a, SectionPath(ids[0])) == OpenStream(b, SectionPath(ids[0]));
      assert ReadSection(a, ids[0], compressed, inflate, decode) == ReadSection(b, ids[0], compressed, inflate, decode);
      SameSections(a, b, ids[1..], compressed, inflate, decode);
    }
  }

  // ----- whole documents ----------------------------------------------------

  /** Only the ends of the joined text are stripped: `["  a  ", "b"]` assembles to `"a  \nb"`. */
  lemma AssembleKeepsInnerSpace()
    ensures AssembleText(["  a  ", "b"]) == "a  \nb"
  {
    assert Join("\n", ["  a  ", "b"]) == "  " + "a  \nb" + "";
    StripExact("  ", "a  \nb", "");
  }

  /** The one-section document the reader is built for: an uncompressed `Section0` of written records. */
  predicate OneSectionDocument(ole: Ole, rs: seq<Record>)
  {
    && AllWellFormed(rs)
    && ole.listing == [[FILE_HEADER], [SUMMARY_INFORMATION], SectionPath(0)]
    && [FILE_HEADER] in ole.streams && |ole.streams[[FILE_HEADER]]| > FLAGS_OFFSET
    && ole.streams[[FILE_HEADER]][FLAGS_OFFSET] as int % 2 == 0
    && SectionPath(0) in ole.streams && ole.streams[SectionPath(0)] == Encode(rs)
  }

  /** Such a document reads as its records' texts, stripped; a record that fails to decode fails the read. */
  lemma ReadOneSectionDocument(ole: Ole, rs: seq<Record>, inflate: Inflater, decode: Decoder)
    requires OneSectionDocument(ole, rs)
    ensures ReadHwp(ole, inflate, decode) ==
      match TextOf(rs, decode)
      case Success(t) => Success(Strip(t))
      case Failure(e) => Failure(e)
  {
    OneSectionHeader(ole, rs);
    ExtractEncode(rs, decode);
    assert ReadSection(ole, 0, false, inflate, decode) == TextOf(rs, decode);
    var sections := ReadSections(ole, [0], false, inflate, decode);
    if sections.Success? {
      assert sections.value == [sections.value[0]];
    }
  }

  /** Such a document passes the gate, is uncompressed and holds the one section 0. */
  lemma OneSectionHeader(ole: Ole, rs: seq<Record>)
    requires OneSectionDocument(ole, rs)
    ensures ValidateHwpFile(ole) == Pass && CompressionFlag(ole) == Success(false)
    ensures SectionIds(ole) == Success([0])
  {
    ValidateListed(ole);
    CompressionFlagBit(ole);
    CanonicalSectionName(0);
    assert SectionId([FILE_HEADER]) == Success(None);
    assert SectionId([SUMMARY_INFORMATION]) == Success(None);
    var l := ole.listing;
    assert l[1..][1..][1..] == [];
    ListedIdsCons(l[1..][1..]);
    ListedIdsCons(l[1..]);
    ListedIdsCons(l);
    assert SectionIds(ole) == Success(Sort([0]));
    assert Sort([0]) == [0] by {
      assert [0][1..] == [] && [0] + [] == [0];
    }
  }

  /**
   * A single paragraph-text record whose payload decodes to "Hello", in an
   * uncompressed document, reads as "Hello": the newline the extractor adds is
   * stripped.
   */
  lemma ReadHello(ole: Ole, payload: Bytes, inflate: Inflater, decode: Decoder)
    requires |payload| < 4096 && decode(payload) == Some("Hello")
    requires OneSectionDocument(ole, [Record(HWPTAG_PARA_TEXT, 0, payload)])
    ensures ReadHwp(ole, inflate, decode) == Success("Hello")
  {
    var rs := [Record(HWPTAG_PARA_TEXT, 0, payload)];
    ReadOneSectionDocument(ole, rs, inflate, decode);
    HelloText(payload, decode);
    StripHello();
  }

  lemma HelloText(payload: Bytes, decode: Decoder)
    requires decode(payload) == Some("Hello")
    ensures TextOf([Record(HWPTAG_PARA_TEXT, 0, payload)], decode) == Success("Hello\n")
  {
    var rs := [Record(HWPTAG_PARA_TEXT, 0, payload)];
    assert rs[1..] == [];
    assert "Hello" + "\n" == "Hello\n";
    assert "Hello\n" + "" == "Hello\n";
  }

  lemma StripHello()
    ensures Strip("Hello\n") == "Hello"
  {
    assert "Hello\n" == "" + "Hello" + "\n";
    StripExact("", "Hello", "\n");
  }

  /**
   * A section named with a leading zero is enumerated under its numeric id,
   * but the reader then opens the canonical name for that id, which is a
   * different stream.
   */
  lemma SectionNameNotReopened()
    ensures SectionId([BODY_TEXT, "Section01"]) == Success(Some(1))
    ensures SectionPath(1) != [BODY_TEXT, "Section01"]
  {
    assert "Section01"[|SECTION|..] == "01";
    assert SECTION <= "Section01";
    RemoveAllAbsent("01", SECTION);
    assert RemoveAll("Section01", SECTION) == "01";
    assert AllDigits("01");
    assert "01"[..1] == "0";
    assert DigitsValue("01") == 1;
    assert IntToString(1) == "1";
    assert |SECTION + IntToString(1)| != |"Section01"|;
  }
}
