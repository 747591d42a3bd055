/**
 * The checks the reader makes on the opened compound file before it decodes
 * any section: the format gate, the compression flag in `FileHeader`, and the
 * enumeration of the `BodyText/Section<N>` streams in ascending id order.
 */
module Container {
  import opened Wrappers
  import opened Errors
  import opened Text
  import opened RecordStream

  /** A stream's path: its storage and stream names from the root down. */
  type Path = seq<string>

  /**
   * The opened compound file as the reader sees it: the stream paths in the
   * order `listdir()` returns them, and the bytes `openstream` yields for each.
   */
  datatype Ole = Ole(listing: seq<Path>, streams: map<Path, Bytes>)

  const FILE_HEADER: string := "FileHeader"
  const SUMMARY_INFORMATION: string := "\U{5}HwpSummaryInformation"
  const BODY_TEXT: string := "BodyText"
  const SECTION: string := "Section"

  /** Byte 36 of `FileHeader` holds the property bits; the header is read 37 bytes long. */
  const FLAGS_OFFSET: nat := 36

  function JoinPath(p: Path): string
  {
    Join("/", p)
  }

  /** `ole.openstream(path)`: the stream's bytes, or the library's error when there is none. */
  function OpenStream(ole: Ole, path: Path): (r: Result<Bytes, Error>)
    ensures r.Success? <==> path in ole.streams
    ensures r.Success? ==> r.value == ole.streams[path]
    ensures r.Failure? ==> r.error == StreamNotFound(JoinPath(path))
  {
    if path in ole.streams then Success(ole.streams[path]) else Failure(StreamNotFound(JoinPath(path)))
  }

  // ----- validate_hwp_file --------------------------------------------------

  /**
   * `validate_hwp_file`: both required stream names must be among the listed
   * paths, each joined with `/`; otherwise the document is rejected.
   */
  function ValidateHwpFile(ole: Ole): (r: Outcome<Error>)
    ensures r.Pass? || r == Fail(InvalidFormat)
  {
    var names := set p | p in ole.listing :: JoinPath(p);
    if FILE_HEADER in names && SUMMARY_INFORMATION in names then Pass else Fail(InvalidFormat)
  }

  lemma JoinedName(ole: Ole, name: string)
    requires name != [] && '/' !in name
    ensures name in (set p | p in ole.listing :: JoinPath(p)) <==> [name] in ole.listing
  {
    if name in (set p | p in ole.listing :: JoinPath(p)) {
      var p :| p in ole.listing && JoinPath(p) == name;
      JoinIsPlainName('/', p, name);
    }
    if [name] in ole.listing {
      assert JoinPath([name]) == name;
    }
  }

  /**
   * The gate passes exactly when `FileHeader` and the summary-information
   * stream are listed at the root: neither name contains `/`, so no deeper
   * path joins to either.
   */
  lemma ValidateListed(ole: Ole)
    ensures ValidateHwpFile(ole).Pass? <==> [FILE_HEADER] in ole.listing && [SUMMARY_INFORMATION] in ole.listing
  {
    assert '/' !in FILE_HEADER;
    assert '/' !in SUMMARY_INFORMATION;
    JoinedName(ole, FILE_HEADER);
    JoinedName(ole, SUMMARY_INFORMATION);
  }

  // ----- get_compression_flag -----------------------------------------------

  /** `bool(header_stream.read(37)[36] & 1)` on the `FileHeader` stream. */
  function CompressionFlag(ole: Ole): (r: Result<bool, Error>)
    ensures r.Failure? ==> r.error == StreamNotFound(FILE_HEADER) || r.error == TruncatedFileHeader
    ensures r.Success? ==> [FILE_HEADER] in ole.streams && |ole.streams[[FILE_HEADER]]| > FLAGS_OFFSET
  {
    var header :- OpenStream(ole, [FILE_HEADER]);
    var head := header[..Min(FLAGS_OFFSET + 1, |header|)];
    if |head| <= FLAGS_OFFSET then Failure(TruncatedFileHeader)
    else Success(head[FLAGS_OFFSET] & 1 == 1)
  }

  lemma LowBit(b: Byte)
    ensures (b & 1 == 1) <==> b as int % 2 == 1
  {
  }

  /**
   * The flag is whether byte 36 of `FileHeader` is odd; a header of fewer than
   * 37 bytes is an error, and a missing `FileHeader` is the library's error.
   */
  lemma CompressionFlagBit(ole: Ole)
    ensures [FILE_HEADER] !in ole.streams ==> CompressionFlag(ole) == Failure(StreamNotFound(FILE_HEADER))
    ensures [FILE_HEADER] in ole.streams ==>
      var header := ole.streams[[FILE_HEADER]];
      && (CompressionFlag(ole).Failure? <==> |header| <= FLAGS_OFFSET)
      && (CompressionFlag(ole).Failure? ==> CompressionFlag(ole).error == TruncatedFileHeader)
      && (CompressionFlag(ole).Success? ==> (CompressionFlag(ole).value <==> header[FLAGS_OFFSET] as int % 2 == 1))
  {
    assert JoinPath([FILE_HEADER]) == FILE_HEADER;
    if [FILE_HEADER] in ole.streams && |ole.streams[[FILE_HEADER]]| > FLAGS_OFFSET {
      LowBit(ole.streams[[FILE_HEADER]][FLAGS_OFFSET]);
    }
  }

  /** Only bit 0 of byte 36 counts: headers that agree on it give the same flag. */
  lemma CompressionFlagOnlyBitZero(a: Ole, b: Ole)
    requires [FILE_HEADER] in a.streams && [FILE_HEADER] in b.streams
    requires |a.streams[[FILE_HEADER]]| > FLAGS_OFFSET && |b.streams[[FILE_HEADER]]| > FLAGS_OFFSET
    requires a.streams[[FILE_HEADER]][FLAGS_OFFSET] & 1 == b.streams[[FILE_HEADER]][FLAGS_OFFSET] & 1
    ensures CompressionFlag(a) == CompressionFlag(b)
  {
  }

  // ----- get_section_ids ----------------------------------------------------

  /**
   * The id one listed path contributes: none unless its first component is
   * `BodyText`; otherwise its second component with every `Section` removed,
   * read as an integer.
   */
  function SectionId(p: Path): (r: Result<Option<int>, Error>)
    ensures r == Success(None) <==> |p| > 0 && p[0] != BODY_TEXT
    ensures r == Failure(MalformedPath) <==> |p| == 0 || (p[0] == BODY_TEXT && |p| < 2)
    ensures r.Failure? && r.error != MalformedPath ==> |p| >= 2 && r.error == MalformedSectionName(p[1])
  {
    if |p| == 0 then Failure(MalformedPath)
    else if p[0] != BODY_TEXT then Success(None)
    else if |p| < 2 then Failure(MalformedPath)
    else match ParseInt(RemoveAll(p[1], SECTION))
      case None => Failure(MalformedSectionName(p[1]))
      case Some(n) => Success(Some(n))
  }

  /** The generator in `get_section_ids`: ids in listing order; the first bad path raises. */
  function ListedIds(listing: seq<Path>): (r: Result<seq<int>, Error>)
    ensures r.Success? ==> |r.value| <= |listing|
    ensures r.Failure? ==> exists i :: 0 <= i < |listing| && SectionId(listing[i]) == Failure(r.error) && FirstFailure(listing, i)
  {
    if listing == [] then Success([])
    else
      var id :- SectionId(listing[0]);
      var rest :- ListedIds(listing[1..]);
      match id
      case Some(n) => Success([n] + rest)
      case None => Success(rest)
  }

  /** Every path listed before position `i` parses: a failure at `i` is the first one. */
  predicate FirstFailure(listing: seq<Path>, i: nat)
    requires i <= |listing|
  {
    forall j :: 0 <= j < i ==> SectionId(listing[j]).Success?
  }

  /** The id one listed path contributes, as a bag of zero or one ids. */
  function IdsIn(p: Path): multiset<int>
  {
    match SectionId(p)
    case Success(Some(n)) => multiset{n}
    case _ => multiset{}
  }

  /** The bags `f` gives the listed paths, added up. */
  function BagOf<T>(listing: seq<T>, f: T -> multiset<int>): multiset<int>
  {
    if listing == [] then multiset{} else f(listing[0]) + BagOf(listing[1..], f)
  }

  /** The ids a listing holds, as a bag: listing order and other paths play no part. */
  function IdBag(listing: seq<Path>): multiset<int>
  {
    BagOf(listing, IdsIn)
  }

  /** Every listed path is either outside `BodyText` or names a section with a well-formed id. */
  predicate AllParse(listing: seq<Path>)
  {
    forall i :: 0 <= i < |listing| ==> SectionId(listing[i]).Success?
  }

  lemma AllParseCons(listing: seq<Path>)
    requires listing != []
    ensures AllParse(listing) <==> SectionId(listing[0]).Success? && AllParse(listing[1..])
  {
    assert forall i :: 1 <= i < |listing| ==> listing[i] == listing[1..][i - 1];
  }

  /** One step of the generator: it stops at the first path that fails, else adds that path's id. */
  lemma ListedIdsStep(listing: seq<Path>)
    requires listing != []
    ensures ListedIds(listing).Success? <==> SectionId(listing[0]).Success? && ListedIds(listing[1..]).Success?
    ensures ListedIds(listing).Success? ==>
      multiset(ListedIds(listing).value) == IdsIn(listing[0]) + multiset(ListedIds(listing[1..]).value)
  {
    var p, tail := listing[0], listing[1..];
    if SectionId(p).Success? && ListedIds(tail).Success? {
      var rest := ListedIds(tail).value;
      match SectionId(p).value {
        case Some(n) =>
          assert ListedIds(listing) == Success([n] + rest);
          assert multiset([n] + rest) == multiset{n} + multiset(rest);
        case None =>
          assert ListedIds(listing) == Success(rest);
      }
    }
  }

  /** The generator succeeds exactly when every listed path does, and then yields the listing's ids. */
  lemma {:induction false} ListedIdsBag(listing: seq<Path>)
    ensures ListedIds(listing).Success? <==> AllParse(listing)
    ensures ListedIds(listing).Success? ==> multiset(ListedIds(listing).value) == IdBag(listing)
  {
    if listing != [] {
      ListedIdsBag(listing[1..]);
      ListedIdsStep(listing);
      AllParseCons(listing);
      assert IdBag(listing) == IdsIn(listing[0]) + IdBag(listing[1..]);
    }
  }

  lemma {:induction false} BagOfAppend<T>(a: seq<T>, b: seq<T>, f: T -> multiset<int>)
    ensures BagOf(a + b, f) == BagOf(a, f) + BagOf(b, f)
  {
    if a == [] {
      assert a + b == b;
    } else {
      assert (a + b)[0] == a[0] && (a + b)[1..] == a[1..] + b;
      BagOfAppend(a[1..], b, f);
    }
  }

  lemma MultisetTail<T>(s: seq<T>)
    requires s != []
    ensures multiset(s[1..]) == multiset(s) - multiset{s[0]}
  {
    assert s == [s[0]] + s[1..];
  }

  lemma SplitAt<T>(s: seq<T>, i: nat)
    requires i < |s|
    ensures s == s[..i] + ([s[i]] + s[i + 1..])
  {
  }

  lemma MultisetRemove<T>(s: seq<T>, i: nat)
    requires i < |s|
    ensures multiset(s[..i] + s[i + 1..]) == multiset(s) - multiset{s[i]}
  {
    SplitAt(s, i);
  }

  /** Listings that hold the same paths, in any order, add up to the same bag. */
  lemma {:induction false} BagOfPermutation<T>(a: seq<T>, b: seq<T>, f: T -> multiset<int>)
    requires multiset(a) == multiset(b)
    ensures BagOf(a, f) == BagOf(b, f)
    decreases |a|
  {
    if a != [] {
      var x := a[0];
      assert x in multiset(b);
      var i :| 0 <= i < |b| && b[i] == x;
      var front, back := b[..i], b[i + 1..];
      assert multiset(a[1..]) == multiset(front + back) by {
        MultisetTail(a);
        MultisetRemove(b, i);
      }
      BagOfPermutation(a[1..], front + back, f);
      BagOfAppend(front, back, f);
      SplitAt(b, i);
      BagOfAppend(front, [x] + back, f);
      assert ([x] + back)[1..] == back;
      calc {
        BagOf(a, f);
        f(x) + BagOf(a[1..], f);
        f(x) + (BagOf(front, f) + BagOf(back, f));
        BagOf(front, f) + (f(x) + BagOf(back, f));
        BagOf(front, f) + BagOf([x] + back, f);
        BagOf(b, f);
      }
    }
  }

  lemma IdBagPermutation(a: seq<Path>, b: seq<Path>)
    requires multiset(a) == multiset(b)
    ensures IdBag(a) == IdBag(b)
  {
    BagOfPermutation(a, b, IdsIn);
  }

  predicate SortedAscending(s: seq<int>)
  {
    forall i, j :: 0 <= i < j < |s| ==> s[i] <= s[j]
  }

  lemma SortedTail(s: seq<int>)
    requires s != [] && SortedAscending(s)
    ensures SortedAscending(s[1..])
  {
    forall i, j | 0 <= i < j < |s| - 1 ensures s[1..][i] <= s[1..][j] {
      assert s[1..][i] == s[i + 1] && s[1..][j] == s[j + 1];
    }
  }

  lemma SortedCons(x: int, t: seq<int>)
    requires SortedAscending(t) && (t == [] || x <= t[0])
    ensures SortedAscending([x] + t)
  {
    var s := [x] + t;
    forall i, j | 0 <= i < j < |s| ensures s[i] <= s[j] {
      if i == 0 { assert s[j] == t[j - 1]; assert t[0] <= t[j - 1]; }
      else { assert s[i] == t[i - 1] && s[j] == t[j - 1]; }
    }
  }

  function Insert(x: int, s: seq<int>): (r: seq<int>)
    requires SortedAscending(s)
    ensures SortedAscending(r) && multiset(r) == multiset(s) + multiset{x}
    ensures r != [] && (r[0] == x || (s != [] && r[0] == s[0]))
  {
    if s == [] || x <= s[0] then
      SortedCons(x, s);
      [x] + s
    else
      SortedTail(s);
      var t := Insert(x, s[1..]);
      assert s[0] <= t[0] by {
        if t[0] != x { assert t[0] == s[1]; }
      }
      SortedCons(s[0], t);
      assert s == [s[0]] + s[1..];
      [s[0]] + t
  }

  /** `sorted(xs)` on integers: ascending, and holding the same elements. */
  function Sort(xs: seq<int>): (r: seq<int>)
    ensures SortedAscending(r) && multiset(r) == multiset(xs)
  {
    if xs == [] then []
    else
      assert xs == [xs[0]] + xs[1..];
      Insert(xs[0], Sort(xs[1..]))
  }

  lemma SortedHeadIsLeast(a: seq<int>, v: int)
    requires SortedAscending(a) && v in multiset(a)
    ensures a[0] <= v
  {
    var i :| 0 <= i < |a| && a[i] == v;
  }

  lemma SameHeadTail<T>(a: seq<T>, b: seq<T>)
    requires a != [] && b != [] && a[0] == b[0] && a[1..] == b[1..]
    ensures a == b
  {
    assert a == [a[0]] + a[1..] && b == [b[0]] + b[1..];
  }

  /** Two ascending sequences with the same elements are the same sequence. */
  lemma {:induction false} SortedUnique(a: seq<int>, b: seq<int>)
    requires SortedAscending(a) && SortedAscending(b) && multiset(a) == multiset(b)
    ensures a == b
    decreases |a|
  {
    if a == [] {
      assert |b| == |multiset(b)|;
    } else {
      assert b != [] by { assert |multiset(b)| == |a|; }
      assert a[0] == b[0] by {
        assert a[0] in multiset(b) && b[0] in multiset(a);
        SortedHeadIsLeast(a, b[0]);
        SortedHeadIsLeast(b, a[0]);
      }
      assert multiset(a[1..]) == multiset(b[1..]) by {
        MultisetTail(a);
        MultisetTail(b);
      }
      SortedTail(a);
      SortedTail(b);
      SortedUnique(a[1..], b[1..]);
      SameHeadTail(a, b);
    }
  }

  /** `get_section_ids`: the listing's section ids, sorted ascending, duplicates kept. */
  function SectionIds(ole: Ole): (r: Result<seq<int>, Error>)
    ensures r.Success? <==> ListedIds(ole.listing).Success?
    ensures r.Success? ==> SortedAscending(r.value) && multiset(r.value) == multiset(ListedIds(ole.listing).value)
    ensures r.Failure? ==> r.error == ListedIds(ole.listing).error
  {
    var ids :- ListedIds(ole.listing);
    Success(Sort(ids))
  }

  /**
   * The enumerator fails exactly when some listed path is malformed; otherwise
   * it returns the listing's ids in ascending order, each as often as listed.
   */
  lemma SectionIdsSorted(ole: Ole)
    ensures SectionIds(ole).Success? <==> forall i :: 0 <= i < |ole.listing| ==> SectionId(ole.listing[i]).Success?
    ensures SectionIds(ole).Success? ==>
      SortedAscending(SectionIds(ole).value) && multiset(SectionIds(ole).value) == IdBag(ole.listing)
  {
    ListedIdsBag(ole.listing);
  }

  /** The order in which the container lists its streams does not change the ids or whether they parse. */
  lemma SectionIdsOrderIndependent(a: Ole, b: Ole)
    requires multiset(a.listing) == multiset(b.listing)
    ensures SectionIds(a).Success? <==> SectionIds(b).Success?
    ensures SectionIds(a).Success? ==> SectionIds(a) == SectionIds(b)
  {
    SectionIdsSorted(a);
    SectionIdsSorted(b);
    forall i | 0 <= i < |a.listing| ensures SectionId(a.listing[i]).Success? <== (forall k :: 0 <= k < |b.listing| ==> SectionId(b.listing[k]).Success?) {
      assert a.listing[i] in multiset(b.listing);
    }
    forall i | 0 <= i < |b.listing| ensures SectionId(b.listing[i]).Success? <== (forall k :: 0 <= k < |a.listing| ==> SectionId(a.listing[k]).Success?) {
      assert b.listing[i] in multiset(a.listing);
    }
    if SectionIds(a).Success? {
      IdBagPermutation(a.listing, b.listing);
      SortedUnique(SectionIds(a).value, SectionIds(b).value);
    }
  }

  /** The stream `read_section` opens for a section id: `BodyText/Section` then the id in decimal. */
  function SectionPath(id: int): (p: Path)
    ensures JoinPath(p) == "BodyText/Section" + IntToString(id)
  {
    var name := SECTION + IntToString(id);
    var p := [BODY_TEXT, name];
    assert JoinPath(p) == BODY_TEXT + "/" + name by {
      assert p[1..] == [name];
      assert Join("/", p[1..]) == name;
    }
    assert BODY_TEXT + "/" + name == "BodyText/Section" + IntToString(id);
    p
  }

  lemma {:induction false} RemoveAllAbsent(s: string, pat: string)
    requires pat != [] && pat[0] !in s
    ensures RemoveAll(s, pat) == s
  {
  }

  /** The name the reader opens for an id reads back as that id. */
  lemma CanonicalSectionName(n: int)
    ensures SectionId(SectionPath(n)) == Success(Some(n))
  {
    var digits := IntToString(n);
    var name := SECTION + digits;
    assert SECTION <= name;
    assert name[|SECTION|..] == digits;
    assert 'S' !in digits;
    RemoveAllAbsent(digits, SECTION);
    assert RemoveAll(name, SECTION) == digits;
    ParseIntToString(n);
  }

  /** One step of the generator, when the first path and the rest both parse. */
  lemma ListedIdsCons(listing: seq<Path>)
    requires listing != [] && SectionId(listing[0]).Success? && ListedIds(listing[1..]).Success?
    ensures SectionId(listing[0]).value.Some? ==>
      ListedIds(listing) == Success([SectionId(listing[0]).value.value] + ListedIds(listing[1..]).value)
    ensures SectionId(listing[0]).value.None? ==> ListedIds(listing) == ListedIds(listing[1..])
  {
  }

  lemma ListedIdsConsSome(listing: seq<Path>, n: int, rest: seq<int>)
    requires listing != [] && SectionId(listing[0]) == Success(Some(n)) && ListedIds(listing[1..]) == Success(rest)
    ensures ListedIds(listing) == Success([n] + rest)
  {
  }

  function SectionPaths(ids: seq<int>): (ps: seq<Path>)
    ensures |ps| == |ids| && forall i :: 0 <= i < |ids| ==> ps[i] == SectionPath(ids[i])
  {
    if ids == [] then [] else [SectionPath(ids[0])] + SectionPaths(ids[1..])
  }

  /** A listing whose every path names a section enumerates as those sections' ids, in listing order. */
  lemma {:induction false} ListedSections(ps: seq<Path>, ids: seq<int>)
    requires |ps| == |ids| && forall i :: 0 <= i < |ps| ==> SectionId(ps[i]) == Success(Some(ids[i]))
    ensures ListedIds(ps) == Success(ids)
  {
    if ps != [] {
      ListedSections(ps[1..], ids[1..]);
      ListedIdsConsSome(ps, ids[0], ids[1..]);
      assert ids == [ids[0]] + ids[1..];
    }
  }

  /** A listing of the canonical section streams for `ids`, in any order, enumerates as `ids`. */
  lemma ListedCanonical(ids: seq<int>)
    ensures ListedIds(SectionPaths(ids)) == Success(ids)
  {
    var ps := SectionPaths(ids);
    forall i | 0 <= i < |ps| ensures SectionId(ps[i]) == Success(Some(ids[i])) {
      CanonicalSectionName(ids[i]);
    }
    ListedSections(ps, ids);
  }

  /** Sections listed as 2, 0, 1, after `FileHeader`, are enumerated as 0, 1, 2. */
  lemma SectionOrderExample(ole: Ole)
    requires ole.listing == [[FILE_HEADER]] + SectionPaths([2, 0, 1])
    ensures SectionIds(ole) == Success([0, 1, 2])
  {
    ListedCanonical([2, 0, 1]);
    assert SectionId([FILE_HEADER]) == Success(None);
    assert ole.listing[1..] == SectionPaths([2, 0, 1]);
    ListedIdsCons(ole.listing);
    assert [2] + [0, 1] == [2, 0, 1];
    SortExample();
  }

  lemma SortExample()
    ensures Sort([2, 0, 1]) == [0, 1, 2]
  {
    assert SortedAscending([0, 1, 2]);
    assert multiset([2, 0, 1]) == multiset([0, 1, 2]);
    SortedUnique(Sort([2, 0, 1]), [0, 1, 2]);
  }
}
