/** What a client lets pass by its Accept-Encoding fields, and that an entry is sent in no other coding and under its right name. */
module Encodings {
  import opened Bytes
  import opened Numerals
  import opened Negotiation
  import opened Requests
  import opened Messages
  import opened Heads
  import opened Server
  import opened FsTree
  import Coding
  import Bodies
  import InflatedBodies
  import DecodedBodies

  // ---------- What a client lets pass ----------

  /** The name in front of an element's parameters, in lower case. */
  function NameIn(element: bytes): bytes {
    Lower(Trim(SplitAt(element, 59)[0]))
  }

  /** The names a coding goes by, the wildcard included. */
  predicate Names(element: bytes, coding: Negotiation.Coding) {
    match coding
    case Gzip => NameIn(element) == Ascii("gzip") || NameIn(element) == Ascii("x-gzip")
    case Zstd => NameIn(element) == Ascii("zstd")
    case Wildcard => NameIn(element) == Ascii("*")
  }

  /** An element with a zero weight. */
  predicate Refuses(element: bytes) {
    var parts := SplitAt(element, 59);
    exists i :: 1 <= i < |parts| && IsZeroQvalue(parts[i])
  }

  /** The last element that names the coding lets it pass, or refuses it. */
  ghost predicate LastLets(elements: seq<bytes>, coding: Negotiation.Coding, passes: bool) {
    exists i :: 0 <= i < |elements| && Names(elements[i], coding) && passes == !Refuses(elements[i])
             && forall j :: i < j < |elements| ==> !Names(elements[j], coding)
  }

  ghost predicate NeverNamed(elements: seq<bytes>, coding: Negotiation.Coding) {
    forall j :: 0 <= j < |elements| ==> !Names(elements[j], coding)
  }

  lemma NamesAreLower()
    ensures Lower(Ascii("gzip")) == Ascii("gzip") && Lower(Ascii("x-gzip")) == Ascii("x-gzip")
    ensures Lower(Ascii("zstd")) == Ascii("zstd") && Ascii("*") == [42]
    ensures Ascii("gzip")[0] != Ascii("zstd")[0]
  {
  }

  lemma OnlyStarIsStar(name: bytes)
    ensures Lower(name) == [42] <==> name == [42]
  {
    assert |Lower(name)| == |name|;
    if Lower(name) == [42] {
      assert Lower(name)[0] == LowerByte(name[0]);
      assert name == [name[0]];
    }
    if name == [42] {
      assert Lower(name) == [42];
    }
  }

  /** An element is read as a mention of the coding that it names, acceptable unless it refuses. */
  lemma ElementIsRead(element: bytes, coding: Negotiation.Coding)
    ensures Names(element, coding) <==> MentionOf(element).Some? && MentionOf(element).value.coding == coding
    ensures Names(element, coding) ==> MentionOf(element).value.acceptable == !Refuses(element)
  {
    NamesAreLower();
    OnlyStarIsStar(Trim(SplitAt(element, 59)[0]));
    hide Lower, Trim, SplitAt, IsZeroQvalue, Ascii;
  }

  lemma {:induction false} VerdictByNames(elements: seq<bytes>, coding: Negotiation.Coding)
    ensures match ReadElements(UNDECIDED, elements).Of(coding)
            case None => NeverNamed(elements, coding)
            case Some(verdict) => LastLets(elements, coding, verdict)
  {
    hide Names, Refuses, MentionOf;
    if elements != [] {
      var front, last := elements[..|elements| - 1], elements[|elements| - 1];
      VerdictByNames(front, coding);
      ElementIsRead(last, coding);
      assert forall j :: 0 <= j < |front| ==> elements[j] == front[j];
      if !Names(last, coding) && ReadElements(UNDECIDED, front).Of(coding).Some? {
        var passes := ReadElements(UNDECIDED, front).Of(coding).value;
        var i :| 0 <= i < |front| && Names(front[i], coding) && passes == !Refuses(front[i])
              && forall j :: i < j < |front| ==> !Names(front[j], coding);
        assert Names(elements[i], coding);
      }
    }
  }

  lemma LetsOneWay(elements: seq<bytes>, coding: Negotiation.Coding, passes: bool)
    requires LastLets(elements, coding, passes)
    ensures !LastLets(elements, coding, !passes) && !NeverNamed(elements, coding)
  {
  }

  /** The values of the Accept-Encoding fields, their names in any case, in order. */
  function AcceptLines(hs: seq<Header>): seq<bytes> {
    if hs == [] then []
    else (if EqIgnoreCase(hs[0].name, Ascii("accept-encoding")) then [hs[0].value] else []) + AcceptLines(hs[1..])
  }

  lemma {:induction false} AcceptLinesAppend(a: seq<Header>, b: seq<Header>)
    ensures AcceptLines(a + b) == AcceptLines(a) + AcceptLines(b)
  {
    hide EqIgnoreCase;
    if a == [] {
      assert a + b == b;
    } else {
      assert (a + b)[1..] == a[1..] + b;
      AcceptLinesAppend(a[1..], b);
    }
  }

  lemma {:induction false} EncodingLinesAre(hs: seq<Header>)
    ensures EncodingLines(hs) == AcceptLines(hs)
  {
    if hs != [] {
      var front, last := hs[..|hs| - 1], hs[|hs| - 1];
      EncodingLinesAre(front);
      AcceptLinesAppend(front, [last]);
      assert hs == front + [last];
      OneName(last.name);
      hide EqIgnoreCase, Ascii;
      assert AcceptLines([last][1..]) == [];
    }
  }

  lemma OneName(name: bytes)
    ensures EqIgnoreCase(name, Ascii("accept-encoding")) ==> !EqIgnoreCase(name, Ascii("if-none-match"))
  {
  }

  /**
   The client lets a coding pass: the last element that names it, in all its Accept-Encoding
   fields, does, or none names it and the last wildcard does.
   */
  ghost predicate LetsPass(hs: seq<Header>, coding: Negotiation.Coding) {
    var elements := ElementsOf(AcceptLines(hs));
    LastLets(elements, coding, true) || (NeverNamed(elements, coding) && LastLets(elements, Wildcard, true))
  }

  /** A coding is accepted exactly if the client lets it pass. */
  lemma AcceptedIsLetPass(hs: seq<Header>)
    ensures HeadersOf(hs).accepted.gzip <==> LetsPass(hs, Gzip)
    ensures HeadersOf(hs).accepted.zstd <==> LetsPass(hs, Zstd)
  {
    hide LastLets, NeverNamed, ReadElements, EncodingLines, AcceptLines, LastTag;
    EncodingLinesAre(hs);
    var lines := AcceptLines(hs);
    var elements := ElementsOf(lines);
    LinesAreElements(lines);
    VerdictByNames(elements, Gzip);
    VerdictByNames(elements, Zstd);
    VerdictByNames(elements, Wildcard);
    var v := ReadElements(UNDECIDED, elements);
    forall coding: Negotiation.Coding | v.Of(coding).Some?
      ensures !LastLets(elements, coding, !v.Of(coding).value) && !NeverNamed(elements, coding)
    {
      VerdictByNames(elements, coding);
      LetsOneWay(elements, coding, v.Of(coding).value);
    }
    NeverLets(elements);
  }

  lemma LinesAreElements(lines: seq<bytes>)
    ensures ReadLines(UNDECIDED, lines) == ReadElements(UNDECIDED, ElementsOf(lines))
  {
    if lines != [] {
      LinesCombine(UNDECIDED, lines);
      OneLine(UNDECIDED, Join(lines));
    }
  }

  lemma NeverLets(elements: seq<bytes>)
    ensures forall coding, passes :: NeverNamed(elements, coding) ==> !LastLets(elements, coding, passes)
  {
    hide Names, Refuses;
  }

  // ---------- What an entry is sent as ----------

  /** The coding in which an entry's stored bytes answer this client. */
  lemma NativeByFields(site: Site, entry: Coding.Entry, hs: seq<Header>)
    ensures site.NativeFor(entry, HeadersOf(hs).accepted) ==
            match entry.compression
            case Store => Some(Coding.Identity)
            case Deflate => if LetsPass(hs, Gzip) then Some(Coding.NativeCoding.Gzip) else None
            case ZstdMethod => if LetsPass(hs, Zstd) then Some(Coding.NativeCoding.Zstd) else None
            case OtherMethod(_) => None
  {
    hide LetsPass, HeadersOf;
    AcceptedIsLetPass(hs);
  }

  /** An entry is refused exactly if it is neither stored nor deflated, no decoder is there for it, and it is not zstd that the client lets pass. */
  lemma RefusedExactlyWhen(site: Site, entry: Coding.Entry, hs: seq<Header>)
    ensures var due := site.DueForEntry(entry, site.NativeFor(entry, HeadersOf(hs).accepted));
            && (due.Content? || due == Plain(StatusLines(UnsupportedCompression)))
            && (!due.Content? <==> entry.compression != Coding.Store && entry.compression != Coding.Deflate && !site.decodes(entry.compression)
                                   && !(entry.compression == Coding.ZstdMethod && LetsPass(hs, Zstd)))
  {
    hide LetsPass, HeadersOf, StatusLines;
    NativeByFields(site, entry, hs);
  }

  /**
   The Content-Encoding that a client receives is true and one that it let pass: gzip exactly
   for a deflated entry, whose body is then a gzip member of the stored stream; zstd exactly for
   an entry stored as zstd, whose body is then the stored bytes; and without it the body is the
   stored bytes of a stored entry, or what any other decodes to.
   */
  lemma EncodingIsTrue(site: Site, entry: Coding.Entry, hs: seq<Header>, response: Response)
    requires entry.Recorded() && IsValue(site.Mime(entry))
    requires site.IsRight(Content(entry, site.NativeFor(entry, HeadersOf(hs).accepted)), response)
    ensures response.lines != []
    ensures var coding, content := Read(response.lines, "content-encoding"), site.archive.content;
            && (coding == Some(Ascii("gzip")) <==> entry.compression == Coding.Deflate && LetsPass(hs, Gzip))
            && (coding == Some(Ascii("zstd")) <==> entry.compression == Coding.ZstdMethod && LetsPass(hs, Zstd))
            && (coding == None || coding == Some(Ascii("gzip")) || coding == Some(Ascii("zstd")))
            && (coding != None || entry.compression == Coding.Store ==>
                  && (entry.compressedSize > 0 ==> Bodies.HasStored(content, entry, entry.compressedSize))
                  && var stored := Bodies.Stored(content, entry, entry.compressedSize);
                     if coding == Some(Ascii("gzip")) then
                       Coding.ParseMember(response.body) == Some(Coding.Member(stored, entry.crc32, entry.uncompressedSize % 0x1_0000_0000))
                     else response.body == stored)
            && (coding == None && entry.compression == Coding.Deflate ==>
                  InflatedBodies.IsInflation(content, entry, site.inflate, site.isWhole, site.crc32, response.body))
            && (coding == None && entry.compression != Coding.Deflate && entry.compression != Coding.Store ==>
                  DecodedBodies.IsDecoding(content, entry, site.libraryDecode, site.libraryIsWhole, response.body))
  {
    NamesAreLower();
    hide LetsPass, HeadersOf, IsValue, Bodies.HasStored, Bodies.Stored, EntryLines, Ascii, Coding.ParseMember, InflatedBodies.IsInflation, DecodedBodies.IsDecoding;
    var native := site.NativeFor(entry, HeadersOf(hs).accepted);
    NativeByFields(site, entry, hs);
    EntryReads(entry, native, site.Mime(entry));
    if native.Some? {
      var stored := Bodies.Stored(site.archive.content, entry, entry.compressedSize);
      Coding.WireIsGzipMember(entry, stored);
      assert [] + stored + [] == stored;
    }
  }

  /** The type that a client receives is that of the entry's name, and the tag it returns gets it a 304 from then on. */
  lemma TagAndTypeAreTrue(site: Site, entry: Coding.Entry, native: Option<Coding.NativeCoding>, response: Response)
    requires entry.Recorded() && IsValue(site.Mime(entry)) && site.IsRight(Content(entry, native), response)
    ensures response.lines != [] && StatusCode(response.lines[0]) == Some(200)
    ensures Read(response.lines, "content-type") == Some(site.mimeOf(entry.name))
    ensures match Read(response.lines, "etag")
            case None => false
            case Some(tag) =>
              site.DueForTarget(FsTree.Entry(entry), HeadersOf([Header(Ascii("If-None-Match"), tag)])) == Plain(NotModifiedLines(entry.crc32))
  {
    hide IsValue, EntryLines, NotModifiedLines, TagOf, ETag;
    EntryReads(entry, native, site.Mime(entry));
    TagReturns(entry.crc32);
    var h := Header(Ascii("If-None-Match"), ETag(entry.crc32));
    assert [h][..0] == [];
    assert LastTag([h]) == TagOf(h);
  }
}
