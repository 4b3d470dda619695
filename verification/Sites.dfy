/** A site made from an archive's list of entries, and what its clients get. */
module Sites {
  import opened Bytes
  import opened FsTree
  import opened Lookup
  import opened Building
  import opened Answers
  import opened Server
  import opened Messages
  import Requests
  import Coding
  import Bodies
  import Inflating
  import LocalHeaders
  import Heads
  import Replies
  import Percent

  type Entries = seq<Item<Coding.Entry>>

  /** The site serves the archive that lists `items`. */
  ghost predicate Publishes(site: Site, items: Entries) {
    site.tree == Published(items)
  }

  /** If the listed entries fit their fields, so does every entry that is ever answered with. */
  lemma ListedEntriesAreRecorded(site: Site, items: Entries)
    requires Publishes(site, items) && forall i :: 0 <= i < |items| ==> items[i].entry.Recorded()
    ensures TreeRecords(site)
  {
    forall path | site.TargetOf(path).Some?
      ensures site.Records(site.TargetOf(path).value)
    {
      AnswersPass(items, path, (e: Coding.Entry) => e.Recorded());
    }
  }

  /**
   What is due to a request for a path, from the list alone: for a listed file, by its own
   path or as a directory's index page, that file in the coding agreed on, or 304 if the client
   named its CRC, or 500 if nothing can decode it for this client; for a directory asked for
   without a slash a redirect to its last segment, and with one, if it lists no index page, a
   page of exactly the next segments of the entries below it; for anything else 404.
   */
  lemma DueByList(site: Site, items: Entries, path: bytes, pathLen: nat, headers: Requests.Headers)
    requires Publishes(site, items) && ConflictFree(items) && site.isUtf8(path)
    ensures var due, segments := site.DueFor(Requests.Get(pathLen, headers), path), SegmentsOf(path);
            && (forall e :: HasFileFor(items, path, e) ==>
                  due == if headers.ifNoneMatch == Some(e.crc32) then Plain(NotModifiedLines(e.crc32))
                         else site.DueForEntry(e, site.NativeFor(e, headers.accepted)))
            && (SaysNoFile(items, segments) && !SaysDir(items, segments) ==> due == Plain(StatusLines(Requests.NotFound)))
            && (SaysDir(items, segments) && !AsksInside(path) ==> due == Plain(RedirectLines(segments[|segments| - 1])))
            && (SaysDir(items, segments) && AsksInside(path) && SaysNoFile(items, segments + [INDEX_HTML]) ==>
                  && due.Page? && (due.isRoot <==> segments == [])
                  && forall n :: Shows(due.children, n) <==> GoesThrough(items, segments + [n]))
  {
    hide ConflictFree, SaysDir, HasFileFor, SegmentsOf, Resolve, Published, Shows, GoesThrough, Item.IsFile, Item.Segs;
    var segments := SegmentsOf(path);
    AnsweredByList(items, path);
    if SaysDir(items, segments) && !AsksInside(path) {
      assert site.TargetOf(path) == Some(Redirect(segments[|segments| - 1]));
    }
    if SaysDir(items, segments) && AsksInside(path) && SaysNoFile(items, segments + [INDEX_HTML]) {
      DirHasNoFile(items, path);
      match site.TargetOf(path)
      case Some(Listing(isRoot, children)) =>
        ListedByList(items, path, isRoot, children);
      case _ =>
    }
  }

  /** A directory without an index page is answered with no file. */
  lemma DirHasNoFile(items: Entries, path: bytes)
    requires ConflictFree(items) && SaysDir(items, SegmentsOf(path)) && SaysNoFile(items, SegmentsOf(path) + [INDEX_HTML])
    ensures forall e :: !HasFileFor(items, path, e)
  {
    hide ConflictFree, SaysDir, SegmentsOf, Item.IsFile, Item.Segs;
    BuildHolds(items, SegmentsOf(path));
  }

  // ---------- Refusals ----------

  ghost predicate Refuses(due: Due, code: nat) {
    due.Plain? && due.lines != [] && StatusCode(due.lines[0]) == Some(code)
  }

  lemma ShortReasonsAreRead()
    ensures Refuses(Plain(StatusLines(Requests.NotFound)), 404)
    ensures Refuses(Plain(StatusLines(Requests.BadRequest)), 400)
    ensures Refuses(Plain(StatusLines(Requests.UriTooLong)), 414)
  {
    hide StatusCode, StatusLine;
    Replies.StatusLineReads(404, "Not Found");
    Replies.StatusLineReads(400, "Bad Request");
    Replies.StatusLineReads(414, "URI Too Long");
  }

  lemma LongReasonsAreRead()
    ensures Refuses(Plain(StatusLines(Requests.MethodNotAllowed)), 405)
    ensures Refuses(Plain(StatusLines(Requests.UnsupportedCompression)), 500)
  {
    hide StatusCode, StatusLine;
    Replies.StatusLineReads(405, "Method Not Allowed");
    Replies.StatusLineReads(500, "Unsupported Compression");
  }

  lemma LongestReasonIsRead()
    ensures Refuses(Plain(StatusLines(Requests.HeaderTooLong)), 431)
  {
    hide StatusCode, LineFor;
    Replies.HeaderTooLongReads();
  }

  /** The status code a client reads for a request that is refused, told from what the parser made of the request. */
  lemma RefusedByCase(site: Site, parsed: Requests.Parsed, room: nat)
    ensures var due := site.DueFor(Requests.RequestOf(parsed, room), Requests.PathOf(parsed));
            && (parsed.TooManyHeaders? ==> Refuses(due, 431))
            && (parsed.Malformed? ==> Refuses(due, 400))
            && (parsed.Partial? ==> Refuses(due, if parsed.pathSeen then 400 else 414))
            && (parsed.Complete? && parsed.path.None? ==> Refuses(due, 400))
            && (parsed.Complete? && parsed.path.Some? && parsed.httpMethod != Some(Ascii("GET")) ==> Refuses(due, 405))
            && (parsed.Complete? && parsed.path.Some? && parsed.httpMethod == Some(Ascii("GET")) ==>
                  && (|Percent.Decode(parsed.path.value)| > room ==> Refuses(due, 414))
                  && (|Percent.Decode(parsed.path.value)| <= room && !site.isUtf8(Percent.Decode(parsed.path.value)) ==> Refuses(due, 404)))
  {
    hide Refuses, StatusLines, Requests.HeadersOf, Percent.Decode, Resolve, Site.DueForTarget;
    ShortReasonsAreRead();
    LongReasonsAreRead();
    LongestReasonIsRead();
  }

  // ---------- Archives as they are written ----------

  /** The site's archive holds this entry behind a local header, its data as long as recorded. */
  ghost predicate HasWritten(site: Site, entry: Coding.Entry, fields: bytes, name: bytes, extra: bytes, data: bytes) {
    && |fields| == 26 && |name| < 0x1_0000 && |extra| < 0x1_0000 && |data| == entry.compressedSize
    && LocalHeaders.Holds(site.archive.content, entry, LocalHeaders.LocalHeader(fields, name, extra), data)
  }

  /** Such an entry is intact for sending as it is stored: as its data, or if it is deflated as a gzip member of its data. */
  lemma NativeIsData(site: Site, entry: Coding.Entry, fields: bytes, name: bytes, extra: bytes, data: bytes, native: Coding.NativeCoding, sent: bytes)
    requires HasWritten(site, entry, fields, name, extra, data) && entry.Recorded()
    ensures site.IsIntact(entry, Some(native)) && exists content :: site.IsContent(entry, Some(native), content)
    ensures site.IsContent(entry, Some(native), sent) ==>
              if native.Gzip? then Coding.ParseMember(sent) == Some(Coding.Member(data, entry.crc32, entry.uncompressedSize % 0x1_0000_0000))
              else sent == data
  {
    hide LocalHeaders.LocalHeader, Bodies.HasStored, Bodies.Stored, Coding.ParseMember, Coding.Wire;
    LocalHeaders.DataIsFound(site.archive.content, entry, fields, name, extra, data);
    assert site.IsContent(entry, Some(native), Coding.Wire(native, entry, data));
    if native.Gzip? {
      Coding.WireIsGzipMember(entry, data);
    } else {
      PlainWire(native, entry, data);
    }
  }

  lemma PlainWire(native: Coding.NativeCoding, entry: Coding.Entry, data: bytes)
    requires !native.Gzip?
    ensures Coding.Wire(native, entry, data) == data
  {
    assert [] + data + [] == data;
  }

  /** Decoded, a deflated entry whose data is one whole stream of what was recorded is exactly what that inflates to. */
  lemma InflatedIsData(site: Site, entry: Coding.Entry, fields: bytes, name: bytes, extra: bytes, data: bytes, sent: bytes)
    requires HasWritten(site, entry, fields, name, extra, data) && entry.compression == Coding.Deflate
    requires site.isWhole(data) && Inflating.NotPast(site.isWhole, data)
    requires |site.inflate(data)| == entry.uncompressedSize && site.crc32(site.inflate(data)) == entry.crc32
    ensures site.IsIntact(entry, None)
    ensures site.IsContent(entry, None, sent) <==> sent == site.inflate(data)
  {
    hide LocalHeaders.LocalHeader, Bodies.HasStored, Bodies.Stored, Inflating.NotPast;
    LocalHeaders.DataIsFound(site.archive.content, entry, fields, name, extra, data);
    LocalHeaders.DeflatedIsServed(site.archive.content, entry, data, site.inflate, site.isWhole, site.crc32, sent);
  }

  /** Any other entry, one that the archive library takes for whole with its header, is exactly what the library decodes it to. */
  lemma DecodedIsData(site: Site, entry: Coding.Entry, fields: bytes, name: bytes, extra: bytes, data: bytes, sent: bytes)
    requires HasWritten(site, entry, fields, name, extra, data) && entry.compression != Coding.Deflate
    requires var whole := LocalHeaders.LocalHeader(fields, name, extra) + data;
             && site.libraryIsWhole(whole) && Inflating.NotPast(site.libraryIsWhole, whole)
             && |site.libraryDecode(whole)| == entry.uncompressedSize
    ensures site.IsIntact(entry, None)
    ensures site.IsContent(entry, None, sent) <==> sent == site.libraryDecode(LocalHeaders.LocalHeader(fields, name, extra) + data)
  {
    hide LocalHeaders.LocalHeader, Bodies.HasStored, Bodies.Stored, Inflating.NotPast;
    LocalHeaders.DataIsFound(site.archive.content, entry, fields, name, extra, data);
    LocalHeaders.LibraryEntryIsServed(site.archive.content, entry, LocalHeaders.LocalHeader(fields, name, extra) + data, site.libraryDecode, site.libraryIsWhole, sent);
  }
}
