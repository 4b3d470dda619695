/** Answering requests, one connection at a time. */
module Server {
  import opened Bytes
  import Numerals
  import opened Requests
  import opened Chunking
  import opened Listing
  import opened Messages
  import opened Responding
  import opened EntryBodies
  import opened Inflating
  import opened Pools
  import FsTree
  import Negotiation
  import Coding
  import Bodies
  import InflatedBodies
  import DecodedBodies
  import Replies
  import Io

  /** What is due to a request: a response that is all head, a listing, or an entry in a coding. */
  datatype Due =
    | Plain(lines: seq<bytes>)
    | Page(isRoot: bool, children: seq<FsNode>)
    | Content(entry: Coding.Entry, native: Option<Coding.NativeCoding>)

  /** All that an answer depends on besides the request: the archive, its tree, and what comes from elsewhere. */
  datatype Site = Site(
    archive: Io.Archive,
    tree: FsNode,
    markup: Markup,
    mimeOf: bytes -> bytes,
    isUtf8: bytes -> bool,
    /** Compression methods, besides stored and deflated, that a decoder was compiled in for. */
    decodes: Coding.Method -> bool,
    inflate: bytes -> bytes,
    isWhole: bytes -> bool,
    /** What the archive library decodes from an entry's local header on, and where it sees a whole entry. */
    libraryDecode: bytes -> bytes,
    libraryIsWhole: bytes -> bool,
    crc32: bytes -> nat)
  {
    predicate IsSupported(compression: Coding.Method) {
      compression == Coding.Store || compression == Coding.Deflate || decodes(compression)
    }

    function Mime(entry: Coding.Entry): bytes {
      mimeOf(entry.name)
    }

    /** The coding an entry is sent in without being decoded, if the client takes it. */
    function NativeFor(entry: Coding.Entry, accepted: Negotiation.AcceptedEncodings): Option<Coding.NativeCoding> {
      match Coding.NativeCoding.Of(entry.compression)
      case Some(native) => if native.IsAcceptedBy(accepted) then Some(native) else None
      case None => None
    }

    /** What a path is answered with. */
    function TargetOf(path: bytes): Option<FsTree.Target<Coding.Entry>> {
      if isUtf8(path) then FsTree.Resolve(tree, path) else None
    }

    /** Heads are short beside the buffer, MIME types keep to their line, and the decoders only ever add output. */
    ghost predicate IsSound() {
      && markup.preamble != []
      && (forall name :: |mimeOf(name)| <= 256 && Replies.LineFree(mimeOf(name)))
      && Monotone(inflate) && Monotone(libraryDecode)
    }

    // ---------- What the answers are ----------

    function DueFor(request: Request, path: bytes): Due {
      match request
      case Bad(status) => Plain(StatusLines(status))
      case Get(_, headers) =>
        match TargetOf(path)
        case None => Plain(StatusLines(NotFound))
        case Some(target) => DueForTarget(target, headers)
    }

    function DueForTarget(target: FsTree.Target<Coding.Entry>, headers: Headers): Due {
      match target
      case Redirect(name) => Plain(RedirectLines(name))
      case Listing(isRoot, children) => Page(isRoot, children)
      case Entry(entry) =>
        if headers.ifNoneMatch == Some(entry.crc32) then Plain(NotModifiedLines(entry.crc32))
        else DueForEntry(entry, NativeFor(entry, headers.accepted))
    }

    function DueForEntry(entry: Coding.Entry, native: Option<Coding.NativeCoding>): Due {
      if native.None? && !IsSupported(entry.compression) then Plain(StatusLines(UnsupportedCompression)) else Content(entry, native)
    }

    /**
     What an entry is sent as: in its native coding, its framed stored bytes; otherwise what
     they inflate to, or what the archive library decodes, as recorded.
     */
    ghost predicate IsContent(entry: Coding.Entry, native: Option<Coding.NativeCoding>, sent: bytes) {
      var content := archive.content;
      match native
      case Some(coding) =>
        && (entry.compressedSize > 0 ==> Bodies.HasStored(content, entry, entry.compressedSize))
        && sent == Coding.Wire(coding, entry, Bodies.Stored(content, entry, entry.compressedSize))
      case None =>
        if entry.compression == Coding.Deflate then InflatedBodies.IsInflation(content, entry, inflate, isWhole, crc32, sent)
        else DecodedBodies.IsDecoding(content, entry, libraryDecode, libraryIsWhole, sent)
    }

    /** `response`, as a client receives it, is what was due. */
    ghost predicate IsRight(due: Due, response: Response) {
      match due
      case Plain(lines) => response == Response(lines, [])
      case Page(isRoot, children) => response == Response(IndexLines(), Concat(Texts(markup, isRoot, children)))
      case Content(entry, native) =>
        response.lines == EntryLines(entry, native, Mime(entry)) && IsContent(entry, native, response.body)
    }

    /** `s` begins what the archive holds of the entry, if it holds what it records. */
    ghost predicate Begins(entry: Coding.Entry, native: Option<Coding.NativeCoding>, s: bytes) {
      IsIntact(entry, native) ==> exists content :: IsContent(entry, native, content) && s <= content
    }

    /** An entry is due that is not as the archive records it. */
    ghost predicate IsDamaged(due: Due) {
      due.Content? && !IsIntact(due.entry, due.native)
    }

    /** `response` has the head of what was due, is as long as that announces, and unless the entry is damaged has its content. */
    ghost predicate IsAttempt(due: Due, response: Response) {
      match due
      case Plain(lines) => response == Response(lines, [])
      case Page(isRoot, children) => response.lines == IndexLines() && response.body <= Concat(Texts(markup, isRoot, children))
      case Content(entry, native) =>
        && response.lines == EntryLines(entry, native, Mime(entry)) && |response.body| == AnnouncedLength(entry, native)
        && (IsIntact(entry, native) ==> IsContent(entry, native, response.body))
    }

    /** The archive holds what it records of the entry. */
    ghost predicate IsIntact(entry: Coding.Entry, native: Option<Coding.NativeCoding>) {
      var content := archive.content;
      match native
      case Some(coding) => entry.compressedSize > 0 ==> Bodies.HasStored(content, entry, entry.compressedSize)
      case None =>
        if entry.compression == Coding.Deflate then InflatedBodies.CanInflate(content, entry, inflate, isWhole, crc32)
        else DecodedBodies.CanDecode(content, entry, libraryDecode, libraryIsWhole)
    }

    /** A buffer of this size holds the head, or a listing's texts, and the archive an entry's content. */
    ghost predicate CanAnswer(due: Due, bufLen: nat) {
      match due
      case Plain(lines) => |Head(lines)| <= bufLen
      case Page(isRoot, children) => BufSuits(bufLen) && Listing.Fits(markup, isRoot, children, bufLen)
      case Content(entry, native) => |Head(EntryLines(entry, native, Mime(entry)))| <= bufLen && IsIntact(entry, native)
    }

    /** Everything this site has recorded of an entry fits its fields. */
    ghost predicate Records(target: FsTree.Target<Coding.Entry>) {
      target.Entry? ==> target.entry.Recorded()
    }
  }

  /**
   What an answer leaves on the connection: all of `reply` if it was sent, and otherwise a
   prefix of it, which never is all of it when the answer was refused.
   */
  ghost predicate Leaves(outcome: Sending, before: bytes, reply: bytes, after: bytes) {
    && before <= after <= before + reply
    && (outcome == Sent ==> after == before + reply)
    && (outcome == Refused ==> after != before + reply)
  }

  /**
   How an answer came out: what left begins the head that was due and, unless the entry is
   damaged, its content; and if all of the reply left, it was right, except that the bytes
   of a damaged entry may be out before they prove wrong.
   */
  ghost predicate Answered(site: Site, due: Due, outcome: Sending, before: bytes, reply: bytes, response: Response, after: bytes) {
    && Replies.Delimits(reply, response) && site.IsAttempt(due, response)
    && Leaves(outcome, before, reply, after)
    && (outcome == Sent ==> site.IsRight(due, response))
    && (after == before + reply && !site.IsDamaged(due) ==> site.IsRight(due, response))
  }

  /** What may keep an answer from being sent: a failure meanwhile, or that it cannot be given. */
  ghost predicate IsExcused(site: Site, due: Due, outcome: Sending, sinkFailed: bool, archiveFailed: bool, bufLen: nat) {
    outcome == Sent || sinkFailed || archiveFailed || !site.CanAnswer(due, bufLen)
  }

  /** How many bytes a response buffer must have. */
  const AMPLE: nat := 2048

  /** The pool's inflaters are the site's, and the buffer is not one of their arrays. */
  ghost predicate Ready(site: Site, inflaters: InflaterPool, buf: array<byte>)
    reads inflaters, inflaters.Decoders()
  {
    && inflaters.Valid() && inflaters.decode == site.inflate && inflaters.isWhole == site.isWhole
    && buf !in inflaters.Owned() && AMPLE <= buf.Length < MAX_USIZE
  }

  method OpenBody(site: Site, entry: Coding.Entry, native: Option<Coding.NativeCoding>, inflaters: InflaterPool, ghost buf: array<byte>)
    returns (body: EntryBody)
    requires site.IsSound() && Ready(site, inflaters, buf)
    modifies inflaters
    ensures body.Valid() && body.Sent() == [] && buf !in body.Repr()
    ensures body.Announced() == AnnouncedLength(entry, native)
    ensures Ready(site, inflaters, buf)
    ensures fresh(body.Repr() - old(inflaters.Owned())) && inflaters.Owned() <= old(inflaters.Owned())
    ensures if body.Inflated? then body.inflated.inflater !in old(inflaters.lent) && inflaters.lent == old(inflaters.lent) + {body.inflated.inflater}
            else inflaters.lent == old(inflaters.lent)
    ensures body.Repr() !! inflaters.Decoders() && inflaters !in body.Repr()
    ensures IsBodyOf(site, entry, native, body)
  {
    hide InflaterPool.Owned, Monotone;
    hide Bodies.NativeBody.Valid, DecodedBodies.DecodedBody.Valid, InflatedBodies.InflatedBody.Valid;
    if native.Some? {
      var b := new Bodies.NativeBody(site.archive, entry, native.value);
      assert inflaters.Decoders() !! {b};
      body := EntryBody.Native(b);
    } else if entry.compression == Coding.Deflate {
      var b := OpenInflated(site, entry, inflaters, buf);
      body := EntryBody.Inflated(b);
    } else {
      var fsm := new EntryFsm(site.libraryDecode, site.libraryIsWhole);
      var b := new DecodedBodies.DecodedBody(site.archive, entry, fsm);
      assert inflaters.Decoders() !! {b, fsm};
      body := EntryBody.Decoded(b);
    }
  }

  /** A body that inflates with a lent inflater. */
  method OpenInflated(site: Site, entry: Coding.Entry, inflaters: InflaterPool, ghost buf: array<byte>)
    returns (b: InflatedBodies.InflatedBody)
    requires site.IsSound() && Ready(site, inflaters, buf)
    modifies inflaters
    ensures fresh(b) && b.Valid() && b.sent == [] && b.archive == site.archive && b.entry == entry && b.crc32 == site.crc32
    ensures b.inflater.Sound() && b.inflater.decoder.decode == site.inflate && b.inflater.decoder.isWhole == site.isWhole
    ensures Ready(site, inflaters, buf)
    ensures fresh({b.inflater.decoder, b.inflater.window, b.inflater.input} - old(inflaters.Owned())) && inflaters.Owned() <= old(inflaters.Owned())
    ensures b.inflater !in old(inflaters.lent) && inflaters.lent == old(inflaters.lent) + {b.inflater}
    ensures inflaters.Decoders() !! {b, b.inflater.decoder, b.inflater.window, b.inflater.input}
  {
    hide InflaterPool.Owned, Monotone, InflatedBodies.InflatedBody.Valid;
    var inflater := inflaters.Lend();
    b := new InflatedBodies.InflatedBody(site.archive, entry, inflater, site.crc32);
  }

  /** The body was opened for this entry of this site. */
  ghost predicate IsBodyOf(site: Site, entry: Coding.Entry, native: Option<Coding.NativeCoding>, body: EntryBody) {
    && ArchiveOf(body) == site.archive
    && match body
       case Native(b) => native == Some(b.native) && b.entry == entry
       case Inflated(b) =>
         native.None? && entry.compression == Coding.Deflate && b.entry == entry && b.crc32 == site.crc32
         && b.inflater.Sound() && b.inflater.decoder.decode == site.inflate && b.inflater.decoder.isWhole == site.isWhole
       case Decoded(b) =>
         && native.None? && entry.compression != Coding.Deflate && b.entry == entry
         && b.fsm.decode == site.libraryDecode && b.fsm.isWhole == site.libraryIsWhole
  }

  // ---------- Heads are short ----------

  lemma {:induction false} DecimalIsShort(n: nat, k: nat)
    requires k > 0 && n < Numerals.Pow(10, k)
    ensures |Numerals.Decimal(n)| <= k
  {
    if k > 1 && n >= 10 {
      DecimalIsShort(n / 10, k - 1);
    }
  }

  lemma {:induction false} TerminatedIsShort(lines: seq<bytes>, most: nat)
    requires forall i :: 0 <= i < |lines| ==> |lines[i]| <= most
    ensures |Terminated(lines)| <= (most + 2) * |lines|
  {
    if lines != [] {
      assert forall i :: 0 <= i < |lines[1..]| ==> lines[1..][i] == lines[i + 1];
      TerminatedIsShort(lines[1..], most);
    }
  }

  lemma EntryHeadIsShort(site: Site, entry: Coding.Entry, native: Option<Coding.NativeCoding>)
    requires site.IsSound() && entry.Recorded()
    ensures 0 < |Head(EntryLines(entry, native, site.Mime(entry)))| <= AMPLE - ENOUGH_ROOM
  {
    var lines, n := EntryLines(entry, native, site.Mime(entry)), AnnouncedLength(entry, native);
    assert Numerals.Pow(10, 20) == 100000000000000000000 by {
      assert Numerals.Pow(10, 10) == 10000000000 by { assert Numerals.Pow(10, 5) == 100000; }
      assert Numerals.Pow(10, 15) == 1000000000000000;
    }
    DecimalIsShort(n, 20);
    DecimalIsShort(200, 3);
    forall i | 0 <= i < |lines|
      ensures |lines[i]| <= 300
    {
    }
    TerminatedIsShort(lines, 300);
  }

  lemma FixedHeadsAreShort(bufLen: nat)
    requires AMPLE <= bufLen < MAX_USIZE
    ensures BufSuits(bufLen) && |NotModifiedTemplate()| <= bufLen
  {
    DecimalIsShort(200, 3);
    DecimalIsShort(304, 3);
    TerminatedIsShort(IndexLines(), 300);
    var lines := [StatusLine(304, "Not Modified"), Field("ETag", [34] + Ascii("xxxxxxxx") + [34])];
    TerminatedIsShort(lines, 300);
    assert NotModifiedTemplate() == Head(lines);
  }

  lemma StatusAndTagAreShort(status: Status, crc32: nat)
    ensures |Head(StatusLines(status))| <= AMPLE && |Head(NotModifiedLines(crc32))| <= AMPLE
  {
    DecimalIsShort(304, 3);
    DecimalIsShort(404, 3);
    DecimalIsShort(400, 3);
    DecimalIsShort(414, 3);
    DecimalIsShort(431, 3);
    DecimalIsShort(405, 3);
    DecimalIsShort(500, 3);
    var lines, tagged := StatusLines(status), NotModifiedLines(crc32);
    forall i | 0 <= i < |lines|
      ensures |lines[i]| <= 300
    {
    }
    TerminatedIsShort(lines, 300);
    TerminatedIsShort(tagged, 300);
  }

  /** The redirects whose names are short, and the listings whose texts are, and the intact entries. */
  ghost predicate IsAnswerable(site: Site, target: FsTree.Target<Coding.Entry>, headers: Headers) {
    match target
    case Redirect(name) => |Head(RedirectLines(name))| <= CONNECTION_BUF_SIZE
    case Listing(isRoot, children) => BufSuits(CONNECTION_BUF_SIZE) && Listing.Fits(site.markup, isRoot, children, CONNECTION_BUF_SIZE)
    case Entry(entry) =>
      var native := site.NativeFor(entry, headers.accepted);
      headers.ifNoneMatch == Some(entry.crc32) || (native.None? && !site.IsSupported(entry.compression)) || site.IsIntact(entry, native)
  }

  /** With a connection's buffer, every request can be answered but for long redirects, listings with a long text and damaged entries. */
  lemma CanAnswerExactly(site: Site, request: Request, path: bytes)
    requires site.IsSound() && TreeRecords(site)
    ensures site.CanAnswer(site.DueFor(request, path), CONNECTION_BUF_SIZE) <==>
            match request
            case Bad(_) => true
            case Get(_, headers) => site.TargetOf(path).None? || IsAnswerable(site, site.TargetOf(path).value, headers)
  {
    hide StatusLines, NotModifiedLines, RedirectLines, Head, EntryLines, Listing.Fits, BufSuits, Site.IsIntact, Site.TargetOf;
    match request
    case Bad(status) =>
      StatusAndTagAreShort(status, 0);
    case Get(_, headers) =>
      StatusAndTagAreShort(NotFound, 0);
      match site.TargetOf(path)
      case Some(Entry(entry)) =>
        StatusAndTagAreShort(UnsupportedCompression, entry.crc32);
        EntryHeadIsShort(site, entry, site.NativeFor(entry, headers.accepted));
      case _ =>
  }

  // ---------- Answering ----------

  method ServeEntry(site: Site, entry: Coding.Entry, accepted: Negotiation.AcceptedEncodings, inflaters: InflaterPool, stream: ResponseStream)
    returns (outcome: Sending, ghost reply: bytes, ghost response: Response)
    requires site.IsSound() && entry.Recorded() && stream.sink.Valid() && Ready(site, inflaters, stream.buf)
    modifies stream.sink, stream.buf, inflaters, inflaters.Owned(), site.archive`failures
    ensures stream.sink.failures >= old(stream.sink.failures) && site.archive.failures >= old(site.archive.failures)
    ensures stream.sink.Valid() && Ready(site, inflaters, stream.buf)
    ensures inflaters.lent == old(inflaters.lent) && fresh(inflaters.Owned() - old(inflaters.Owned()))
    ensures var due := site.DueForEntry(entry, site.NativeFor(entry, accepted));
            && Answered(site, due, outcome, old(stream.sink.sent), reply, response, stream.sink.sent)
            && IsExcused(site, due, outcome, stream.sink.failures > old(stream.sink.failures), site.archive.failures > old(site.archive.failures), stream.buf.Length)
  {
    hide Head, EntryLines, StatusLines, Answered, IsExcused, InflaterPool.Valid;
    var native := site.NativeFor(entry, accepted);
    if native.None? && !site.IsSupported(entry.compression) {
      outcome, reply, response := AnswerStatus(site, UnsupportedCompression, stream);
      return;
    }
    var mime := site.Mime(entry);
    var headLen := stream.WriteEntryHeader(entry, native, mime);
    if headLen.None? {
      reply, response := HeadDoesNotFit(site, entry, native, stream.sink.sent, stream.buf.Length);
      return Refused, reply, response;
    }
    EntryHeadIsShort(site, entry, native);
    assert stream.buf[..headLen.value] == Head(EntryLines(entry, native, mime));
    outcome, reply, response := SendEntry(site, entry, native, inflaters, stream, headLen.value);
  }

  /** Opens the body of an entry, sends it behind the staged head, and drops it. */
  method SendEntry(site: Site, entry: Coding.Entry, native: Option<Coding.NativeCoding>, inflaters: InflaterPool, stream: ResponseStream, headLen: nat)
    returns (outcome: Sending, ghost reply: bytes, ghost response: Response)
    requires site.IsSound() && stream.sink.Valid() && Ready(site, inflaters, stream.buf)
    requires 0 < headLen && headLen + ENOUGH_ROOM <= stream.buf.Length
    requires stream.buf[..headLen] == Head(EntryLines(entry, native, site.Mime(entry)))
    modifies stream.sink, stream.buf, inflaters, inflaters.Owned(), site.archive`failures
    ensures stream.sink.failures >= old(stream.sink.failures) && site.archive.failures >= old(site.archive.failures)
    ensures stream.sink.Valid() && Ready(site, inflaters, stream.buf)
    ensures inflaters.lent == old(inflaters.lent) && fresh(inflaters.Owned() - old(inflaters.Owned()))
    ensures Answered(site, Content(entry, native), outcome, old(stream.sink.sent), reply, response, stream.sink.sent)
    ensures IsExcused(site, Content(entry, native), outcome, stream.sink.failures > old(stream.sink.failures), site.archive.failures > old(site.archive.failures), stream.buf.Length)
  {
    hide Head, EntryLines, AnnouncedLength, Answered, IsExcused, IsBodyOf, Site.IsSound, InflaterPool.Valid, InflaterPool.Owned;
    hide EntryBody.Valid, EntryBody.Sent, EntryBody.Complete, EntryBody.Announced, EntryBody.CanComplete;
    ghost var head := stream.buf[..headLen];
    var body := OpenBody(site, entry, native, inflaters, stream.buf);
    assert stream.buf[..headLen] == head;
    outcome, reply, response := SendOpened(site, entry, native, body, stream, headLen);
    DropBody(site, body, inflaters, entry, native, stream.buf);
  }

  /** Sends an opened body behind its head. */
  method SendOpened(site: Site, ghost entry: Coding.Entry, ghost native: Option<Coding.NativeCoding>, body: EntryBody, stream: ResponseStream, headLen: nat)
    returns (outcome: Sending, ghost reply: bytes, ghost response: Response)
    requires site.IsSound() && stream.sink.Valid()
    requires body.Valid() && body.Sent() == [] && body.Announced() == AnnouncedLength(entry, native) && IsBodyOf(site, entry, native, body)
    requires stream.buf !in body.Repr() && stream.sink !in body.Repr()
    requires 0 < headLen && headLen + ENOUGH_ROOM <= stream.buf.Length
    requires stream.buf[..headLen] == Head(EntryLines(entry, native, site.Mime(entry)))
    modifies stream.sink, stream.buf, body.Repr(), site.archive`failures
    ensures stream.sink.failures >= old(stream.sink.failures) && site.archive.failures >= old(site.archive.failures)
    ensures stream.sink.Valid()
    ensures Answered(site, Content(entry, native), outcome, old(stream.sink.sent), reply, response, stream.sink.sent)
    ensures IsExcused(site, Content(entry, native), outcome, stream.sink.failures > old(stream.sink.failures), site.archive.failures > old(site.archive.failures), stream.buf.Length)
  {
    hide Head, EntryLines, AnnouncedLength, Replies.Delimits, Site.IsSound, Site.IsContent, Site.IsIntact;
    hide EntryBody.Valid, EntryBody.Sent, EntryBody.Complete, EntryBody.Announced, EntryBody.CanComplete;
    ghost var first, head := stream.sink.sent, stream.buf[..headLen];
    IntactCompletes(site, entry, native, body);
    var ok := stream.SendBody(body, headLen);
    if ok {
      reply, response := head + body.Sent(), Response(EntryLines(entry, native, site.Mime(entry)), body.Sent());
      SentIsAnnounced(body);
      EntryCarries(site, entry, native, body.Sent());
      ContentIsRight(site, entry, native, body);
      assert stream.sink.sent == first + reply;
      return Sent, reply, response;
    }
    ghost var tail := if stream.sink.sent <= first + head then [] else stream.sink.sent[|first + head|..];
    if stream.sink.sent <= first + head {
      NothingBegins(site, entry, native);
    } else {
      BeginsContent(site, entry, native, body, tail);
    }
    reply, response := PaddedEntry(site, entry, native, first, stream.sink.sent, tail);
    return Aborted, reply, response;
  }

  /** What a body borrowed goes back to its pool, however the body ended. */
  method DropBody(site: Site, body: EntryBody, inflaters: InflaterPool, ghost entry: Coding.Entry, ghost native: Option<Coding.NativeCoding>, ghost buf: array<byte>)
    requires Ready(site, inflaters, buf) && IsBodyOf(site, entry, native, body) && buf !in body.Repr()
    requires body.Inflated? ==> body.inflated.inflater in inflaters.lent
    modifies inflaters, if body.Inflated? then {body.inflated.inflater.decoder} else {}
    ensures Ready(site, inflaters, buf) && inflaters.Owned() <= old(inflaters.Owned()) + body.Repr()
    ensures inflaters.lent == old(inflaters.lent) - if body.Inflated? then {body.inflated.inflater} else {}
  {
    hide InflaterPool.Valid, InflaterPool.Owned, InflaterPool.Decoders;
    if body.Inflated? {
      inflaters.Return(body.inflated.inflater);
    }
  }

  lemma StatusCarries(status: Status)
    ensures Replies.Delimits(Head(StatusLines(status)), Response(StatusLines(status), []))
  {
    forall rest
      ensures Receive(Head(StatusLines(status)) + rest) == Some(Received(Response(StatusLines(status), []), rest))
    {
      Replies.ReceiveStatus(status, rest);
    }
  }

  lemma EntryCarries(site: Site, entry: Coding.Entry, native: Option<Coding.NativeCoding>, sent: bytes)
    requires site.IsSound() && |sent| == AnnouncedLength(entry, native)
    ensures var lines := EntryLines(entry, native, site.Mime(entry)); Replies.Delimits(Head(lines) + sent, Response(lines, sent))
  {
    var lines := EntryLines(entry, native, site.Mime(entry));
    forall rest
      ensures Receive(Head(lines) + sent + rest) == Some(Received(Response(lines, sent), rest))
    {
      Replies.ReceiveEntry(entry, native, site.Mime(entry), sent, rest);
    }
  }

  /** An answer that what was sent of an entry is the start of: with the entry's own content, unless that is damaged. */
  lemma PaddedEntry(site: Site, entry: Coding.Entry, native: Option<Coding.NativeCoding>, before: bytes, after: bytes, tail: bytes)
    returns (reply: bytes, response: Response)
    requires site.IsSound() && before <= after && site.Begins(entry, native, tail) && |tail| <= AnnouncedLength(entry, native)
    requires var head := Head(EntryLines(entry, native, site.Mime(entry)));
             if tail == [] then after <= before + head else after == before + head + tail
    ensures Replies.Delimits(reply, response) && site.IsAttempt(Content(entry, native), response)
    ensures after <= before + reply && |Head(response.lines)| <= |reply|
  {
    hide Head, EntryLines, AnnouncedLength, Site.IsSound, Site.IsContent, Site.IsIntact;
    var lines := EntryLines(entry, native, site.Mime(entry));
    var head := Head(lines);
    var body := Completed(site, entry, native, tail);
    reply, response := head + body, Response(lines, body);
    EntryCarries(site, entry, native, body);
    assert before + reply == before + head + body;
    if tail != [] {
      assert body == tail + body[|tail|..];
      assert before + reply == after + body[|tail|..];
    }
  }

  lemma HeadDoesNotFit(site: Site, entry: Coding.Entry, native: Option<Coding.NativeCoding>, sent: bytes, bufLen: nat)
    returns (reply: bytes, response: Response)
    requires site.IsSound() && |Head(EntryLines(entry, native, site.Mime(entry)))| > bufLen
    ensures Answered(site, Content(entry, native), Refused, sent, reply, response, sent)
    ensures forall sinkFailed, archiveFailed :: IsExcused(site, Content(entry, native), Refused, sinkFailed, archiveFailed, bufLen)
  {
    hide Head, EntryLines, Replies.Delimits, Site.IsIntact, Site.IsContent, Site.IsSound;
    NothingBegins(site, entry, native);
    reply, response := PaddedEntry(site, entry, native, sent, sent, []);
  }

  /** A body of the announced length that begins with `tail`, and is the entry's content unless that is damaged. */
  lemma Completed(site: Site, entry: Coding.Entry, native: Option<Coding.NativeCoding>, tail: bytes) returns (body: bytes)
    requires site.Begins(entry, native, tail) && |tail| <= AnnouncedLength(entry, native)
    ensures tail <= body && |body| == AnnouncedLength(entry, native)
    ensures site.IsIntact(entry, native) ==> site.IsContent(entry, native, body)
  {
    if site.IsIntact(entry, native) {
      body :| site.IsContent(entry, native, body) && tail <= body;
      ContentIsAnnounced(site, entry, native, body);
    } else {
      var padding: bytes := seq(AnnouncedLength(entry, native) - |tail|, i => 0);
      body := tail + padding;
    }
  }

  lemma ContentIsAnnounced(site: Site, entry: Coding.Entry, native: Option<Coding.NativeCoding>, content: bytes)
    requires site.IsContent(entry, native, content)
    ensures |content| == AnnouncedLength(entry, native)
  {
    match native
    case Some(coding) =>
      Coding.WireHasContentLength(coding, entry, Bodies.Stored(site.archive.content, entry, entry.compressedSize));
    case None =>
  }

  /** What begins what an entry's body is to hand out begins the entry's content. */
  lemma BeginsContent(site: Site, entry: Coding.Entry, native: Option<Coding.NativeCoding>, body: EntryBody, s: bytes)
    requires IsBodyOf(site, entry, native, body) && StartsContent(body, s)
    ensures site.Begins(entry, native, s)
  {
    if site.IsIntact(entry, native) {
      IntactCompletes(site, entry, native, body);
      var content := ContentOf(site, entry, native);
      assert s <= content;
    }
  }

  lemma NothingBegins(site: Site, entry: Coding.Entry, native: Option<Coding.NativeCoding>)
    ensures site.Begins(entry, native, [])
  {
    if site.IsIntact(entry, native) {
      var content := ContentOf(site, entry, native);
      assert [] <= content;
    }
  }

  /** The content of an intact entry. */
  lemma ContentOf(site: Site, entry: Coding.Entry, native: Option<Coding.NativeCoding>) returns (content: bytes)
    requires site.IsIntact(entry, native)
    ensures site.IsContent(entry, native, content)
    ensures forall body, s :: IsBodyOf(site, entry, native, body) && body.CanComplete() && StartsContent(body, s) ==> s <= content
  {
    var archived := site.archive.content;
    if native.Some? {
      content := Coding.Wire(native.value, entry, Bodies.Stored(archived, entry, entry.compressedSize));
    } else if entry.compression == Coding.Deflate {
      var n: nat :| InflatedBodies.InflatesAt(archived, entry, site.inflate, site.isWhole, site.crc32, n);
      content := site.inflate(Bodies.Stored(archived, entry, n));
    } else {
      var n: nat :| DecodedBodies.DecodesAt(archived, entry, site.libraryDecode, site.libraryIsWhole, n);
      content := site.libraryDecode(DecodedBodies.FromHeader(archived, entry)[..n]);
    }
  }

  lemma ContentIsRight(site: Site, entry: Coding.Entry, native: Option<Coding.NativeCoding>, body: EntryBody)
    requires body.Valid() && body.Complete() && IsBodyOf(site, entry, native, body)
    ensures site.IsContent(entry, native, body.Sent())
  {
    CompleteHasContent(body);
  }

  /** A body of an intact entry can complete. */
  lemma IntactCompletes(site: Site, entry: Coding.Entry, native: Option<Coding.NativeCoding>, body: EntryBody)
    requires IsBodyOf(site, entry, native, body)
    ensures site.IsIntact(entry, native) ==> body.CanComplete()
    ensures ArchiveOf(body) == site.archive
  {
  }

  lemma RedirectCarries(name: bytes)
    ensures Replies.Delimits(Head(RedirectLines(name)), Response(RedirectLines(name), []))
  {
    forall rest
      ensures Receive(Head(RedirectLines(name)) + rest) == Some(Received(Response(RedirectLines(name), []), rest))
    {
      Replies.ReceiveRedirect(name, rest);
    }
  }

  lemma NotModifiedCarries(crc32: nat)
    ensures Replies.Delimits(Head(NotModifiedLines(crc32)), Response(NotModifiedLines(crc32), []))
  {
    forall rest
      ensures Receive(Head(NotModifiedLines(crc32)) + rest) == Some(Received(Response(NotModifiedLines(crc32), []), rest))
    {
      Replies.ReceiveNotModified(crc32, rest);
    }
  }

  /** A listing's chunks, terminated, are received as the text they hold: the start of the listing, all of it if it fits. */
  lemma ListingCarries(markup: Markup, isRoot: bool, children: seq<FsNode>, bufLen: nat)
    requires BufSuits(bufLen) && markup.preamble != []
    ensures var p, all := ListingPacked(markup, isRoot, children, bufLen), Concat(Texts(markup, isRoot, children));
            && Replies.Delimits(IndexHeader() + (Frames(p.chunks) + TERMINATOR), Response(IndexLines(), Concat(p.chunks)))
            && Concat(p.chunks) <= all && (p.complete ==> Concat(p.chunks) == all)
            && (p.complete <==> Listing.Fits(markup, isRoot, children, bufLen))
  {
    var p, texts := ListingPacked(markup, isRoot, children, bufLen), Texts(markup, isRoot, children);
    ListingChunks(markup, isRoot, children, bufLen);
    assert p.complete ==> Dechunk(Frames(p.chunks) + TERMINATOR + []) == Some(Chunking.Decoded.Decoded(Concat(texts), []));
    ChunkedRoundTrip(p.chunks, []);
    hide Frames, Dechunk, Texts, Receive, IndexLines;
    forall rest
      ensures Receive(IndexHeader() + (Frames(p.chunks) + TERMINATOR) + rest) == Some(Received(Response(IndexLines(), Concat(p.chunks)), rest))
    {
      Replies.ReceiveListing(p.chunks, rest);
    }
  }

  /** The chunks of a refused listing are the start of a terminated one. */
  lemma RefusedIsPart(before: bytes, chunks: seq<bytes>)
    ensures before + Flushed(chunks) < before + (IndexHeader() + (Frames(chunks) + TERMINATOR))
  {
    hide IndexHeader, Frames;
    var all := before + (IndexHeader() + (Frames(chunks) + TERMINATOR));
    if chunks != [] {
      assert all == (before + (IndexHeader() + Frames(chunks))) + TERMINATOR;
    } else {
      assert before + [] == before;
    }
  }

  method ServeListing(site: Site, isRoot: bool, children: seq<FsNode>, stream: ResponseStream)
    returns (outcome: Sending, ghost reply: bytes, ghost response: Response)
    requires site.IsSound() && stream.sink.Valid() && AMPLE <= stream.buf.Length < MAX_USIZE
    modifies stream.sink, stream.buf
    ensures stream.sink.failures >= old(stream.sink.failures)
    ensures stream.sink.Valid()
    ensures Answered(site, Page(isRoot, children), outcome, old(stream.sink.sent), reply, response, stream.sink.sent)
    ensures IsExcused(site, Page(isRoot, children), outcome, stream.sink.failures > old(stream.sink.failures), site.archive.failures > old(site.archive.failures), stream.buf.Length)
  {
    hide IndexLines, Texts, Replies.Delimits, ListingPacked, BufSuits, Frames, Flushed, IndexHeader, Listing.Fits;
    FixedHeadsAreShort(stream.buf.Length);
    ghost var first, p := stream.sink.sent, ListingPacked(site.markup, isRoot, children, stream.buf.Length);
    reply := IndexHeader() + (Frames(p.chunks) + TERMINATOR);
    response := Response(IndexLines(), Concat(p.chunks));
    outcome := stream.ServeIndex(site.markup, isRoot, children);
    assert first + IndexHeader() + (Frames(p.chunks) + TERMINATOR) == first + reply;
    ListingCarries(site.markup, isRoot, children, stream.buf.Length);
    RefusedIsPart(first, p.chunks);
  }

  method ServeTarget(site: Site, target: FsTree.Target<Coding.Entry>, headers: Headers, inflaters: InflaterPool, stream: ResponseStream)
    returns (outcome: Sending, ghost reply: bytes, ghost response: Response)
    requires site.IsSound() && site.Records(target) && stream.sink.Valid() && Ready(site, inflaters, stream.buf)
    modifies stream.sink, stream.buf, inflaters, inflaters.Owned(), site.archive`failures
    ensures stream.sink.failures >= old(stream.sink.failures) && site.archive.failures >= old(site.archive.failures)
    ensures stream.sink.Valid() && Ready(site, inflaters, stream.buf)
    ensures inflaters.lent == old(inflaters.lent) && fresh(inflaters.Owned() - old(inflaters.Owned()))
    ensures var due := site.DueForTarget(target, headers);
            && Answered(site, due, outcome, old(stream.sink.sent), reply, response, stream.sink.sent)
            && IsExcused(site, due, outcome, stream.sink.failures > old(stream.sink.failures), site.archive.failures > old(site.archive.failures), stream.buf.Length)
  {
    hide RedirectLines, NotModifiedLines, Answered, IsExcused, InflaterPool.Valid, Site.DueForEntry;
    match target
    case Entry(entry) =>
      if headers.ifNoneMatch == Some(entry.crc32) {
        outcome, reply, response := AnswerNotModified(site, entry.crc32, stream);
      } else {
        outcome, reply, response := ServeEntry(site, entry, headers.accepted, inflaters, stream);
      }
    case Listing(isRoot, children) =>
      outcome, reply, response := ServeListing(site, isRoot, children, stream);
    case Redirect(name) =>
      outcome, reply, response := AnswerRedirect(site, name, stream);
  }

  method AnswerNotModified(site: Site, crc32: nat, stream: ResponseStream) returns (outcome: Sending, ghost reply: bytes, ghost response: Response)
    requires stream.sink.Valid() && AMPLE <= stream.buf.Length < MAX_USIZE
    modifies stream.sink, stream.buf
    ensures stream.sink.Valid() && stream.sink.failures >= old(stream.sink.failures)
    ensures Answered(site, Plain(NotModifiedLines(crc32)), outcome, old(stream.sink.sent), reply, response, stream.sink.sent)
    ensures IsExcused(site, Plain(NotModifiedLines(crc32)), outcome, stream.sink.failures > old(stream.sink.failures), site.archive.failures > old(site.archive.failures), stream.buf.Length)
  {
    hide NotModifiedLines, NotModifiedTemplate, Replies.Delimits;
    FixedHeadsAreShort(stream.buf.Length);
    NotModifiedCarries(crc32);
    reply, response := Head(NotModifiedLines(crc32)), Response(NotModifiedLines(crc32), []);
    outcome := stream.ServeNotModified(crc32);
  }

  method AnswerRedirect(site: Site, name: bytes, stream: ResponseStream) returns (outcome: Sending, ghost reply: bytes, ghost response: Response)
    requires stream.sink.Valid()
    modifies stream.sink, stream.buf
    ensures stream.sink.Valid() && stream.sink.failures >= old(stream.sink.failures)
    ensures Answered(site, Plain(RedirectLines(name)), outcome, old(stream.sink.sent), reply, response, stream.sink.sent)
    ensures IsExcused(site, Plain(RedirectLines(name)), outcome, stream.sink.failures > old(stream.sink.failures), site.archive.failures > old(site.archive.failures), stream.buf.Length)
  {
    hide RedirectLines, Replies.Delimits;
    RedirectCarries(name);
    reply, response := Head(RedirectLines(name)), Response(RedirectLines(name), []);
    outcome := stream.ServeRedirectIntoDir(name);
  }

  /** The tree records every entry it can answer with in fields of its width. */
  ghost predicate TreeRecords(site: Site) {
    forall path :: site.TargetOf(path).Some? ==> site.Records(site.TargetOf(path).value)
  }

  /** A response that is all head. */
  method AnswerStatus(site: Site, status: Status, stream: ResponseStream) returns (outcome: Sending, ghost reply: bytes, ghost response: Response)
    requires stream.sink.Valid()
    modifies stream.sink, stream.buf
    ensures stream.sink.failures >= old(stream.sink.failures)
    ensures stream.sink.Valid()
    ensures Answered(site, Plain(StatusLines(status)), outcome, old(stream.sink.sent), reply, response, stream.sink.sent)
    ensures IsExcused(site, Plain(StatusLines(status)), outcome, stream.sink.failures > old(stream.sink.failures), site.archive.failures > old(site.archive.failures), stream.buf.Length)
  {
    hide StatusLines, Replies.Delimits;
    StatusCarries(status);
    reply, response := Head(StatusLines(status)), Response(StatusLines(status), []);
    outcome := stream.ServeStatus(status);
  }

  /** Answers one request, whose decoded path stands at the front of `buf`. */
  method Respond(site: Site, request: Request, buf: array<byte>, inflaters: InflaterPool, sink: Io.Sink)
    returns (outcome: Sending, ghost reply: bytes, ghost response: Response)
    requires site.IsSound() && TreeRecords(site) && sink.Valid() && Ready(site, inflaters, buf)
    requires request.Get? ==> request.pathLen <= buf.Length
    modifies sink, buf, inflaters, inflaters.Owned(), site.archive`failures
    ensures sink.failures >= old(sink.failures) && site.archive.failures >= old(site.archive.failures)
    ensures sink.Valid() && Ready(site, inflaters, buf)
    ensures inflaters.lent == old(inflaters.lent) && fresh(inflaters.Owned() - old(inflaters.Owned()))
    ensures var due := site.DueFor(request, if request.Get? then old(buf[..request.pathLen]) else []);
            && Answered(site, due, outcome, old(sink.sent), reply, response, sink.sent)
            && IsExcused(site, due, outcome, sink.failures > old(sink.failures), site.archive.failures > old(site.archive.failures), buf.Length)
  {
    hide Head, StatusLines, Answered, Site.DueForTarget, Site.IsSound, Site.TargetOf, Site.CanAnswer;
    var stream := new ResponseStream(sink, buf);
    match request
    case Get(pathLen, headers) =>
      var target := site.TargetOf(buf[..pathLen]);
      match target {
        case None =>
          outcome, reply, response := AnswerStatus(site, NotFound, stream);
        case Some(found) =>
          outcome, reply, response := ServeTarget(site, found, headers, inflaters, stream);
      }
    case Bad(status) =>
      outcome, reply, response := AnswerStatus(site, status, stream);
  }
}
