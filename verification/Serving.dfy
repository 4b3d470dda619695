/** Serving one connection from its first byte to its last. */
module Serving {
  import opened Bytes
  import opened Framing
  import opened Requests
  import opened Messages
  import opened Responding
  import opened Server
  import opened Pools
  import opened Delimiting
  import Replies
  import Io

  const REQUEST_BUF_SIZE: nat := 0x2000

  /** One request answered whole: what the parser was given, what it asked, what left and what a client receives. */
  datatype Exchange = Exchange(frame: bytes, request: Request, reply: bytes, response: Response)

  type Log = seq<Exchange>

  function FramesOf(log: Log): seq<bytes> {
    seq(|log|, i requires 0 <= i < |log| => log[i].frame)
  }

  function RepliesOf(log: Log): seq<bytes> {
    seq(|log|, i requires 0 <= i < |log| => log[i].reply)
  }

  function ResponsesOf(log: Log): seq<Response> {
    seq(|log|, i requires 0 <= i < |log| => log[i].response)
  }

  /** How a connection ends; a failed answer was on its way to `tried`. */
  datatype Ending =
    | PeerDone
    | NotKeptAlive
    | ConnectionFailed
    | AnswerFailed(tried: Exchange)

  function RequestIn(frame: bytes, http: bytes -> Parsed): Request {
    RequestOf(http(frame), CONNECTION_BUF_SIZE)
  }

  /** The frames that are to be answered: all up to and including the first that does not keep the connection. */
  function ToAnswer(frames: seq<bytes>, http: bytes -> Parsed): seq<bytes> {
    if frames == [] then []
    else [frames[0]] + if RequestIn(frames[0], http).KeepAlive() then ToAnswer(frames[1..], http) else []
  }

  /** The request in a frame asks, as the parser has it, to be answered on a connection that stays. */
  ghost predicate StaysAfter(frame: bytes, http: bytes -> Parsed) {
    AsksToStay(http(frame), CONNECTION_BUF_SIZE)
  }

  /** All frames to answer but the last ask for the connection to stay, and if not all frames are, the last one does not. */
  lemma {:induction false} AnsweredUntilOneLeaves(frames: seq<bytes>, http: bytes -> Parsed)
    ensures var answered := ToAnswer(frames, http);
            && answered <= frames && (frames != [] ==> answered != [])
            && (forall i :: 0 <= i < |answered| - 1 ==> StaysAfter(answered[i], http))
            && (answered != frames ==> !StaysAfter(answered[|answered| - 1], http))
  {
    hide RequestIn, AsksToStay;
    if frames != [] {
      StaysIn(frames[0], http);
      AnsweredUntilOneLeaves(frames[1..], http);
      var rest := ToAnswer(frames[1..], http);
      assert frames == [frames[0]] + frames[1..];
      if RequestIn(frames[0], http).KeepAlive() {
        assert ToAnswer(frames, http) == [frames[0]] + rest;
        assert forall i :: 0 < i < |rest| + 1 ==> ToAnswer(frames, http)[i] == rest[i - 1];
      } else {
        assert ToAnswer(frames, http) == [frames[0]];
      }
    }
  }

  lemma StaysIn(frame: bytes, http: bytes -> Parsed)
    ensures RequestIn(frame, http).KeepAlive() <==> StaysAfter(frame, http)
  {
    StaysExactlyWhen(http(frame), CONNECTION_BUF_SIZE);
  }

  /** What is due to the request in a frame. */
  function DueOf(site: Site, http: bytes -> Parsed, frame: bytes): Due {
    site.DueFor(RequestIn(frame, http), PathOf(http(frame)))
  }

  /** A whole and right answer to the request in its frame. */
  ghost predicate IsAnswer(site: Site, http: bytes -> Parsed, e: Exchange) {
    && e.request == RequestIn(e.frame, http)
    && Replies.Delimits(e.reply, e.response)
    && site.IsRight(DueOf(site, http, e.frame), e.response)
  }

  /** A reply with the head due to the request in its frame, as long as that announces, and with an entry's content unless that is damaged. */
  ghost predicate IsTry(site: Site, http: bytes -> Parsed, e: Exchange) {
    && e.request == RequestIn(e.frame, http)
    && Replies.Delimits(e.reply, e.response)
    && site.IsAttempt(DueOf(site, http, e.frame), e.response)
  }

  /** The reply of a try is only ever whole if it is right, or a damaged entry whose bytes were out before they proved wrong. */
  ghost predicate IsHonest(site: Site, http: bytes -> Parsed, e: Exchange, isWhole: bool) {
    isWhole && !site.IsDamaged(DueOf(site, http, e.frame)) ==> site.IsRight(DueOf(site, http, e.frame), e.response)
  }

  ghost predicate AreAnswers(site: Site, http: bytes -> Parsed, log: Log) {
    forall i :: 0 <= i < |log| ==> IsAnswer(site, http, log[i])
  }

  /** What is left to answer once `log` was answered, of a connection that brought `stream`. */
  ghost predicate Leads(stream: bytes, log: Log, left: bytes, http: bytes -> Parsed) {
    && stream == Concat(FramesOf(log)) + left
    && ToAnswer(Split(stream, REQUEST_BUF_SIZE), http) == FramesOf(log) + ToAnswer(Split(left, REQUEST_BUF_SIZE), http)
  }

  /** What was sent: the answers in the log, and behind them part of one that failed. */
  ghost predicate HasSent(log: Log, ending: Ending, part: bytes, before: bytes, after: bytes) {
    && after == before + Concat(RepliesOf(log)) + part
    && if ending.AnswerFailed? then part <= ending.tried.reply else part == []
  }

  lemma OneMoreExchange(log: Log, e: Exchange)
    ensures FramesOf(log + [e]) == FramesOf(log) + [e.frame]
    ensures Concat(RepliesOf(log + [e])) == Concat(RepliesOf(log)) + e.reply
    ensures Concat(FramesOf(log + [e])) == Concat(FramesOf(log)) + e.frame
    ensures ResponsesOf(log + [e]) == ResponsesOf(log) + [e.response]
  {
    assert RepliesOf(log + [e]) == RepliesOf(log) + [e.reply];
    assert FramesOf(log + [e]) == FramesOf(log) + [e.frame];
    ConcatDistributes(RepliesOf(log), [e.reply]);
    ConcatDistributes(FramesOf(log), [e.frame]);
    ConcatSingle(e.reply);
    ConcatSingle(e.frame);
  }

  /** The frames to answer, one frame further into the stream. */
  lemma FrameToAnswer(left: bytes, frame: bytes, rest: bytes, http: bytes -> Parsed)
    requires frame + rest == left && NextFrame(left, REQUEST_BUF_SIZE) == Framed(|frame|)
    ensures ToAnswer(Split(left, REQUEST_BUF_SIZE), http) ==
            [frame] + if RequestIn(frame, http).KeepAlive() then ToAnswer(Split(rest, REQUEST_BUF_SIZE), http) else []
  {
    hide NextFrame, RequestIn;
    assert left[..|frame|] == frame && left[|frame|..] == rest;
    var frames := Split(left, REQUEST_BUF_SIZE);
    assert frames[1..] == Split(rest, REQUEST_BUF_SIZE);
  }

  /** The next frame of what is left is the next to be answered. */
  lemma NextToAnswer(stream: bytes, log: Log, left: bytes, e: Exchange, rest: bytes, http: bytes -> Parsed)
    requires Leads(stream, log, left, http)
    requires e.frame + rest == left && NextFrame(left, REQUEST_BUF_SIZE) == Framed(|e.frame|)
    ensures FramesOf(log) < ToAnswer(Split(stream, REQUEST_BUF_SIZE), http)
    ensures FramesOf(log + [e]) <= ToAnswer(Split(stream, REQUEST_BUF_SIZE), http)
    ensures RequestIn(e.frame, http).KeepAlive() ==> Leads(stream, log + [e], rest, http)
    ensures !RequestIn(e.frame, http).KeepAlive() ==> FramesOf(log + [e]) == ToAnswer(Split(stream, REQUEST_BUF_SIZE), http)
  {
    hide NextFrame, RequestIn, FramesOf, ToAnswer, Split;
    OneMoreExchange(log, e);
    FrameToAnswer(left, e.frame, rest, http);
    var more := if RequestIn(e.frame, http).KeepAlive() then ToAnswer(Split(rest, REQUEST_BUF_SIZE), http) else [];
    assert FramesOf(log) + ([e.frame] + more) == FramesOf(log) + [e.frame] + more;
  }

  lemma NothingLeft(stream: bytes, log: Log, left: bytes, http: bytes -> Parsed)
    requires Leads(stream, log, left, http) && NextFrame(left, REQUEST_BUF_SIZE) == PeerClosed
    ensures FramesOf(log) == ToAnswer(Split(stream, REQUEST_BUF_SIZE), http)
  {
  }

  /** What a client receives: the answers in the log, and a failed one only if none of it is missing. */
  lemma ClientReceives(site: Site, http: bytes -> Parsed, log: Log, part: bytes, reply: bytes, response: Response)
    requires AreAnswers(site, http, log)
    requires part <= reply && Replies.Delimits(reply, response)
    ensures ReceiveAll(Concat(RepliesOf(log)) + part) == ResponsesOf(log) + if part == reply then [response] else []
  {
    hide ReceiveAll;
    forall i | 0 <= i < |log|
      ensures Replies.Delimits(RepliesOf(log)[i], ResponsesOf(log)[i])
    {
      assert IsAnswer(site, http, log[i]);
    }
    PartlyReceived(RepliesOf(log), ResponsesOf(log), part, reply, response);
  }

  lemma ClientReceivesSent(site: Site, http: bytes -> Parsed, stream: bytes, log: Log, ending: Ending, part: bytes, before: bytes, after: bytes)
    requires Served(site, http, stream, log, ending, part, before, after)
    ensures ReceiveAll(Concat(RepliesOf(log)) + part) ==
            ResponsesOf(log) + if ending.AnswerFailed? && part == ending.tried.reply then [ending.tried.response] else []
  {
    hide AreAnswers, Replies.Delimits, ReceiveAll, RepliesOf, ResponsesOf;
    if ending.AnswerFailed? {
      ClientReceives(site, http, log, part, ending.tried.reply, ending.tried.response);
    } else {
      StatusCarries(NotFound);
      ClientReceives(site, http, log, [], Head(StatusLines(NotFound)), Response(StatusLines(NotFound), []));
    }
  }

  /** `site` is sound, the pools are too, and no buffer belongs to both. */
  ghost predicate Prepared(site: Site, pool: BufPool, inflaters: InflaterPool)
    reads pool, inflaters, inflaters.Decoders()
  {
    && site.IsSound() && TreeRecords(site)
    && pool.Valid() && inflaters.Valid() && inflaters.decode == site.inflate && inflaters.isWhole == site.isWhole
    && forall i :: 0 <= i < |pool.idle| ==> pool.idle[i] !in inflaters.Owned()
  }

  /** How one turn of the loop ends. */
  datatype Turn = Replied | NoneCame | BadRead | NotReplied | NotFlushed

  /** One connection's reader and buffer, beside the site and the inflaters they are used with. */
  ghost predicate Apart(site: Site, reader: RequestReader, buf: array<byte>, inflaters: InflaterPool)
    reads reader, inflaters, inflaters.Decoders()
  {
    && reader.Valid() && Ready(site, inflaters, buf)
    && reader.buf != buf && reader.buf !in inflaters.Owned()
    && buf.Length == CONNECTION_BUF_SIZE && reader.buf.Length == REQUEST_BUF_SIZE
  }

  /** A bad request is answered the same whatever its path. */
  lemma PathMatters(site: Site, request: Request, path: bytes, other: bytes)
    requires request.Get? ==> path == other
    ensures site.DueFor(request, path) == site.DueFor(request, other)
  {
  }

  /** What may keep the answer to a frame from being sent. */
  ghost predicate MayFail(site: Site, http: bytes -> Parsed, frame: bytes, sinkFailed: bool, archiveFailed: bool) {
    sinkFailed || archiveFailed || !site.CanAnswer(DueOf(site, http, frame), CONNECTION_BUF_SIZE)
  }

  /** One turn of the loop in `Serve`: the next request, its answer, and the flush. */
  method AnswerNext(site: Site, reader: RequestReader, buf: array<byte>, inflaters: InflaterPool, socket: Io.Socket, sink: Io.Sink)
    returns (turn: Turn, keepAlive: bool, ghost e: Exchange)
    requires site.IsSound() && TreeRecords(site) && sink.Valid() && Apart(site, reader, buf, inflaters)
    modifies reader, reader.buf, socket, sink, buf, inflaters, inflaters.Owned(), site.archive`failures
    ensures sink.Valid() && Apart(site, reader, buf, inflaters)
    ensures inflaters.lent == old(inflaters.lent) && fresh(inflaters.Owned() - old(inflaters.Owned()))
    ensures e.frame + (reader.Pending() + socket.unread) == old(reader.Pending() + socket.unread)
    ensures turn == NoneCame ==> NextFrame(old(reader.Pending() + socket.unread), REQUEST_BUF_SIZE) == PeerClosed
    ensures socket.failures >= old(socket.failures) && sink.failures >= old(sink.failures) && site.archive.failures >= old(site.archive.failures)
    ensures turn == BadRead ==> socket.failures > old(socket.failures)
    ensures turn == NoneCame || turn == BadRead ==> sink.sent == old(sink.sent)
    ensures turn != NoneCame && turn != BadRead ==>
              && NextFrame(old(reader.Pending() + socket.unread), REQUEST_BUF_SIZE) == Framed(|e.frame|)
              && keepAlive == RequestIn(e.frame, reader.http).KeepAlive()
              && Came(site, reader.http, turn, e, old(sink.sent), sink.sent)
    ensures turn == NotReplied ==> MayFail(site, reader.http, e.frame, sink.failures > old(sink.failures), site.archive.failures > old(site.archive.failures))
    ensures turn == NotFlushed ==> sink.failures > old(sink.failures)
  {
    hide NextFrame, RequestOf, PathOf, Came, MayFail, Site.IsSound, InflaterPool.Valid, InflaterPool.Owned, TreeRecords, Range;
    keepAlive := false;
    var arrival;
    ghost var frame;
    arrival, frame := Await(site, reader, buf, inflaters, socket);
    e := Exchange(frame, Bad(NotFound), [], Response([], []));
    if !arrival.Arrived? {
      turn := if arrival.Closed? then NoneCame else BadRead;
      return;
    }
    keepAlive := arrival.request.KeepAlive();
    ghost var owned, held := inflaters.Owned(), reader.buf[..];
    NotOwned(inflaters, reader, socket);
    label Came:
    turn, e := Answer(site, arrival.request, frame, reader.http, buf, inflaters, sink);
    assert fresh@Came(inflaters.Owned() - owned);
    forall o | o in inflaters.Owned() && o !in owned
      ensures fresh(o)
    {
      assert fresh@Came(o);
    }
    assert reader.buf[..] == held;
  }

  lemma NotOwned(inflaters: InflaterPool, reader: RequestReader, socket: Io.Socket)
    ensures reader !in inflaters.Owned() && socket !in inflaters.Owned()
  {
  }

  /** The next request, beside inflaters that this leaves alone. */
  method Await(site: Site, reader: RequestReader, buf: array<byte>, ghost inflaters: InflaterPool, socket: Io.Socket)
    returns (arrival: Arrival, ghost frame: bytes)
    requires Apart(site, reader, buf, inflaters)
    modifies reader, reader.buf, socket, buf
    ensures Apart(site, reader, buf, inflaters) && inflaters.Owned() == old(inflaters.Owned()) && inflaters.lent == old(inflaters.lent)
    ensures frame + (reader.Pending() + socket.unread) == old(reader.Pending() + socket.unread)
    ensures match arrival
            case Closed => frame == [] && NextFrame(old(reader.Pending() + socket.unread), REQUEST_BUF_SIZE) == PeerClosed
            case ReadFailed => frame == []
            case Arrived(request) =>
              && NextFrame(old(reader.Pending() + socket.unread), REQUEST_BUF_SIZE) == Framed(|frame|)
              && request == RequestIn(frame, reader.http)
              && (request.Get? ==> request.pathLen <= buf.Length && buf[..request.pathLen] == PathOf(reader.http(frame)))
    ensures socket.failures == old(socket.failures) + if arrival.ReadFailed? then 1 else 0
  {
    hide NextFrame, RequestOf, PathOf, InflaterPool.Valid, Range;
    ghost var windows;
    arrival, frame, windows := reader.NextRequest(socket, buf);
  }

  /** What a turn that got a request leaves on the connection: a right answer, or the start of a try. */
  ghost predicate Came(site: Site, http: bytes -> Parsed, turn: Turn, e: Exchange, before: bytes, after: bytes) {
    && IsTry(site, http, e)
    && before <= after <= before + e.reply
    && (turn != NotReplied ==> after == before + e.reply && IsAnswer(site, http, e))
    && IsHonest(site, http, e, after == before + e.reply)
  }

  /** Answers the request in `frame` and flushes. */
  method Answer(site: Site, request: Request, ghost frame: bytes, ghost http: bytes -> Parsed, buf: array<byte>, inflaters: InflaterPool, sink: Io.Sink)
    returns (turn: Turn, ghost e: Exchange)
    requires site.IsSound() && TreeRecords(site) && sink.Valid() && Ready(site, inflaters, buf) && buf.Length == CONNECTION_BUF_SIZE
    requires request == RequestIn(frame, http)
    requires request.Get? ==> request.pathLen <= buf.Length && buf[..request.pathLen] == PathOf(http(frame))
    modifies sink, buf, inflaters, inflaters.Owned(), site.archive`failures
    ensures sink.Valid() && Ready(site, inflaters, buf)
    ensures inflaters.lent == old(inflaters.lent) && fresh(inflaters.Owned() - old(inflaters.Owned()))
    ensures e.frame == frame && turn in {Replied, NotFlushed, NotReplied}
    ensures Came(site, http, turn, e, old(sink.sent), sink.sent)
    ensures turn == NotReplied ==> MayFail(site, http, frame, sink.failures > old(sink.failures), site.archive.failures > old(site.archive.failures))
    ensures sink.failures >= old(sink.failures) && site.archive.failures >= old(site.archive.failures)
    ensures turn == NotFlushed ==> sink.failures > old(sink.failures)
  {
    hide RequestOf, PathOf, Replies.Delimits, Site.IsRight, Site.IsAttempt, Site.IsSound, Site.CanAnswer, Site.DueFor, InflaterPool.Valid, TreeRecords;
    var outcome;
    ghost var reply, response;
    ghost var path := buf[..if request.Get? then request.pathLen else 0];
    outcome, reply, response := Respond(site, request, buf, inflaters, sink);
    PathMatters(site, request, if request.Get? then path else [], PathOf(http(frame)));
    e := Exchange(frame, request, reply, response);
    if outcome != Sent {
      return NotReplied, e;
    }
    var flushed := sink.Flush();
    turn := if flushed then Replied else NotFlushed;
  }

  /** `log` answers the first requests of `stream`, `left` is what follows them, and their replies are all that was sent. */
  ghost predicate OnTheWay(site: Site, http: bytes -> Parsed, stream: bytes, log: Log, left: bytes, before: bytes, after: bytes) {
    && Leads(stream, log, left, http) && AreAnswers(site, http, log)
    && FramesOf(log) <= ToAnswer(Split(stream, REQUEST_BUF_SIZE), http)
    && after == before + Concat(RepliesOf(log))
  }

  /** How a connection that brought `stream` was served. */
  ghost predicate Served(site: Site, http: bytes -> Parsed, stream: bytes, log: Log, ending: Ending, part: bytes, before: bytes, after: bytes) {
    var frames := ToAnswer(Split(stream, REQUEST_BUF_SIZE), http);
    && AreAnswers(site, http, log)
    && FramesOf(log) <= frames
    && (ending.PeerDone? || ending.NotKeptAlive? ==> FramesOf(log) == frames)
    && HasSent(log, ending, part, before, after)
    && (ending.AnswerFailed? ==>
          && FramesOf(log) + [ending.tried.frame] <= frames
          && IsTry(site, http, ending.tried) && IsHonest(site, http, ending.tried, part == ending.tried.reply))
  }

  lemma NothingYet(site: Site, http: bytes -> Parsed, stream: bytes, before: bytes)
    ensures OnTheWay(site, http, stream, [], stream, before, before)
  {
    hide NextFrame, Split, ToAnswer, IsAnswer;
    var frames := ToAnswer(Split(stream, REQUEST_BUF_SIZE), http);
    assert [] + frames == frames && [] + stream == stream && before + [] == before;
    assert FramesOf([]) == [] && RepliesOf([]) == [];
  }

  /** A connection may end between two requests, and must when no whole request is left. */
  lemma EndsBetween(site: Site, http: bytes -> Parsed, stream: bytes, log: Log, left: bytes, before: bytes, after: bytes)
    requires OnTheWay(site, http, stream, log, left, before, after)
    ensures Served(site, http, stream, log, ConnectionFailed, [], before, after)
    ensures NextFrame(left, REQUEST_BUF_SIZE) == PeerClosed ==> Served(site, http, stream, log, PeerDone, [], before, after)
  {
    hide NextFrame, ToAnswer, FramesOf, RepliesOf, AreAnswers;
    AllWasSent(log, ConnectionFailed, before, after);
    AllWasSent(log, PeerDone, before, after);
    if NextFrame(left, REQUEST_BUF_SIZE) == PeerClosed {
      NothingLeft(stream, log, left, http);
    }
  }

  /** What one more answer, whole or failed, makes of a connection on its way. */
  lemma OneMoreAnswer(site: Site, http: bytes -> Parsed, stream: bytes, log: Log, left: bytes, turn: Turn, e: Exchange, rest: bytes, before: bytes, between: bytes, after: bytes)
    returns (part: bytes)
    requires OnTheWay(site, http, stream, log, left, before, between)
    requires e.frame + rest == left && NextFrame(left, REQUEST_BUF_SIZE) == Framed(|e.frame|)
    requires Came(site, http, turn, e, between, after)
    ensures Served(site, http, stream, log, AnswerFailed(e), part, before, after)
    ensures turn != NotReplied ==>
              && Served(site, http, stream, log + [e], ConnectionFailed, [], before, after)
              && if RequestIn(e.frame, http).KeepAlive() then OnTheWay(site, http, stream, log + [e], rest, before, after)
                 else Served(site, http, stream, log + [e], NotKeptAlive, [], before, after)
  {
    hide NextFrame, Replies.Delimits, IsAnswer, IsTry, DueOf, ToAnswer, Split, FramesOf, RepliesOf, RequestIn, Leads;
    NextToAnswer(stream, log, left, e, rest, http);
    OneMoreExchange(log, e);
    part := PartWasSent(log, e, before, after);
    if turn != NotReplied {
      AllWasSent(log + [e], ConnectionFailed, before, after);
      AllWasSent(log + [e], NotKeptAlive, before, after);
    }
  }

  /** What a connection that was cut short was cut short by. */
  ghost predicate HasCause(site: Site, http: bytes -> Parsed, ending: Ending, socketFailed: bool, sinkFailed: bool, archiveFailed: bool) {
    && (ending.ConnectionFailed? ==> socketFailed || sinkFailed)
    && (ending.AnswerFailed? ==> MayFail(site, http, ending.tried.frame, sinkFailed, archiveFailed))
  }

  lemma FailsStill(site: Site, http: bytes -> Parsed, frame: bytes)
    ensures forall a: bool, b: bool, c: bool, d: bool :: (a ==> c) && (b ==> d) && MayFail(site, http, frame, a, b) ==> MayFail(site, http, frame, c, d)
  {
  }

  /** The loop of `Serve`, over a reader and a buffer of its own. */
  method ServeRequests(site: Site, reader: RequestReader, buf: array<byte>, inflaters: InflaterPool, socket: Io.Socket, sink: Io.Sink)
    returns (ghost log: Log, ghost ending: Ending, ghost part: bytes)
    requires site.IsSound() && TreeRecords(site) && sink.Valid() && Apart(site, reader, buf, inflaters)
    modifies reader, reader.buf, socket, sink, buf, inflaters, inflaters.Owned(), site.archive`failures
    ensures sink.Valid() && Apart(site, reader, buf, inflaters)
    ensures inflaters.lent == old(inflaters.lent) && fresh(inflaters.Owned() - old(inflaters.Owned()))
    ensures Served(site, reader.http, old(reader.Pending() + socket.unread), log, ending, part, old(sink.sent), sink.sent)
    ensures socket.failures >= old(socket.failures) && sink.failures >= old(sink.failures) && site.archive.failures >= old(site.archive.failures)
    ensures HasCause(site, reader.http, ending, socket.failures > old(socket.failures), sink.failures > old(sink.failures), site.archive.failures > old(site.archive.failures))
  {
    hide NextFrame, InflaterPool.Valid, InflaterPool.Owned, TreeRecords, Site.IsSound, Came, MayFail, Served, OnTheWay, RequestIn;
    ghost var stream, first, http := reader.Pending() + socket.unread, sink.sent, reader.http;
    log, ending, part := [], ConnectionFailed, [];
    ghost var owned := inflaters.Owned();
    NothingYet(site, http, stream, first);
    while true
      invariant sink.Valid() && Apart(site, reader, buf, inflaters)
      invariant inflaters.lent == old(inflaters.lent) && fresh(inflaters.Owned() - owned)
      invariant OnTheWay(site, http, stream, log, reader.Pending() + socket.unread, first, sink.sent)
      invariant socket.failures >= old(socket.failures) && sink.failures >= old(sink.failures) && site.archive.failures >= old(site.archive.failures)
      decreases |reader.Pending() + socket.unread|
    {
      ghost var left, ownedBefore, between := reader.Pending() + socket.unread, inflaters.Owned(), sink.sent;
      EndsBetween(site, http, stream, log, left, first, between);
      var turn, keepAlive;
      ghost var e;
      label Turned:
      turn, keepAlive, e := AnswerNext(site, reader, buf, inflaters, socket, sink);
      assert fresh@Turned(inflaters.Owned() - ownedBefore);
      forall o | o in inflaters.Owned() && o !in ownedBefore
        ensures fresh(o)
      {
        assert fresh@Turned(o);
      }
      assert inflaters.Owned() - owned <= (inflaters.Owned() - ownedBefore) + (ownedBefore - owned);
      part := [];
      if turn == NoneCame {
        ending := PeerDone;
        return;
      }
      if turn == BadRead {
        ending := ConnectionFailed;
        return;
      }
      part := OneMoreAnswer(site, http, stream, log, left, turn, e, reader.Pending() + socket.unread, first, between, sink.sent);
      if turn == NotReplied {
        ending := AnswerFailed(e);
        FailsStill(site, http, e.frame);
        return;
      }
      log, part := log + [e], [];
      if turn == NotFlushed {
        ending := ConnectionFailed;
        return;
      }
      if !keepAlive {
        ending := NotKeptAlive;
        return;
      }
    }
  }

  /**
   Serves one connection. The requests answered are, in order, those of the pure splitter
   up to the first that does not keep the connection; each has one right answer, and a
   client that reads what was sent receives exactly these. Nothing cuts this short but a
   failed read, write or flush, or a request that cannot be answered. `part` is what left of
   an answer that failed: a client takes it for an answer only when none of it is missing.
   */
  method Serve(site: Site, http: bytes -> Parsed, socket: Io.Socket, sink: Io.Sink, pool: BufPool, inflaters: InflaterPool)
    returns (ghost log: Log, ghost ending: Ending, ghost part: bytes)
    requires Prepared(site, pool, inflaters) && sink.Valid()
    modifies socket, sink, pool, pool.Arrays(), inflaters, inflaters.Owned(), site.archive`failures
    ensures Prepared(site, pool, inflaters) && sink.Valid()
    ensures pool.lent == old(pool.lent) && inflaters.lent == old(inflaters.lent)
    ensures pool.peak == Max(old(pool.peak), |old(pool.lent)| + 1)
    ensures Served(site, http, old(socket.unread), log, ending, part, old(sink.sent), sink.sent)
    ensures socket.failures >= old(socket.failures) && sink.failures >= old(sink.failures) && site.archive.failures >= old(site.archive.failures)
    ensures HasCause(site, http, ending, socket.failures > old(socket.failures), sink.failures > old(sink.failures), site.archive.failures > old(site.archive.failures))
    ensures ReceiveAll(Concat(RepliesOf(log)) + part) ==
            ResponsesOf(log) + if ending.AnswerFailed? && part == ending.tried.reply then [ending.tried.response] else []
    // With no fault meanwhile and nothing asked that cannot be answered, all of it is answered and received.
    ensures var frames := ToAnswer(Split(old(socket.unread), REQUEST_BUF_SIZE), http);
            socket.failures == old(socket.failures) && sink.failures == old(sink.failures) && site.archive.failures == old(site.archive.failures)
            && AllCanBeAnswered(site, http, frames) ==>
              FramesOf(log) == frames && sink.sent == old(sink.sent) + Concat(RepliesOf(log)) && ReceiveAll(Concat(RepliesOf(log))) == ResponsesOf(log)
  {
    hide Served, HasCause, AllCanBeAnswered, ReceiveAll, FramesOf, RepliesOf, ResponsesOf, ToAnswer, Split, TreeRecords, Site.IsSound;
    hide InflaterPool.Valid, BufPool.Valid;
    var reader, buf := Begin(site, http, pool, inflaters);
    ghost var first, stream := sink.sent, socket.unread;
    assert reader.Pending() + socket.unread == socket.unread;
    log, ending, part := ServeRequests(site, reader, buf, inflaters, socket, sink);
    assert forall i :: 0 <= i < |pool.idle| ==> pool.idle[i] !in inflaters.Owned();
    End(site, buf, pool, inflaters);
    assert pool.lent == old(pool.lent);
    ClientReceivesSent(site, http, stream, log, ending, part, first, sink.sent);
    FaultlessServesAll(site, http, stream, log, ending, part, first, sink.sent,
                       socket.failures > old(socket.failures), sink.failures > old(sink.failures), site.archive.failures > old(site.archive.failures));
  }

  ghost predicate AllCanBeAnswered(site: Site, http: bytes -> Parsed, frames: seq<bytes>) {
    forall i :: 0 <= i < |frames| ==> site.CanAnswer(DueOf(site, http, frames[i]), CONNECTION_BUF_SIZE)
  }

  /** A connection without faults, asked for nothing that cannot be answered, is served to its end. */
  lemma FaultlessServesAll(site: Site, http: bytes -> Parsed, stream: bytes, log: Log, ending: Ending, part: bytes, before: bytes, after: bytes,
                           socketFailed: bool, sinkFailed: bool, archiveFailed: bool)
    requires Served(site, http, stream, log, ending, part, before, after)
    requires HasCause(site, http, ending, socketFailed, sinkFailed, archiveFailed)
    ensures var frames := ToAnswer(Split(stream, REQUEST_BUF_SIZE), http);
            !socketFailed && !sinkFailed && !archiveFailed && AllCanBeAnswered(site, http, frames) ==>
              FramesOf(log) == frames && part == [] && !ending.AnswerFailed?
              && after == before + Concat(RepliesOf(log)) && Concat(RepliesOf(log)) + part == Concat(RepliesOf(log))
  {
    hide AreAnswers, IsTry, IsHonest, DueOf, FramesOf, RepliesOf, ToAnswer, Split;
    var frames := ToAnswer(Split(stream, REQUEST_BUF_SIZE), http);
    if ending.AnswerFailed? {
      var k := |FramesOf(log)|;
      assert frames[k] == (FramesOf(log) + [ending.tried.frame])[k];
    }
  }

  /** The buffer of a connection that has ended. */
  method End(ghost site: Site, buf: array<byte>, pool: BufPool, ghost inflaters: InflaterPool)
    requires Prepared(site, pool, inflaters) && buf in pool.lent && buf !in inflaters.Owned()
    modifies pool
    ensures Prepared(site, pool, inflaters)
    ensures pool.lent == old(pool.lent) - {buf} && pool.peak == old(pool.peak)
  {
    hide BufPool.Valid, InflaterPool.Valid, TreeRecords, Site.IsSound;
    ghost var idle, owned := pool.idle, inflaters.Owned();
    pool.Return(buf);
    assert inflaters.Owned() == owned && pool.idle == idle + [buf];
    forall i | 0 <= i < |pool.idle|
      ensures pool.idle[i] !in owned
    {
      assert pool.idle[i] == if i < |idle| then idle[i] else buf;
    }
  }

  /** A reader and a buffer for one connection. */
  method Begin(site: Site, http: bytes -> Parsed, pool: BufPool, inflaters: InflaterPool) returns (reader: RequestReader, buf: array<byte>)
    requires Prepared(site, pool, inflaters)
    modifies pool
    ensures Prepared(site, pool, inflaters) && Apart(site, reader, buf, inflaters)
    ensures fresh(reader) && fresh(reader.buf) && reader.http == http && reader.Pending() == []
    ensures pool.peak == Max(old(pool.peak), |old(pool.lent)| + 1)
    ensures buf !in pool.Arrays() && buf !in old(pool.lent) && pool.lent == old(pool.lent) + {buf}
    ensures (buf in old(pool.Arrays()) || fresh(buf)) && pool.Arrays() <= old(pool.Arrays())
  {
    reader := new RequestReader(REQUEST_BUF_SIZE, http);
    buf := pool.Take();
  }

  lemma AllWasSent(log: Log, ending: Ending, before: bytes, after: bytes)
    requires after == before + Concat(RepliesOf(log)) && !ending.AnswerFailed?
    ensures HasSent(log, ending, [], before, after)
  {
  }

  /** What was sent of `e` stands behind the answers in the log. */
  lemma PartWasSent(log: Log, e: Exchange, before: bytes, after: bytes) returns (part: bytes)
    requires before + Concat(RepliesOf(log)) <= after <= before + Concat(RepliesOf(log)) + e.reply
    ensures HasSent(log, AnswerFailed(e), part, before, after)
    ensures part == e.reply <==> after == before + Concat(RepliesOf(log)) + e.reply
  {
    part := after[|before + Concat(RepliesOf(log))|..];
  }
}
