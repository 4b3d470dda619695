/** Requests: cutting them out of a connection's bytes and reading what they ask for. */
module Requests {
  import opened Bytes
  import opened Numerals
  import opened Framing
  import opened Negotiation
  import Percent
  import Io

  datatype Status = NotFound | BadRequest | UriTooLong | HeaderTooLong | MethodNotAllowed | UnsupportedCompression

  datatype Header = Header(name: bytes, value: bytes)

  datatype Headers = Headers(ifNoneMatch: Option<nat>, accepted: AcceptedEncodings, close: bool)

  datatype Request =
    | Get(pathLen: nat, headers: Headers)
    | Bad(status: Status)
  {
    predicate KeepAlive() {
      Get? && !headers.close
    }
  }

  /** What the HTTP parser makes of the bytes of one frame. */
  datatype Parsed =
    | TooManyHeaders
    | Malformed
    | Partial(pathSeen: bool)
    | Complete(httpMethod: Option<bytes>, path: Option<bytes>, headers: seq<Header>)

  // ---------- Header fields ----------

  predicate IsEncodingLine(h: Header) {
    !(EqIgnoreCase(h.name, Ascii("if-none-match")) && |h.value| == 10) && EqIgnoreCase(h.name, Ascii("accept-encoding"))
  }

  /** The CRC an entity tag of eight hex digits between two quote marks stands for. */
  function TagOf(h: Header): Option<nat> {
    if EqIgnoreCase(h.name, Ascii("if-none-match")) && |h.value| == 10 then HexValue(h.value[1..9]) else None
  }

  predicate IsClose(h: Header) {
    && !EqIgnoreCase(h.name, Ascii("if-none-match"))
    && !EqIgnoreCase(h.name, Ascii("accept-encoding"))
    && EqIgnoreCase(h.name, Ascii("connection"))
    && EqIgnoreCase(h.value, Ascii("close"))
  }

  function LastTag(hs: seq<Header>): Option<nat> {
    if hs == [] then None
    else match TagOf(hs[|hs| - 1])
      case Some(crc) => Some(crc)
      case None => LastTag(hs[..|hs| - 1])
  }

  function EncodingLines(hs: seq<Header>): seq<bytes> {
    if hs == [] then []
    else
      var h := hs[|hs| - 1];
      EncodingLines(hs[..|hs| - 1]) + if IsEncodingLine(h) then [h.value] else []
  }

  function HeadersOf(hs: seq<Header>): Headers {
    Headers(LastTag(hs), Accepted(ReadLines(UNDECIDED, EncodingLines(hs))), exists i :: 0 <= i < |hs| && IsClose(hs[i]))
  }

  /** The last field with a tag decides. */
  lemma {:induction false} LastTagDecides(before: seq<Header>, h: Header, after: seq<Header>)
    requires TagOf(h).Some? && forall x :: x in after ==> TagOf(x).None?
    ensures HeadersOf(before + [h] + after).ifNoneMatch == TagOf(h)
  {
    hide TagOf;
    var hs, n := before + [h] + after, |after| - 1;
    if after == [] {
      assert hs[|hs| - 1] == h;
    } else {
      assert hs[|hs| - 1] == after[n] && hs[..|hs| - 1] == before + [h] + after[..n];
      LastTagDecides(before, h, after[..n]);
    }
  }

  lemma {:induction false} NoTagIsNone(hs: seq<Header>)
    requires forall x :: x in hs ==> TagOf(x).None?
    ensures HeadersOf(hs).ifNoneMatch.None?
  {
    hide TagOf;
    if hs != [] {
      NoTagIsNone(hs[..|hs| - 1]);
    }
  }

  /** The entity tag an entry is served under brings its CRC back. */
  lemma TagRoundTrip(crc: nat)
    requires crc < 0x1_0000_0000
    ensures TagOf(Header(Ascii("If-None-Match"), [34] + Hex(crc, 8) + [34])) == Some(crc)
  {
    var h := Header(Ascii("If-None-Match"), [34] + Hex(crc, 8) + [34]);
    assert h.value[1..9] == Hex(crc, 8);
    PowerOfEight();
    HexRoundTrip(crc, 8);
    assert Lower(Ascii("If-None-Match")) == Lower(Ascii("if-none-match"));
  }

  /** A CRC that a tag stands for has 32 bits. */
  lemma TagFits(h: Header)
    ensures TagOf(h).Some? ==> TagOf(h).value < 0x1_0000_0000
  {
    if |h.value| == 10 {
      HexValueBounded(h.value[1..9]);
    }
    PowerOfEight();
  }

  lemma PowerOfEight()
    ensures Pow(16, 8) == 0x1_0000_0000
  {
    assert Pow(16, 4) == 0x1_0000;
    assert Pow(16, 6) == 0x100_0000;
  }

  class EncodingVerdicts {
    var gzip: Option<bool>
    var zstd: Option<bool>
    var wildcard: Option<bool>

    constructor ()
      ensures State() == UNDECIDED
    {
      gzip, zstd, wildcard := None, None, None;
    }

    function State(): Verdicts
      reads this
    {
      Verdicts(gzip, zstd, wildcard)
    }

    /** Takes in one line, element by element, on top of the lines before it. */
    method Read(value: bytes)
      modifies this
      ensures State() == ReadElements(old(State()), SplitAt(value, 44))
    {
      hide IsZeroQvalue, EqIgnoreCase, Trim, SplitAt;
      var elements := SplitAt(value, 44);
      for i := 0 to |elements|
        invariant State() == ReadElements(old(State()), elements[..i])
      {
        assert elements[..i + 1][..i] == elements[..i];
        var parts := SplitAt(elements[i], 59);
        var coding := Trim(parts[0]);
        var refused := false;
        var j := 1;
        while j < |parts| && !refused
          invariant 1 <= j <= |parts|
          invariant refused <==> exists k :: 1 <= k < j && IsZeroQvalue(parts[k])
        {
          refused := IsZeroQvalue(parts[j]);
          j := j + 1;
        }
        assert refused <==> exists k :: 1 <= k < |parts| && IsZeroQvalue(parts[k]);
        if EqIgnoreCase(coding, Ascii("gzip")) || EqIgnoreCase(coding, Ascii("x-gzip")) {
          gzip := Some(!refused);
        } else if EqIgnoreCase(coding, Ascii("zstd")) {
          zstd := Some(!refused);
        } else if coding == [42] {
          wildcard := Some(!refused);
        }
      }
      assert elements[..|elements|] == elements;
    }
  }

  /** What one more header adds. */
  lemma OneMoreHeader(hs: seq<Header>, i: nat)
    requires i < |hs|
    ensures LastTag(hs[..i + 1]) == if TagOf(hs[i]).Some? then TagOf(hs[i]) else LastTag(hs[..i])
    ensures ReadLines(UNDECIDED, EncodingLines(hs[..i + 1])) ==
            var before := ReadLines(UNDECIDED, EncodingLines(hs[..i]));
            if IsEncodingLine(hs[i]) then ReadElements(before, SplitAt(hs[i].value, 44)) else before
  {
    assert hs[..i + 1][..i] == hs[..i];
    var lines := EncodingLines(hs[..i]);
    if IsEncodingLine(hs[i]) {
      assert EncodingLines(hs[..i + 1]) == lines + [hs[i].value];
      assert (lines + [hs[i].value])[..|lines|] == lines;
    } else {
      assert EncodingLines(hs[..i + 1]) == lines;
    }
  }

  lemma OneNameOnly(name: bytes)
    ensures EqIgnoreCase(name, Ascii("connection")) ==>
              !EqIgnoreCase(name, Ascii("if-none-match")) && !EqIgnoreCase(name, Ascii("accept-encoding"))
  {
  }

  lemma StartOfHeaders()
    ensures LastTag([]) == None && ReadLines(UNDECIDED, EncodingLines([])) == UNDECIDED
  {
  }

  method ExtractHeaders(parsed: seq<Header>) returns (headers: Headers)
    ensures headers == HeadersOf(parsed)
  {
    hide LastTag, EncodingLines, ReadLines, HexValue, SplitAt, EqIgnoreCase, Ascii, Decide;
    StartOfHeaders();
    var ifNoneMatch: Option<nat> := None;
    var close := false;
    var verdicts := new EncodingVerdicts();
    for i := 0 to |parsed|
      invariant ifNoneMatch == LastTag(parsed[..i])
      invariant verdicts.State() == ReadLines(UNDECIDED, EncodingLines(parsed[..i]))
      invariant close <==> exists k :: 0 <= k < i && IsClose(parsed[k])
    {
      var h := parsed[i];
      OneMoreHeader(parsed, i);
      OneNameOnly(h.name);
      if EqIgnoreCase(h.name, Ascii("if-none-match")) && |h.value| == 10 {
        var crc := HexValue(h.value[1..9]);
        if crc.Some? {
          ifNoneMatch := crc;
        }
      } else if EqIgnoreCase(h.name, Ascii("accept-encoding")) {
        verdicts.Read(h.value);
      } else if EqIgnoreCase(h.name, Ascii("connection")) && EqIgnoreCase(h.value, Ascii("close")) {
        close := true;
      }
    }
    assert parsed[..|parsed|] == parsed;
    headers := Headers(ifNoneMatch, Accepted(verdicts.State()), close);
  }

  /** Percent-decodes `raw` into the front of `buf`; None if it does not fit. */
  method DecodePath(raw: bytes, buf: array<byte>) returns (pathLen: Option<nat>)
    modifies buf
    ensures pathLen.Some? <==> |Percent.Decode(raw)| <= buf.Length
    ensures pathLen.Some? ==> pathLen.value == |Percent.Decode(raw)| && buf[..pathLen.value] == Percent.Decode(raw)
  {
    hide Percent.Decode, Percent.Next;
    var len, rest := 0, raw;
    while rest != []
      invariant len <= buf.Length
      invariant buf[..len] + Percent.Decode(rest) == Percent.Decode(raw)
      decreases |rest|
    {
      var (b, n) := Percent.Next(rest);
      ghost var decoded, more := buf[..len], Percent.Decode(rest[n..]);
      DecodeStep(rest, decoded);
      if len == buf.Length {
        return None;
      }
      buf[len] := b;
      len := len + 1;
      assert buf[..len] == decoded + [b];
      rest := rest[n..];
    }
    NothingDecodes();
    return Some(len);
  }

  lemma DecodeStep(raw: bytes, decoded: bytes)
    requires raw != []
    ensures var (b, n) := Percent.Next(raw);
            && Percent.Decode(raw) != []
            && decoded + Percent.Decode(raw) == decoded + [b] + Percent.Decode(raw[n..])
  {
  }

  lemma NothingDecodes()
    ensures Percent.Decode([]) == []
  {
  }

  // ---------- One frame, read ----------

  /** What the bytes of one frame ask for, when `room` bytes are there for the path. */
  function RequestOf(parsed: Parsed, room: nat): Request {
    match parsed
    case TooManyHeaders => Bad(HeaderTooLong)
    case Malformed => Bad(BadRequest)
    case Partial(pathSeen) => Bad(if pathSeen then BadRequest else UriTooLong)
    case Complete(_, None, _) => Bad(BadRequest)
    case Complete(httpMethod, Some(path), headers) =>
      if httpMethod != Some(Ascii("GET")) then Bad(MethodNotAllowed)
      else if |Percent.Decode(path)| > room then Bad(UriTooLong)
      else Get(|Percent.Decode(path)|, HeadersOf(headers))
  }

  function PathOf(parsed: Parsed): bytes {
    if parsed.Complete? && parsed.path.Some? then Percent.Decode(parsed.path.value) else []
  }

  /** A field of this name, in any case, with this value, in any case. */
  predicate Says(h: Header, name: string, value: string) {
    EqIgnoreCase(h.name, Ascii(name)) && EqIgnoreCase(h.value, Ascii(value))
  }

  /** A whole request for a path that `room` bytes hold. */
  predicate IsWholeGet(parsed: Parsed, room: nat) {
    && parsed.Complete? && parsed.httpMethod == Some(Ascii("GET"))
    && parsed.path.Some? && |Percent.Decode(parsed.path.value)| <= room
  }

  /** Such a request that does not say `Connection: close`. */
  ghost predicate AsksToStay(parsed: Parsed, room: nat) {
    IsWholeGet(parsed, room) && forall h :: h in parsed.headers ==> !Says(h, "connection", "close")
  }

  /** Only a whole GET without `Connection: close` keeps the connection. */
  lemma StaysExactlyWhen(parsed: Parsed, room: nat)
    ensures RequestOf(parsed, room).KeepAlive() <==> AsksToStay(parsed, room)
  {
    hide EqIgnoreCase;
    if IsWholeGet(parsed, room) {
      var hs := parsed.headers;
      forall h | h in hs
        ensures IsClose(h) <==> Says(h, "connection", "close")
      {
        OneNameOnly(h.name);
      }
      if i :| 0 <= i < |hs| && IsClose(hs[i]) {
        assert hs[i] in hs;
      }
    }
  }

  /** Which requests are refused, with which status, and that all others are for the decoded path. */
  lemma RequestsByCase(parsed: Parsed, room: nat)
    ensures IsWholeGet(parsed, room) <==> RequestOf(parsed, room).Get?
    ensures IsWholeGet(parsed, room) ==> RequestOf(parsed, room).pathLen == |PathOf(parsed)| && PathOf(parsed) == Percent.Decode(parsed.path.value)
    ensures RequestOf(parsed, room) == Bad(HeaderTooLong) <==> parsed.TooManyHeaders?
    ensures RequestOf(parsed, room) == Bad(MethodNotAllowed) <==> parsed.Complete? && parsed.path.Some? && parsed.httpMethod != Some(Ascii("GET"))
    ensures RequestOf(parsed, room) == Bad(UriTooLong) <==>
            || parsed == Partial(false)
            || (parsed.Complete? && parsed.path.Some? && parsed.httpMethod == Some(Ascii("GET")) && |Percent.Decode(parsed.path.value)| > room)
    ensures RequestOf(parsed, room) == Bad(BadRequest) <==> parsed.Malformed? || parsed == Partial(true) || (parsed.Complete? && parsed.path.None?)
  {
    hide HeadersOf, Percent.Decode;
  }

  datatype Arrival =
    | Arrived(request: Request)
    | Closed
    | ReadFailed

  /** How waiting for a whole request ends. */
  datatype Found = EndsAt(end: nat) | NeverEnds | Lost

  datatype Fill = FilledMore | FillClosed | Full | FillFailed

  /** Positions `from..to` in order. */
  function Range(from: nat, to: nat): (r: seq<nat>)
    requires from <= to
    ensures |r| == to - from
  {
    seq(to - from, i requires 0 <= i < to - from => from + i)
  }

  lemma RangeJoins(from: nat, mid: nat, to: nat)
    requires from <= mid <= to
    ensures Range(from, mid) + Range(mid, to) == Range(from, to)
  {
  }

  class RequestReader {
    const buf: array<byte>
    var filled: nat
    var consumed: nat
    /** The HTTP parser, a function of the frame's bytes. */
    const http: bytes -> Parsed

    constructor (capacity: nat, http: bytes -> Parsed)
      ensures Valid() && fresh(buf) && buf.Length == capacity && this.http == http
      ensures Pending() == []
    {
      buf := new byte[capacity];
      filled, consumed := 0, 0;
      this.http := http;
    }

    ghost predicate Valid()
      reads this
    {
      consumed <= filled <= buf.Length
    }

    /** What has arrived and was not yet answered. */
    ghost function Pending(): bytes
      requires Valid()
      reads this, buf
    {
      buf[consumed..filled]
    }

    /** At most one read, behind what is held; a full buffer is compacted first, if that helps. */
    method Fill(socket: Io.Socket) returns (outcome: Fill)
      requires Valid()
      modifies this, buf, socket
      ensures Valid()
      ensures Pending() + socket.unread == old(Pending() + socket.unread)
      ensures consumed <= old(consumed)
      ensures outcome == FilledMore ==> |Pending()| > old(|Pending()|)
      ensures outcome != FilledMore ==> Pending() == old(Pending())
      ensures socket.failures == old(socket.failures) + if outcome == FillFailed then 1 else 0
      ensures outcome == FillClosed ==> socket.unread == [] && |Pending()| < buf.Length
      ensures outcome == Full ==> |Pending()| == buf.Length
    {
      var capacity := buf.Length;
      if filled == capacity {
        if consumed == 0 {
          return Full;
        }
        Compact();
      }
      outcome := ReadMore(socket);
    }

    /** Reads into the room behind what is held. */
    method ReadMore(socket: Io.Socket) returns (outcome: Fill)
      requires Valid() && filled < buf.Length
      modifies this`filled, buf, socket
      ensures Valid()
      ensures Pending() + socket.unread == old(Pending() + socket.unread)
      ensures outcome == FilledMore ==> filled > old(filled)
      ensures outcome != FilledMore ==> Pending() == old(Pending())
      ensures outcome == FillClosed ==> socket.unread == [] && |Pending()| < buf.Length
      ensures socket.failures == old(socket.failures) + if outcome == FillFailed then 1 else 0
      ensures outcome != Full
    {
      ghost var held, unread := buf[..filled], socket.unread;
      assert Pending() == held[consumed..];
      var res := socket.Read(buf, filled);
      assert Pending() == held[consumed..];
      match res
      case None => return FillFailed;
      case Some(n) =>
        if n == 0 {
          assert buf[filled..filled] == [];
          return FillClosed;
        }
        MoreHeld(buf[..], consumed, filled, n);
        assert buf[..][..filled] == held;
        assert held[consumed..] + unread == held[consumed..] + buf[filled..filled + n] + socket.unread;
        filled := filled + n;
        return FilledMore;
    }

    lemma MoreHeld(s: bytes, from: nat, to: nat, n: nat)
      requires from <= to && to + n <= |s|
      ensures s[from..to + n] == s[..to][from..] + s[to..to + n]
    {
    }

    /** Moves what is held to the front. */
    method Compact()
      requires Valid()
      modifies this`filled, this`consumed, buf
      ensures Valid() && consumed == 0 && filled == old(filled) - old(consumed)
      ensures Pending() == old(Pending())
    {
      forall i | 0 <= i < filled - consumed {
        buf[i] := buf[consumed + i];
      }
      filled := filled - consumed;
      consumed := 0;
    }

    /** Parses one request out of `buf[consumed..end]`, advancing past it. */
    method Parse(end: nat, responseBuf: array<byte>) returns (request: Request)
      requires Valid() && consumed <= end <= filled
      requires responseBuf != buf
      modifies this`consumed, responseBuf
      ensures Valid() && consumed == end && filled == old(filled)
      ensures Pending() == old(Pending())[end - old(consumed)..]
      ensures request == RequestOf(http(old(Pending())[..end - old(consumed)]), responseBuf.Length)
      ensures request.Get? ==> request.pathLen <= responseBuf.Length
      ensures request.Get? ==> responseBuf[..request.pathLen] == PathOf(http(old(Pending())[..end - old(consumed)]))
    {
      assert buf[consumed..end] == Pending()[..end - consumed];
      assert buf[end..filled] == Pending()[end - consumed..];
      var parsed := http(buf[consumed..end]);
      consumed := end;
      match parsed
      case TooManyHeaders => return Bad(HeaderTooLong);
      case Malformed => return Bad(BadRequest);
      case Partial(pathSeen) => return Bad(if pathSeen then BadRequest else UriTooLong);
      case Complete(httpMethod, path, fields) =>
        if path.None? {
          return Bad(BadRequest);
        }
        if httpMethod != Some(Ascii("GET")) {
          return Bad(MethodNotAllowed);
        }
        var headers := ExtractHeaders(fields);
        var pathLen := DecodePath(path.value, responseBuf);
        if pathLen.None? {
          return Bad(UriTooLong);
        }
        return Get(pathLen.value, headers);
    }

    /**
     The loop of `NextRequest`: reads until a whole request is held and tells where it ends.
     `windows` are the window starts the search for the terminator looked at, counted from
     the request's first byte, in order.
     */
    method AwaitRequest(socket: Io.Socket) returns (found: Found, ghost windows: seq<nat>)
      requires Valid()
      modifies this, buf, socket
      ensures Valid()
      ensures Pending() + socket.unread == old(Pending() + socket.unread)
      ensures windows == Range(0, |windows|)
      ensures found.EndsAt? ==>
                && consumed <= found.end <= filled
                && NextFrame(old(Pending() + socket.unread), buf.Length) == Framed(found.end - consumed)
                && |windows| == Max(found.end - consumed - 3, 0)
      ensures found == NeverEnds ==>
                && NextFrame(old(Pending() + socket.unread), buf.Length) == PeerClosed
                && socket.unread == []
                && |windows| == Max(|Pending()| - 3, 0)
      ensures socket.failures == old(socket.failures) + if found == Lost then 1 else 0
    {
      hide FindHeadersEnd, NextFrame, TerminatorAt, WindowsExamined;
      ghost var stream := Pending() + socket.unread;
      windows := [];
      var scanned := consumed;
      while true
        invariant Valid() && consumed <= scanned <= filled
        invariant Pending() + socket.unread == stream && socket.failures == old(socket.failures)
        invariant NoTerminatorBefore(stream, scanned - consumed)
        invariant windows == Range(0, scanned - consumed)
        invariant scanned == consumed || filled - scanned >= 3
        decreases buf.Length - (filled - consumed)
      {
        ghost var pending, before := Pending(), scanned - consumed;
        assert buf[scanned..filled] == pending[before..];
        SearchStep(stream, pending, before, buf.Length);
        var end := FindHeadersEnd(buf[scanned..filled]);
        windows := windows + Range(before, before + WindowsExamined(pending[before..]));
        if end.Some? {
          return EndsAt(scanned + end.value), windows;
        }
        // The last three bytes may begin a terminator that a later read completes.
        scanned := Max(Max(filled - 3, 0), consumed);
        assert scanned - consumed == Max(|pending| - 3, 0);
        var consumedBefore := consumed;
        var outcome := Fill(socket);
        match outcome {
          case FilledMore =>
          case FillClosed =>
            assert stream == pending;
            return NeverEnds, windows;
          case Full =>
            assert |Pending()| == filled - consumed == |pending|;
            return EndsAt(filled), windows;
          case FillFailed =>
            return Lost, windows;
        }
        // The same bytes may now stand nearer to the front.
        scanned := scanned - (consumedBefore - consumed);
      }
    }

    /**
     The request that comes next on the connection; no read happens if it is already held whole.
     `frame` is what the parser was given.
     */
    method NextRequest(socket: Io.Socket, responseBuf: array<byte>)
      returns (arrival: Arrival, ghost frame: bytes, ghost windows: seq<nat>)
      requires Valid() && responseBuf != buf
      modifies this, buf, socket, responseBuf
      ensures Valid()
      ensures frame + (Pending() + socket.unread) == old(Pending() + socket.unread)
      ensures arrival.Arrived? ==> NextFrame(old(Pending() + socket.unread), buf.Length) == Framed(|frame|)
      ensures arrival.Arrived? ==> arrival.request == RequestOf(http(frame), responseBuf.Length)
      ensures arrival.Arrived? && arrival.request.Get? ==>
                arrival.request.pathLen <= responseBuf.Length && responseBuf[..arrival.request.pathLen] == PathOf(http(frame))
      ensures !arrival.Arrived? ==> frame == []
      ensures arrival.Closed? ==> NextFrame(old(Pending() + socket.unread), buf.Length) == PeerClosed && socket.unread == []
      ensures socket.failures == old(socket.failures) + if arrival.ReadFailed? then 1 else 0
      ensures windows == Range(0, |windows|)
      ensures arrival.Arrived? ==> |windows| == Max(|frame| - 3, 0)
      ensures arrival.Closed? ==> |windows| == Max(|old(Pending() + socket.unread)| - 3, 0)
    {
      hide NextFrame, RequestOf, PathOf, Range;
      frame := [];
      var found;
      found, windows := AwaitRequest(socket);
      if found == NeverEnds {
        return Closed, frame, windows;
      }
      if found == Lost {
        return ReadFailed, frame, windows;
      }
      ghost var held, unread, n := Pending(), socket.unread, found.end - consumed;
      frame := held[..n];
      var request := Parse(found.end, responseBuf);
      assert held[..n] + (held[n..] + unread) == held + unread;
      label Parsed:
      assert Pending() == held[n..];
      if consumed == filled {
        // Without leftovers the whole buffer is free again.
        consumed, filled := 0, 0;
        assert Pending() == held[n..] == [];
      }
      assert responseBuf[..] == old@Parsed(responseBuf[..]);
      assert request.Get? ==> responseBuf[..request.pathLen] == responseBuf[..][..request.pathLen];
      arrival := Arrived(request);
    }
  }

  /** One search, resumed `before` bytes into what is held: its result, and the windows it looked at. */
  lemma SearchStep(stream: bytes, pending: bytes, before: nat, capacity: nat)
    requires pending <= stream && before <= |pending| <= capacity
    requires NoTerminatorBefore(stream, before)
    requires before == 0 || |pending| - before >= 3
    ensures var looked := WindowsExamined(pending[before..]);
            Range(0, before) + Range(before, before + looked) == Range(0, before + looked)
    ensures match FindHeadersEnd(pending[before..])
            case Some(end) =>
              && NextFrame(stream, capacity) == Framed(before + end)
              && WindowsExamined(pending[before..]) == end - 3
            case None =>
              && NoTerminatorBefore(stream, |pending| - 3)
              && before + WindowsExamined(pending[before..]) == Max(|pending| - 3, 0)
              && (|pending| == capacity ==> NextFrame(stream, capacity) == Framed(capacity))
              && (|pending| < capacity && pending == stream ==> NextFrame(stream, capacity) == PeerClosed)
  {
    SearchResumes(stream, pending, before);
    HeldStream(stream, pending, capacity);
    RangeJoins(0, before, before + WindowsExamined(pending[before..]));
  }

  /** What a search from `before` on finds is what a search of everything held would. */
  lemma SearchResumes(stream: bytes, pending: bytes, before: nat)
    requires pending <= stream && before <= |pending|
    requires NoTerminatorBefore(stream, before)
    ensures FindHeadersEnd(pending[before..]).Some? ==>
              FindHeadersEnd(pending) == Some(before + FindHeadersEnd(pending[before..]).value)
    ensures FindHeadersEnd(pending[before..]).None? ==> FindHeadersEnd(pending).None? && NoTerminatorBefore(stream, |pending| - 3)
  {
    var tail := pending[before..];
    forall i | 0 <= i
      ensures TerminatorAt(pending, before + i) <==> TerminatorAt(tail, i)
    {
    }
    forall i
      ensures TerminatorAt(pending, i) <==> TerminatorAt(stream, i) && i + 4 <= |pending|
    {
    }
    match FindHeadersEnd(tail)
    case Some(end) =>
      forall i | 0 <= i < before + end - 4
        ensures !TerminatorAt(pending, i)
      {
        assert i < before || !TerminatorAt(tail, i - before);
      }
      HeadersEndIsUnique(pending, before + end);
    case None =>
      forall i | 0 <= i < |pending| - 3
        ensures !TerminatorAt(stream, i)
      {
        assert i < before || !TerminatorAt(tail, i - before);
      }
  }

  /** The next frame of the stream, in terms of the part of it that is held. */
  lemma HeldStream(stream: bytes, pending: bytes, capacity: nat)
    requires pending <= stream && |pending| <= capacity
    ensures FindHeadersEnd(pending).Some? ==> NextFrame(stream, capacity) == Framed(FindHeadersEnd(pending).value)
    ensures FindHeadersEnd(pending).None? && |pending| == capacity ==> NextFrame(stream, capacity) == Framed(capacity)
    ensures FindHeadersEnd(pending).None? && |pending| < capacity && pending == stream ==> NextFrame(stream, capacity) == PeerClosed
  {
    var held := stream[..Min(capacity, |stream|)];
    if FindHeadersEnd(pending).Some? {
      assert held == pending + held[|pending|..];
      HeadersEndInExtension(pending, held[|pending|..]);
    } else if |pending| == capacity || pending == stream {
      assert held == pending;
    }
  }
}
