/** Every response the server forms delimits itself: a client finds its end and its body. */
module Replies {
  import opened Bytes
  import opened Numerals
  import opened Chunking
  import opened Messages
  import Framing
  import Negotiation
  import Percent
  import Requests
  import Coding

  const CONTENT_LENGTH: bytes := Ascii("content-length")
  const TRANSFER_ENCODING: bytes := Ascii("transfer-encoding")
  const CHUNKED: bytes := Ascii("chunked")

  /** Nothing in `s` ends a line. */
  predicate LineFree(s: bytes) {
    forall i :: 0 <= i < |s| ==> s[i] != CR && s[i] != LF
  }

  lemma TextIsLineFree(text: string)
    requires '\r' !in text && '\n' !in text
    ensures LineFree(Ascii(text))
    ensures text != "" ==> LineSafe(Ascii(text))
  {
    forall i | 0 <= i < |text|
      ensures Ascii(text)[i] != CR && Ascii(text)[i] != LF
    {
      assert text[i] in text;
    }
  }

  lemma ContentLengthIsPlain()
    ensures PlainName("Content-Length")
  {
  }

  lemma TransferEncodingIsPlain()
    ensures PlainName("Transfer-Encoding")
  {
  }

  lemma ContentTypeIsPlain()
    ensures PlainName("Content-Type")
  {
  }

  lemma ContentEncodingIsPlain()
    ensures PlainName("Content-Encoding")
  {
  }

  lemma OtherNamesArePlain()
    ensures PlainName("ETag") && PlainName("Location")
  {
  }

  lemma CacheControlIsPlain()
    ensures PlainName("Cache-control")
  {
  }

  /** Names are told apart by their lengths alone. */
  lemma OtherField(name: string, value: bytes, wanted: bytes)
    requires PlainName(name) && |name| != |wanted|
    ensures ValueIn(Field(name, value), wanted) == None
  {
    assert |Lower(Ascii(name))| == |name| && |Lower(wanted)| == |wanted|;
    FieldReads(name, value, wanted);
  }

  lemma ContentLengthReads(n: nat)
    ensures ValueIn(Field("Content-Length", Decimal(n)), CONTENT_LENGTH) == Some(Decimal(n))
    ensures LineSafe(Field("Content-Length", Decimal(n)))
  {
    hide PlainName;
    ContentLengthIsPlain();
    var d := Decimal(n);
    assert Lower(Ascii("Content-Length")) == Lower(CONTENT_LENGTH);
    assert forall i :: 0 <= i < |d| ==> d[i] in d;
    FieldReads("Content-Length", d, CONTENT_LENGTH);
    FieldIsSafe("Content-Length", d);
  }

  lemma TransferEncodingReads()
    ensures ValueIn(Field("Transfer-Encoding", CHUNKED), TRANSFER_ENCODING) == Some(CHUNKED)
    ensures LineSafe(Field("Transfer-Encoding", CHUNKED))
  {
    TransferEncodingIsPlain();
    TextIsLineFree("chunked");
    assert CHUNKED != [] && !Negotiation.IsSpace(CHUNKED[0]) && !Negotiation.IsSpace(CHUNKED[|CHUNKED| - 1]);
    assert EqIgnoreCase(Ascii("Transfer-Encoding"), TRANSFER_ENCODING) by {
      assert Lower(Ascii("Transfer-Encoding")) == Lower(TRANSFER_ENCODING);
    }
    hide PlainName, EqIgnoreCase, Ascii, Field, ValueIn;
    FieldReads("Transfer-Encoding", CHUNKED, TRANSFER_ENCODING);
    FieldIsSafe("Transfer-Encoding", CHUNKED);
  }

  lemma HexIsLineFree(n: nat, width: nat)
    ensures LineFree(Hex(n, width))
  {
    var s := Hex(n, width);
    forall i | 0 <= i < |s|
      ensures s[i] != CR && s[i] != LF
    {
      assert HexDigitValue(s[i]).Some?;
    }
  }

  lemma ETagIsLineFree(crc32: nat)
    ensures LineFree(ETag(crc32))
  {
    HexIsLineFree(crc32, 8);
  }

  lemma ETagIsSafe(crc32: nat)
    ensures LineSafe(Field("ETag", ETag(crc32)))
  {
    ETagIsLineFree(crc32);
    OtherNamesArePlain();
    hide PlainName;
    FieldIsSafe("ETag", ETag(crc32));
  }

  lemma {:induction false} FieldAfter(lines: seq<bytes>, i: nat, name: bytes, value: bytes)
    requires i < |lines| && ValueIn(lines[i], name) == Some(value)
    requires forall j :: 0 <= j < i ==> ValueIn(lines[j], name) == None
    ensures FieldValue(lines, name) == Some(value)
  {
    if i > 0 {
      assert forall j :: 0 <= j < i - 1 ==> lines[1..][j] == lines[j + 1];
      FieldAfter(lines[1..], i - 1, name, value);
    }
  }

  lemma {:induction false} FieldAbsent(lines: seq<bytes>, name: bytes)
    requires forall j :: 0 <= j < |lines| ==> ValueIn(lines[j], name) == None
    ensures FieldValue(lines, name) == None
  {
    if lines != [] {
      FieldAbsent(lines[1..], name);
    }
  }

  /** A response whose head announces its length, and nothing about chunks. */
  lemma ReceiveLength(lines: seq<bytes>, i: nat, n: nat, body: bytes, rest: bytes)
    requires AllSafe(lines) && 1 <= i < |lines| && |body| == n
    requires StatusCode(lines[0]) != Some(304)
    requires forall j :: 1 <= j < |lines| ==> ValueIn(lines[j], TRANSFER_ENCODING) == None
    requires forall j :: 1 <= j < i ==> ValueIn(lines[j], CONTENT_LENGTH) == None
    requires lines[i] == Field("Content-Length", Decimal(n))
    ensures Receive(Head(lines) + body + rest) == Some(Received(Response(lines, body), rest))
  {
    hide ValueIn, FieldValue, LinesOf, LineSafe, Receive, StatusCode, Decimal, DecimalValue;
    var s, end := Head(lines) + body + rest, |Head(lines)|;
    assert s == Head(lines) + (body + rest);
    ReceiveHead(lines, body + rest);
    var fields := lines[1..];
    assert forall j :: 0 <= j < |fields| ==> fields[j] == lines[j + 1];
    FieldAbsent(fields, TRANSFER_ENCODING);
    ContentLengthReads(n);
    FieldAfter(fields, i - 1, CONTENT_LENGTH, Decimal(n));
    assert s[end..end + n] == body && s[end + n..] == rest;
    ReceivesLength(s, lines, end, n);
  }

  lemma ReceivesLength(s: bytes, lines: seq<bytes>, end: nat, n: nat)
    requires 2 <= end && end + n <= |s| && Framing.FindHeadersEnd(s) == Some(end) && LinesOf(s[..end - 2]) == lines
    requires lines != [] && StatusCode(lines[0]) != Some(304)
    requires FieldValue(lines[1..], TRANSFER_ENCODING) == None && FieldValue(lines[1..], CONTENT_LENGTH) == Some(Decimal(n))
    ensures Receive(s) == Some(Received(Response(lines, s[end..end + n]), s[end + n..]))
  {
    DecimalRoundTrip(n);
    hide Framing.FindHeadersEnd, LinesOf, FieldValue, StatusCode, Decimal, DecimalValue;
  }

  /** A status line keeps to one line and gives its code back. */
  lemma StatusLineReads(code: nat, reason: string)
    requires 100 <= code < 1000 && '\r' !in reason && '\n' !in reason
    ensures LineSafe(StatusLine(code, reason)) && StatusCode(StatusLine(code, reason)) == Some(code)
  {
    var start, digits, end := Ascii("HTTP/1.1 "), Decimal(code), Ascii(reason);
    assert |Decimal(code / 100)| == 1 && |Decimal(code / 10)| == 2 && |digits| == 3;
    DecimalRoundTrip(code);
    TextIsLineFree("HTTP/1.1 ");
    TextIsLineFree(reason);
    hide Ascii, Decimal;
    var line := start + digits + [32] + end;
    assert line[9..12] == digits;
    assert forall i :: 0 <= i < 3 ==> digits[i] in digits;
    forall i | 0 <= i < |line|
      ensures line[i] != CR && line[i] != LF
    {
      if i < 9 {
        assert line[i] == start[i];
      } else if i < 12 {
        assert line[i] == digits[i - 9];
      } else if i > 12 {
        assert line[i] == end[i - 13];
      }
    }
  }

  lemma HeaderTooLongReads()
    ensures LineSafe(LineFor(Requests.HeaderTooLong)) && StatusCode(LineFor(Requests.HeaderTooLong)) == Some(431)
  {
    hide LineSafe, StatusCode, StatusLine;
    StatusLineReads(431, "Request Header Fields Too Large");
  }

  lemma StatusIsOther(status: Requests.Status)
    ensures LineSafe(LineFor(status)) && StatusCode(LineFor(status)) != Some(304)
  {
    hide StatusLine, LineSafe, StatusCode;
    match status
    case NotFound => StatusLineReads(404, "Not Found");
    case BadRequest => StatusLineReads(400, "Bad Request");
    case UriTooLong => StatusLineReads(414, "URI Too Long");
    case HeaderTooLong => HeaderTooLongReads();
    case MethodNotAllowed => StatusLineReads(405, "Method Not Allowed");
    case UnsupportedCompression => StatusLineReads(500, "Unsupported Compression");
  }

  lemma ReceiveStatus(status: Requests.Status, rest: bytes)
    ensures Receive(Head(StatusLines(status)) + rest) == Some(Received(Response(StatusLines(status), []), rest))
  {
    hide ValueIn, LineSafe, StatusCode, Receive, Field, Head, StatusLine, LineFor, EqIgnoreCase, PlainName;
    var lines := StatusLines(status);
    StatusIsOther(status);
    ContentLengthIsPlain();
    assert Decimal(0) == [48];
    ContentLengthReads(0);
    OtherField("Content-Length", [48], TRANSFER_ENCODING);
    assert Head(lines) + [] + rest == Head(lines) + rest;
    ReceiveLength(lines, 1, 0, [], rest);
  }

  lemma LocationIsLineFree(name: bytes)
    ensures LineFree([46, 47] + Percent.Encode(name) + [47])
  {
    hide Percent.Encode;
    var code := Percent.Encode(name);
    Percent.EncodedIsSafe(name);
    assert forall i :: 0 <= i < |code| ==> code[i] in code;
  }

  lemma ReceiveRedirect(name: bytes, rest: bytes)
    ensures Receive(Head(RedirectLines(name)) + rest) == Some(Received(Response(RedirectLines(name), []), rest))
  {
    hide ValueIn, LineSafe, StatusCode, Receive, Field, Head, StatusLine, Percent.Encode, PlainName;
    ContentLengthIsPlain();
    OtherNamesArePlain();
    var lines := RedirectLines(name);
    var location := [46, 47] + Percent.Encode(name) + [47];
    StatusLineReads(301, "Moved Permanently");
    LocationIsLineFree(name);
    FieldIsSafe("Location", location);
    assert Decimal(0) == [48];
    ContentLengthReads(0);
    OtherField("Location", location, TRANSFER_ENCODING);
    OtherField("Location", location, CONTENT_LENGTH);
    OtherField("Content-Length", [48], TRANSFER_ENCODING);
    assert Head(lines) + [] + rest == Head(lines) + rest;
    ReceiveLength(lines, 2, 0, [], rest);
  }

  /** A 304 has no body, whatever its head says. */
  lemma ReceiveNotModified(crc32: nat, rest: bytes)
    ensures Receive(Head(NotModifiedLines(crc32)) + rest) == Some(Received(Response(NotModifiedLines(crc32), []), rest))
  {
    var lines := NotModifiedLines(crc32);
    ETagIsSafe(crc32);
    StatusLineReads(304, "Not Modified");
    hide LineSafe, LinesOf, Head, StatusLine, Field, StatusCode, Decimal, Receive, ETag;
    ReceiveBodiless(lines, rest);
  }

  lemma ReceiveBodiless(lines: seq<bytes>, rest: bytes)
    requires lines != [] && AllSafe(lines) && StatusCode(lines[0]) == Some(304)
    ensures Receive(Head(lines) + rest) == Some(Received(Response(lines, []), rest))
  {
    hide LineSafe, LinesOf, Head, StatusCode, Framing.FindHeadersEnd;
    ReceiveHead(lines, rest);
  }

  lemma HtmlType()
    ensures LineSafe(Field("Content-Type", Ascii("text/html; charset=utf-8")))
    ensures ValueIn(Field("Content-Type", Ascii("text/html; charset=utf-8")), TRANSFER_ENCODING) == None
  {
    hide PlainName;
    ContentTypeIsPlain();
    var html := Ascii("text/html; charset=utf-8");
    TextIsLineFree("text/html; charset=utf-8");
    hide LineSafe, LineFree, ValueIn;
    FieldIsSafe("Content-Type", html);
    OtherField("Content-Type", html, TRANSFER_ENCODING);
  }

  lemma ReceiveListing(chunks: seq<bytes>, rest: bytes)
    requires Payloads(chunks)
    ensures Receive(Head(IndexLines()) + (Frames(chunks) + TERMINATOR) + rest) ==
            Some(Received(Response(IndexLines(), Concat(chunks)), rest))
  {
    hide Dechunk, Frames, ValueIn, FieldValue, LinesOf, LineSafe, Head, StatusLine, Field, StatusCode, Decimal;
    var lines := IndexLines();
    StatusLineReads(200, "OK");
    HtmlType();
    TransferEncodingReads();
    var fields := lines[1..];
    FieldAfter(fields, 1, TRANSFER_ENCODING, CHUNKED);
    var tail := Frames(chunks) + TERMINATOR + rest;
    assert Head(lines) + (Frames(chunks) + TERMINATOR) + rest == Head(lines) + tail;
    ReceiveHead(lines, tail);
    ChunkedRoundTrip(chunks, rest);
  }

  /** A line that keeps a response one line longer and says nothing of its length. */
  predicate Neutral(line: bytes) {
    LineSafe(line) && ValueIn(line, TRANSFER_ENCODING) == None && ValueIn(line, CONTENT_LENGTH) == None
  }

  lemma FieldIsNeutral(name: string, value: bytes)
    requires PlainName(name) && LineFree(value)
    requires |name| != |TRANSFER_ENCODING| && |name| != |CONTENT_LENGTH|
    ensures Neutral(Field(name, value))
  {
    FieldIsSafe(name, value);
    OtherField(name, value, TRANSFER_ENCODING);
    OtherField(name, value, CONTENT_LENGTH);
  }

  lemma EntryFieldsAreNeutral(entry: Coding.Entry, native: Option<Coding.NativeCoding>, mime: bytes)
    requires LineFree(mime)
    ensures Neutral(Field("Content-Type", mime)) && Neutral(Field("ETag", ETag(entry.crc32)))
    ensures Neutral(Field("Cache-control", Ascii("max-age=180, public")))
    ensures EncodingName(native).Some? ==> Neutral(Field("Content-Encoding", EncodingName(native).value))
  {
    hide ValueIn, LineSafe, LineFree, Field, ETag, PlainName;
    ContentTypeIsPlain();
    ContentEncodingIsPlain();
    CacheControlIsPlain();
    OtherNamesArePlain();
    FieldIsNeutral("Content-Type", mime);
    ETagIsLineFree(entry.crc32);
    FieldIsNeutral("ETag", ETag(entry.crc32));
    TextIsLineFree("max-age=180, public");
    FieldIsNeutral("Cache-control", Ascii("max-age=180, public"));
    if EncodingName(native).Some? {
      TextIsLineFree("gzip");
      TextIsLineFree("zstd");
      FieldIsNeutral("Content-Encoding", EncodingName(native).value);
    }
  }

  /** An entry's body is received whole when it is as long as announced. */
  lemma ReceiveEntry(entry: Coding.Entry, native: Option<Coding.NativeCoding>, mime: bytes, body: bytes, rest: bytes)
    requires LineFree(mime) && |body| == AnnouncedLength(entry, native)
    ensures Receive(Head(EntryLines(entry, native, mime)) + body + rest) ==
            Some(Received(Response(EntryLines(entry, native, mime), body), rest))
  {
    hide ValueIn, LineSafe, StatusCode, Receive, Field, StatusLine, Decimal, Head, ETag, AnnouncedLength, EncodingName, PlainName;
    ContentLengthIsPlain();
    var lines, n := EntryLines(entry, native, mime), AnnouncedLength(entry, native);
    StatusLineReads(200, "OK");
    EntryFieldsAreNeutral(entry, native, mime);
    ContentLengthReads(n);
    OtherField("Content-Length", Decimal(n), TRANSFER_ENCODING);
    if EncodingName(native).Some? {
      ReceiveLength(lines, 3, n, body, rest);
    } else {
      ReceiveLength(lines, 2, n, body, rest);
    }
  }

  // ---------- A whole connection ----------

  /** A client takes exactly `reply` off the connection, whatever follows it. */
  ghost predicate Delimits(reply: bytes, response: Response) {
    forall rest :: Receive(reply + rest) == Some(Received(response, rest))
  }

  lemma OneReceived(reply: bytes, response: Response, rest: bytes)
    requires Delimits(reply, response)
    ensures ReceiveAll(reply + rest) == [response] + ReceiveAll(rest)
  {
    hide Receive;
    assert Receive(reply + rest) == Some(Received(response, rest));
  }

  /** Replies sent one after the other are received one after the other. */
  lemma {:induction false} RepliesAreReceived(replies: seq<bytes>, responses: seq<Response>, rest: bytes)
    requires |replies| == |responses|
    requires forall i :: 0 <= i < |replies| ==> Delimits(replies[i], responses[i])
    ensures ReceiveAll(Concat(replies) + rest) == responses + ReceiveAll(rest)
  {
    hide Receive, ReceiveAll, Delimits;
    if replies == [] {
      assert Concat(replies) + rest == rest && responses + ReceiveAll(rest) == ReceiveAll(rest);
    } else {
      assert forall i :: 0 <= i < |replies| - 1 ==> replies[1..][i] == replies[i + 1] && responses[1..][i] == responses[i + 1];
      RepliesAreReceived(replies[1..], responses[1..], rest);
      assert Concat(replies) + rest == replies[0] + (Concat(replies[1..]) + rest);
      OneReceived(replies[0], responses[0], Concat(replies[1..]) + rest);
      assert [responses[0]] + (responses[1..] + ReceiveAll(rest)) == responses + ReceiveAll(rest);
    }
  }
}
