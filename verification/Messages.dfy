/** The heads of responses, and how a client reads responses off the connection. */
module Messages {
  import opened Bytes
  import opened Numerals
  import opened Framing
  import opened Chunking
  import Negotiation
  import Percent
  import Requests
  import Coding

  /** Every line ended by CRLF. */
  function Terminated(lines: seq<bytes>): bytes {
    if lines == [] then [] else lines[0] + CRLF + Terminated(lines[1..])
  }

  /** A response head: its lines, and the empty line that ends it. */
  function Head(lines: seq<bytes>): bytes {
    Terminated(lines) + CRLF
  }

  function Field(name: string, value: bytes): bytes {
    Ascii(name) + [58, 32] + value
  }

  function StatusLine(code: nat, reason: string): bytes {
    Ascii("HTTP/1.1 ") + Decimal(code) + [32] + Ascii(reason)
  }

  function LineFor(status: Requests.Status): bytes {
    match status
    case NotFound => StatusLine(404, "Not Found")
    case BadRequest => StatusLine(400, "Bad Request")
    case UriTooLong => StatusLine(414, "URI Too Long")
    case HeaderTooLong => StatusLine(431, "Request Header Fields Too Large")
    case MethodNotAllowed => StatusLine(405, "Method Not Allowed")
    case UnsupportedCompression => StatusLine(500, "Unsupported Compression")
  }

  function StatusLines(status: Requests.Status): seq<bytes> {
    [LineFor(status), Field("Content-Length", [48])]
  }

  function RedirectLines(name: bytes): seq<bytes> {
    [StatusLine(301, "Moved Permanently"), Field("Location", [46, 47] + Percent.Encode(name) + [47]), Field("Content-Length", [48])]
  }

  function ETag(crc32: nat): bytes {
    [34] + Hex(crc32, 8) + [34]
  }

  function NotModifiedLines(crc32: nat): seq<bytes> {
    [StatusLine(304, "Not Modified"), Field("ETag", ETag(crc32))]
  }

  function IndexLines(): seq<bytes> {
    [StatusLine(200, "OK"), Field("Content-Type", Ascii("text/html; charset=utf-8")), Field("Transfer-Encoding", Ascii("chunked"))]
  }

  /** How long an entry's body is announced to be. */
  function AnnouncedLength(entry: Coding.Entry, native: Option<Coding.NativeCoding>): nat {
    if native.Some? then native.value.ContentLength(entry) else entry.uncompressedSize
  }

  function EncodingName(native: Option<Coding.NativeCoding>): Option<bytes> {
    if native.Some? then native.value.Name() else None
  }

  function EntryLines(entry: Coding.Entry, native: Option<Coding.NativeCoding>, mime: bytes): seq<bytes> {
    [StatusLine(200, "OK"), Field("Content-Type", mime)]
    + (if EncodingName(native).Some? then [Field("Content-Encoding", EncodingName(native).value)] else [])
    + [Field("Content-Length", Decimal(AnnouncedLength(entry, native))),
       Field("ETag", ETag(entry.crc32)),
       Field("Cache-control", Ascii("max-age=180, public"))]
  }

  // ---------- A client's side ----------

  /** Lines up to their CRLFs; what no CRLF ends is dropped. */
  function LinesOf(s: bytes): seq<bytes>
    decreases |s|
  {
    match IndexOf(s, CR)
    case None => []
    case Some(i) => if LineEndAt(s, i) then [s[..i]] + LinesOf(s[i + 2..]) else []
  }

  /** The value of a field line called `name`. */
  function ValueIn(line: bytes, name: bytes): Option<bytes> {
    match IndexOf(line, 58)
    case None => None
    case Some(i) => if Negotiation.Trim(line[..i]) == line[..i] && EqIgnoreCase(line[..i], name) then Some(Negotiation.Trim(line[i + 1..])) else None
  }

  /** The value of the first field called `name`. */
  function FieldValue(lines: seq<bytes>, name: bytes): Option<bytes> {
    if lines == [] then None
    else if ValueIn(lines[0], name).Some? then ValueIn(lines[0], name)
    else FieldValue(lines[1..], name)
  }

  function StatusCode(line: bytes): Option<nat> {
    if |line| < 12 then None else DecimalValue(line[9..12])
  }

  datatype Response = Response(lines: seq<bytes>, body: bytes)

  datatype Received = Received(response: Response, rest: bytes)

  /**
   One response off the front of `s`: 304 has no body, otherwise a chunked one ends where
   its coding does and any other after Content-Length bytes (section 6.3 of RFC 9112).
   */
  function Receive(s: bytes): (r: Option<Received>)
    ensures r.Some? ==> |r.value.rest| < |s|
  {
    match FindHeadersEnd(s)
    case None => None
    case Some(end) =>
      var lines := LinesOf(s[..end - 2]);
      if lines == [] then None
      else if StatusCode(lines[0]) == Some(304) then Some(Received(Response(lines, []), s[end..]))
      else if FieldValue(lines[1..], Ascii("transfer-encoding")) == Some(Ascii("chunked")) then
        match Dechunk(s[end..])
        case None => None
        case Some(d) => Some(Received(Response(lines, d.body), d.rest))
      else match FieldValue(lines[1..], Ascii("content-length"))
        case None => None
        case Some(digits) =>
          match DecimalValue(digits)
          case None => None
          case Some(n) => if end + n > |s| then None else Some(Received(Response(lines, s[end..end + n]), s[end + n..]))
  }

  /** All complete responses, in order. */
  function ReceiveAll(s: bytes): seq<Response>
    decreases |s|
  {
    match Receive(s)
    case None => []
    case Some(r) => [r.response] + ReceiveAll(r.rest)
  }

  // ---------- Heads are read back ----------

  predicate LineSafe(line: bytes) {
    line != [] && forall i :: 0 <= i < |line| ==> line[i] != CR && line[i] != LF
  }

  predicate AllSafe(lines: seq<bytes>) {
    forall i :: 0 <= i < |lines| ==> LineSafe(lines[i])
  }

  lemma {:induction false} HeadEnds(lines: seq<bytes>, rest: bytes)
    requires lines != [] && AllSafe(lines)
    ensures FindHeadersEnd(Head(lines) + rest) == Some(|Head(lines)|)
  {
    var line, others := lines[0], lines[1..];
    var s := Head(lines) + rest;
    if others == [] {
      assert Terminated(lines) == line + CRLF by { assert Terminated(others) == []; }
      assert s == line + CRLF + CRLF + rest;
      NoTerminatorInLine(line, s);
      HeadersEndIsUnique(s, |line| + 4);
    } else {
      var tail := Head(others) + rest;
      assert s == line + CRLF + tail;
      assert tail[0] == others[0][0];
      HeadEnds(others, rest);
      NoTerminatorInLine(line, s);
      AfterLine(line, tail, |Head(others)|);
    }
  }

  /** No window that starts inside a line holds the terminator. */
  lemma NoTerminatorInLine(line: bytes, s: bytes)
    requires LineSafe(line) && line + CRLF <= s
    ensures NoTerminatorBefore(s, |line|)
  {
    forall i | 0 <= i < |line|
      ensures !TerminatorAt(s, i)
    {
      assert s[i] == line[i];
    }
  }

  lemma AfterLine(line: bytes, tail: bytes, end: nat)
    requires LineSafe(line) && tail != [] && tail[0] != CR
    requires FindHeadersEnd(tail) == Some(end)
    ensures FindHeadersEnd(line + CRLF + tail) == Some(|line| + 2 + end)
  {
    var s := line + CRLF + tail;
    NoTerminatorInLine(line, s);
    var n := |line| + 2;
    forall i | 0 <= i
      ensures TerminatorAt(s, n + i) <==> TerminatorAt(tail, i)
    {
    }
    forall i | 0 <= i < n + end - 4
      ensures !TerminatorAt(s, i)
    {
      if i >= n {
        assert !TerminatorAt(tail, i - n);
      } else if i >= |line| {
        assert s[|line| + 1] == LF && s[|line| + 2] == tail[0];
      }
    }
    assert TerminatorAt(tail, end - 4);
    HeadersEndIsUnique(s, n + end);
  }

  lemma {:induction false} LinesReadBack(lines: seq<bytes>)
    requires AllSafe(lines)
    ensures LinesOf(Terminated(lines)) == lines
  {
    if lines != [] {
      var line, rest := lines[0], Terminated(lines[1..]);
      var s := Terminated(lines);
      assert s == line + CRLF + rest;
      assert s[..|line|] == line && s[|line|] == CR && s[|line| + 1] == LF;
      assert CR !in line;
      IndexIs(s, CR, |line|);
      assert s[|line| + 2..] == rest;
      LinesReadBack(lines[1..]);
    }
  }

  /** A head followed by anything is read back as its lines. */
  lemma ReceiveHead(lines: seq<bytes>, rest: bytes)
    requires lines != [] && AllSafe(lines)
    ensures var s, end := Head(lines) + rest, |Head(lines)|;
            FindHeadersEnd(s) == Some(end) && LinesOf(s[..end - 2]) == lines && s[end..] == rest
  {
    HeadEnds(lines, rest);
    LinesReadBack(lines);
    var s, end := Head(lines) + rest, |Head(lines)|;
    assert s[..end - 2] == Terminated(lines);
  }

  /** A field name: no colon, no white space. */
  predicate PlainName(name: string) {
    name != "" && ':' !in name && ' ' !in name && '\t' !in name && '\r' !in name && '\n' !in name && '\U{c}' !in name
  }

  lemma SpaceIsSpace()
    ensures Negotiation.IsSpace(32)
  {
  }

  lemma NameIsPlain(name: string)
    requires PlainName(name)
    ensures 58 !in Ascii(name) && Negotiation.Trim(Ascii(name)) == Ascii(name)
    ensures forall i :: 0 <= i < |name| ==> Ascii(name)[i] != CR && Ascii(name)[i] != LF
  {
    forall i | 0 <= i < |name|
      ensures !Negotiation.IsSpace(Ascii(name)[i]) && Ascii(name)[i] != 58
    {
      assert name[i] in name;
    }
    NothingToTrim(Ascii(name));
  }

  lemma NothingToTrim(s: bytes)
    requires s != [] && forall i :: 0 <= i < |s| ==> !Negotiation.IsSpace(s[i])
    ensures Negotiation.Trim(s) == s
  {
    assert [] + s + [] == s;
    Negotiation.TrimSkips([], s, []);
  }

  /** A field is found under its own name, in any case, and under no other. */
  lemma FieldReads(name: string, value: bytes, wanted: bytes)
    requires PlainName(name)
    ensures !EqIgnoreCase(Ascii(name), wanted) ==> ValueIn(Field(name, value), wanted) == None
    ensures value != [] && !Negotiation.IsSpace(value[0]) && !Negotiation.IsSpace(value[|value| - 1]) && EqIgnoreCase(Ascii(name), wanted) ==>
              ValueIn(Field(name, value), wanted) == Some(value)
  {
    hide EqIgnoreCase, Negotiation.Trim, Negotiation.IsSpace, IndexOf;
    NameIsPlain(name);
    var line, n := Field(name, value), |name|;
    assert line[..n] == Ascii(name);
    IndexIs(line, 58, n);
    if value != [] && !Negotiation.IsSpace(value[0]) && !Negotiation.IsSpace(value[|value| - 1]) {
      assert line[n + 1..] == [32] + value + [];
      assert Negotiation.AllSpace([32]) && Negotiation.AllSpace([]) by { assert Negotiation.IsSpace(32) by { SpaceIsSpace(); } }
      Negotiation.TrimSkips([32], value, []);
    }
  }

  /** A name and a value free of CR and LF make a field line free of them. */
  lemma FieldIsSafe(name: string, value: bytes)
    requires PlainName(name) && (forall i :: 0 <= i < |value| ==> value[i] != CR && value[i] != LF)
    ensures LineSafe(Field(name, value))
  {
    var line := Field(name, value);
    NameIsPlain(name);
    forall i | 0 <= i < |line|
      ensures line[i] != CR && line[i] != LF
    {
      if i < |name| {
        assert line[i] == Ascii(name)[i];
      } else if i >= |name| + 2 {
        assert line[i] == value[i - |name| - 2];
      }
    }
  }
}
