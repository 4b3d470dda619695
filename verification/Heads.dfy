/** What a client reads off the heads it receives: status codes, and fields by their names in any case. */
module Heads {
  import opened Bytes
  import opened Numerals
  import opened Messages
  import opened Replies
  import Negotiation
  import Percent
  import Requests
  import Coding

  /** The field of this name in a received head. */
  function Read(lines: seq<bytes>, name: string): Option<bytes>
    requires lines != []
  {
    FieldValue(lines[1..], Ascii(name))
  }

  /** A value that stands as it is between a field's colon and the end of the line. */
  predicate IsValue(value: bytes) {
    value != [] && !Negotiation.IsSpace(value[0]) && !Negotiation.IsSpace(value[|value| - 1])
  }

  lemma NamedField(name: string, value: bytes, wanted: string)
    requires PlainName(name) && IsValue(value) && Lower(Ascii(name)) == Lower(Ascii(wanted))
    ensures ValueIn(Field(name, value), Ascii(wanted)) == Some(value)
  {
    FieldReads(name, value, Ascii(wanted));
  }

  lemma NoOtherField(name: string, value: bytes, wanted: string)
    requires PlainName(name) && |name| != |wanted|
    ensures ValueIn(Field(name, value), Ascii(wanted)) == None
  {
    OtherField(name, value, Ascii(wanted));
  }

  // ---------- Status lines ----------

  lemma ThreeDigits(n: nat)
    requires 100 <= n < 1000
    ensures Decimal(n) == [48 + n / 100, 48 + n / 10 % 10, 48 + n % 10]
  {
    assert Decimal(n / 100) == [48 + n / 100];
    assert Decimal(n / 10) == Decimal(n / 100) + [48 + n / 10 % 10];
  }

  /** The code and the reason a refusal is sent with. */
  function StatusText(status: Requests.Status): (string, string) {
    match status
    case NotFound => ("404", "Not Found")
    case BadRequest => ("400", "Bad Request")
    case UriTooLong => ("414", "URI Too Long")
    case HeaderTooLong => ("431", "Request Header Fields Too Large")
    case MethodNotAllowed => ("405", "Method Not Allowed")
    case UnsupportedCompression => ("500", "Unsupported Compression")
  }

  /** The status lines of refusals, as they stand on the wire. */
  lemma StatusLinesRead(status: Requests.Status)
    ensures LineFor(status) == Ascii("HTTP/1.1 ") + Ascii(StatusText(status).0) + [32] + Ascii(StatusText(status).1)
  {
    CodesRead();
    hide Ascii, Decimal;
  }

  lemma CodesRead()
    ensures Decimal(404) == Ascii("404") && Decimal(400) == Ascii("400") && Decimal(414) == Ascii("414")
    ensures Decimal(431) == Ascii("431") && Decimal(405) == Ascii("405") && Decimal(500) == Ascii("500")
  {
    ThreeDigits(404);
    ThreeDigits(400);
    ThreeDigits(414);
    ThreeDigits(431);
    ThreeDigits(405);
    ThreeDigits(500);
  }

  // ---------- Redirects ----------

  /** A redirect is a 301 whose location is the encoded name below the page, with a slash behind it. */
  lemma RedirectReads(name: bytes)
    ensures var lines := RedirectLines(name);
            && StatusCode(lines[0]) == Some(301)
            && Read(lines, "location") == Some([46, 47] + Percent.Encode(name) + [47])
  {
    hide Percent.Encode, Field, ValueIn, StatusLine, PlainName, StatusCode;
    var lines, location := RedirectLines(name), [46, 47] + Percent.Encode(name) + [47];
    StatusLineReads(301, "Moved Permanently");
    OtherNamesArePlain();
    assert Lower(Ascii("Location")) == Lower(Ascii("location"));
    NamedField("Location", location, "location");
    FieldAfter(lines[1..], 0, Ascii("location"), location);
  }

  // ---------- Entity tags ----------

  lemma TagIsValue(crc32: nat)
    ensures IsValue(ETag(crc32))
  {
  }

  /** The tag of an entry brings its CRC back when a client returns it. */
  lemma TagReturns(crc32: nat)
    requires crc32 < 0x1_0000_0000
    ensures Requests.TagOf(Requests.Header(Ascii("If-None-Match"), ETag(crc32))) == Some(crc32)
  {
    Requests.TagRoundTrip(crc32);
  }

  lemma TagField(crc32: nat)
    ensures ValueIn(Field("ETag", ETag(crc32)), Ascii("etag")) == Some(ETag(crc32))
  {
    hide ETag, ValueIn, Field;
    TagIsValue(crc32);
    OtherNamesArePlain();
    assert Lower(Ascii("ETag")) == Lower(Ascii("etag"));
    NamedField("ETag", ETag(crc32), "etag");
  }

  /** A 304 carries the tag of the entry it is about. */
  lemma NotModifiedReads(crc32: nat)
    ensures var lines := NotModifiedLines(crc32);
            StatusCode(lines[0]) == Some(304) && Read(lines, "etag") == Some(ETag(crc32))
  {
    StatusLineReads(304, "Not Modified");
    hide ETag, ValueIn, Field, StatusLine, StatusCode;
    TagField(crc32);
    FieldAfter(NotModifiedLines(crc32)[1..], 0, Ascii("etag"), ETag(crc32));
  }

  // ---------- Listings ----------

  /** A listing is HTML. */
  lemma ListingReads()
    ensures StatusCode(IndexLines()[0]) == Some(200)
    ensures Read(IndexLines(), "content-type") == Some(Ascii("text/html; charset=utf-8"))
  {
    var html := Ascii("text/html; charset=utf-8");
    StatusLineReads(200, "OK");
    assert IsValue(html);
    assert Lower(Ascii("Content-Type")) == Lower(Ascii("content-type"));
    ContentTypeIsPlain();
    hide ValueIn, Field, StatusLine, StatusCode, PlainName, IsValue;
    NamedField("Content-Type", html, "content-type");
    FieldAfter(IndexLines()[1..], 0, Ascii("content-type"), html);
  }

  // ---------- Entries ----------

  lemma CodingField(value: bytes)
    requires IsValue(value)
    ensures ValueIn(Field("Content-Encoding", value), Ascii("content-encoding")) == Some(value)
  {
    hide ValueIn, Field, IsValue;
    ContentEncodingIsPlain();
    assert Lower(Ascii("Content-Encoding")) == Lower(Ascii("content-encoding"));
    NamedField("Content-Encoding", value, "content-encoding");
  }

  lemma TypeField(value: bytes)
    requires IsValue(value)
    ensures ValueIn(Field("Content-Type", value), Ascii("content-type")) == Some(value)
  {
    hide ValueIn, Field, IsValue;
    ContentTypeIsPlain();
    assert Lower(Ascii("Content-Type")) == Lower(Ascii("content-type"));
    NamedField("Content-Type", value, "content-type");
  }

  /** No field of an entry's head but the one so called is taken for its content coding or its tag. */
  lemma OthersDiffer(mime: bytes, n: nat)
    ensures ValueIn(Field("Content-Type", mime), Ascii("content-encoding")) == None && ValueIn(Field("Content-Type", mime), Ascii("etag")) == None
    ensures forall value: bytes :: ValueIn(Field("Content-Encoding", value), Ascii("etag")) == None
    ensures forall value: bytes :: ValueIn(Field("Content-Length", value), Ascii("content-encoding")) == None && ValueIn(Field("Content-Length", value), Ascii("etag")) == None
    ensures forall value: bytes :: ValueIn(Field("ETag", value), Ascii("content-encoding")) == None
    ensures forall value: bytes :: ValueIn(Field("Cache-control", value), Ascii("content-encoding")) == None
  {
    ContentTypeIsPlain();
    ContentEncodingIsPlain();
    ContentLengthIsPlain();
    OtherNamesArePlain();
    CacheControlIsPlain();
    hide ValueIn, Field, PlainName;
    NoOtherField("Content-Type", mime, "content-encoding");
    NoOtherField("Content-Type", mime, "etag");
    forall value: bytes
      ensures ValueIn(Field("Content-Encoding", value), Ascii("etag")) == None
      ensures ValueIn(Field("Content-Length", value), Ascii("content-encoding")) == None && ValueIn(Field("Content-Length", value), Ascii("etag")) == None
      ensures ValueIn(Field("ETag", value), Ascii("content-encoding")) == None
      ensures ValueIn(Field("Cache-control", value), Ascii("content-encoding")) == None
    {
      NoOtherField("Content-Encoding", value, "etag");
      NoOtherField("Content-Length", value, "content-encoding");
      NoOtherField("Content-Length", value, "etag");
      NoOtherField("ETag", value, "content-encoding");
      NoOtherField("Cache-control", value, "content-encoding");
    }
  }

  lemma CodedFields(mime: bytes, coding: bytes, length: bytes, tag: bytes, cache: bytes)
    requires IsValue(mime) && IsValue(coding)
    requires ValueIn(Field("ETag", tag), Ascii("etag")) == Some(tag)
    ensures var fields := [Field("Content-Type", mime), Field("Content-Encoding", coding), Field("Content-Length", length), Field("ETag", tag), Field("Cache-control", cache)];
            && FieldValue(fields, Ascii("content-type")) == Some(mime)
            && FieldValue(fields, Ascii("content-encoding")) == Some(coding)
            && FieldValue(fields, Ascii("etag")) == Some(tag)
  {
    hide ValueIn, Field, IsValue, Ascii;
    OthersDiffer(mime, 0);
    TypeField(mime);
    CodingField(coding);
    var fields := [Field("Content-Type", mime), Field("Content-Encoding", coding), Field("Content-Length", length), Field("ETag", tag), Field("Cache-control", cache)];
    FieldAfter(fields, 0, Ascii("content-type"), mime);
    FieldAfter(fields, 1, Ascii("content-encoding"), coding);
    FieldAfter(fields, 3, Ascii("etag"), tag);
  }

  lemma PlainFields(mime: bytes, length: bytes, tag: bytes, cache: bytes)
    requires IsValue(mime) && ValueIn(Field("ETag", tag), Ascii("etag")) == Some(tag)
    ensures var fields := [Field("Content-Type", mime), Field("Content-Length", length), Field("ETag", tag), Field("Cache-control", cache)];
            && FieldValue(fields, Ascii("content-type")) == Some(mime)
            && FieldValue(fields, Ascii("content-encoding")) == None
            && FieldValue(fields, Ascii("etag")) == Some(tag)
  {
    hide ValueIn, Field, IsValue, Ascii;
    OthersDiffer(mime, 0);
    TypeField(mime);
    var fields := [Field("Content-Type", mime), Field("Content-Length", length), Field("ETag", tag), Field("Cache-control", cache)];
    FieldAfter(fields, 0, Ascii("content-type"), mime);
    FieldAbsent(fields, Ascii("content-encoding"));
    FieldAfter(fields, 2, Ascii("etag"), tag);
  }

  lemma LinesAre(entry: Coding.Entry, native: Option<Coding.NativeCoding>, mime: bytes)
    ensures EntryLines(entry, native, mime) != []
    ensures var lines := EntryLines(entry, native, mime);
            var length, tag, cache := Field("Content-Length", Decimal(AnnouncedLength(entry, native))), Field("ETag", ETag(entry.crc32)), Field("Cache-control", Ascii("max-age=180, public"));
            && lines[0] == StatusLine(200, "OK")
            && lines[1..] == match EncodingName(native)
                             case Some(coding) => [Field("Content-Type", mime), Field("Content-Encoding", coding), length, tag, cache]
                             case None => [Field("Content-Type", mime), length, tag, cache]
  {
    hide Field, StatusLine, ETag, Decimal, AnnouncedLength, Ascii;
  }

  lemma CodingNames(native: Option<Coding.NativeCoding>)
    ensures EncodingName(native) == if native == Some(Coding.Gzip) then Some(Ascii("gzip")) else if native == Some(Coding.Zstd) then Some(Ascii("zstd")) else None
    ensures EncodingName(native).Some? ==> IsValue(EncodingName(native).value)
  {
  }

  /** An entry's head says its type, its tag, and its coding by the name registered for it, or none. */
  lemma EntryReads(entry: Coding.Entry, native: Option<Coding.NativeCoding>, mime: bytes)
    requires IsValue(mime)
    ensures EntryLines(entry, native, mime) != []
    ensures var lines := EntryLines(entry, native, mime);
            && StatusCode(lines[0]) == Some(200)
            && Read(lines, "content-type") == Some(mime)
            && Read(lines, "etag") == Some(ETag(entry.crc32))
            && Read(lines, "content-encoding") == if native == Some(Coding.Gzip) then Some(Ascii("gzip"))
                                                  else if native == Some(Coding.Zstd) then Some(Ascii("zstd")) else None
  {
    hide EntryLines, EncodingName, ValueIn, Field, FieldValue, StatusLine, StatusCode, IsValue, ETag, Decimal, AnnouncedLength, Ascii;
    var length, tag, cache := Decimal(AnnouncedLength(entry, native)), ETag(entry.crc32), Ascii("max-age=180, public");
    StatusLineReads(200, "OK");
    LinesAre(entry, native, mime);
    CodingNames(native);
    TagField(entry.crc32);
    match EncodingName(native)
    case Some(coding) => CodedFields(mime, coding, length, tag, cache);
    case None => PlainFields(mime, length, tag, cache);
  }
}
