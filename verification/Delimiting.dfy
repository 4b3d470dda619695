/** A client takes no part of a response for a whole one: what it reads is settled by the bytes it has read. */
module Delimiting {
  import opened Bytes
  import opened Framing
  import opened Chunking
  import opened Messages
  import opened Replies
  import Numerals

  lemma IndexOfExtends(s: bytes, b: byte, rest: bytes)
    requires IndexOf(s, b).Some?
    ensures IndexOf(s + rest, b) == IndexOf(s, b)
  {
    var i := IndexOf(s, b).value;
    assert (s + rest)[..i] == s[..i];
    IndexIs(s + rest, b, i);
  }

  lemma SizeLineExtends(s: bytes, rest: bytes)
    requires ReadSizeLine(s).Some?
    ensures ReadSizeLine(s + rest) == ReadSizeLine(s)
  {
    IndexOfExtends(s, CR, rest);
    var i := IndexOf(s, CR).value;
    assert (s + rest)[..i] == s[..i];
  }

  /** A chunked body that is complete stays the same body, whatever follows. */
  lemma {:induction false} DechunkExtends(s: bytes, rest: bytes)
    requires Dechunk(s).Some?
    ensures Dechunk(s + rest) == Some(Chunking.Decoded.Decoded(Dechunk(s).value.body, Dechunk(s).value.rest + rest))
    decreases |s|
  {
    hide ReadSizeLine;
    SizeLineExtends(s, rest);
    var line := ReadSizeLine(s).value;
    var end := line.start + line.size;
    assert (s + rest)[end + 2..] == s[end + 2..] + rest;
    if line.size > 0 {
      DechunkExtends(s[end + 2..], rest);
      assert (s + rest)[line.start..end] == s[line.start..end];
    }
  }

  /** A response that was received stays the same response, whatever follows. */
  lemma ReceiveExtends(s: bytes, rest: bytes)
    requires Receive(s).Some?
    ensures Receive(s + rest) == Some(Received(Receive(s).value.response, Receive(s).value.rest + rest))
  {
    hide FindHeadersEnd, LinesOf, FieldValue, StatusCode, Dechunk;
    HeadersEndInExtension(s, rest);
    var end := FindHeadersEnd(s).value;
    var lines := LinesOf(s[..end - 2]);
    assert (s + rest)[..end - 2] == s[..end - 2];
    assert (s + rest)[end..] == s[end..] + rest;
    if StatusCode(lines[0]) == Some(304) {
    } else if FieldValue(lines[1..], Ascii("transfer-encoding")) == Some(Ascii("chunked")) {
      DechunkExtends(s[end..], rest);
    } else {
      var n := Numerals.DecimalValue(FieldValue(lines[1..], Ascii("content-length")).value).value;
      assert (s + rest)[end..end + n] == s[end..end + n];
      assert (s + rest)[end + n..] == s[end + n..] + rest;
    }
  }

  /** A client that has only part of a reply waits for more. */
  lemma PartIsNotReceived(part: bytes, reply: bytes, response: Response)
    requires Delimits(reply, response) && part < reply
    ensures Receive(part) == None
  {
    hide Receive;
    var rest := reply[|part|..];
    assert part + rest == reply == reply + [];
    assert Receive(reply + []) == Some(Received(response, []));
    if Receive(part).Some? {
      ReceiveExtends(part, rest);
    }
  }

  /** Of whole replies and part of one more, a client receives the whole ones, and the last only if none of it is missing. */
  lemma PartlyReceived(replies: seq<bytes>, responses: seq<Response>, part: bytes, reply: bytes, response: Response)
    requires |replies| == |responses|
    requires forall i :: 0 <= i < |replies| ==> Delimits(replies[i], responses[i])
    requires part <= reply && Delimits(reply, response)
    ensures ReceiveAll(Concat(replies) + part) == responses + if part == reply then [response] else []
  {
    hide Receive;
    RepliesAreReceived(replies, responses, part);
    if part == reply {
      assert reply + [] == reply;
      assert Receive(reply) == Some(Received(response, []));
      assert Receive([]) == None by { NothingIsReceived(); }
    } else {
      PartIsNotReceived(part, reply, response);
    }
  }

  lemma NothingIsReceived()
    ensures Receive([]) == None
  {
  }
}
