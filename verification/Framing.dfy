/**
 Where one request ends and the next begins, as a function of the whole byte stream.
 Nothing here knows how the stream is cut into reads.
 */
module Framing {
  import opened Bytes

  const HEADERS_END: bytes := [13, 10, 13, 10]

  /** A window holding the terminator starts at `i`. */
  predicate TerminatorAt(s: bytes, i: int) {
    0 <= i && i + 4 <= |s| && s[i] == 13 && s[i + 1] == 10 && s[i + 2] == 13 && s[i + 3] == 10
  }

  predicate NoTerminatorBefore(s: bytes, n: int) {
    forall i :: 0 <= i < n ==> !TerminatorAt(s, i)
  }

  function FindFrom(s: bytes, i: nat): (end: Option<nat>)
    requires i <= |s|
    requires NoTerminatorBefore(s, i)
    ensures end.Some? ==> 4 <= end.value <= |s| && TerminatorAt(s, end.value - 4) && NoTerminatorBefore(s, end.value - 4)
    ensures end.None? ==> NoTerminatorBefore(s, |s|)
    decreases |s| - i
  {
    if i + 4 > |s| then None
    else if TerminatorAt(s, i) then Some(i + 4)
    else FindFrom(s, i + 1)
  }

  /** Where the headers end, just past the terminator. */
  function FindHeadersEnd(s: bytes): (end: Option<nat>)
    ensures end.Some? ==> 4 <= end.value <= |s| && TerminatorAt(s, end.value - 4) && NoTerminatorBefore(s, end.value - 4)
    ensures end.None? ==> NoTerminatorBefore(s, |s|)
  {
    FindFrom(s, 0)
  }

  /** How many windows the search looks at before it stops. */
  function WindowsExamined(s: bytes): nat {
    match FindHeadersEnd(s)
    case Some(end) => end - 3
    case None => Max(|s| - 3, 0)
  }

  lemma HeadersEndIsUnique(s: bytes, end: nat)
    requires 4 <= end <= |s| && TerminatorAt(s, end - 4) && NoTerminatorBefore(s, end - 4)
    ensures FindHeadersEnd(s) == Some(end)
  {
    assert FindHeadersEnd(s).Some?;
  }

  /** What comes behind a terminator does not move it. */
  lemma HeadersEndInExtension(s: bytes, rest: bytes)
    requires FindHeadersEnd(s).Some?
    ensures FindHeadersEnd(s + rest) == FindHeadersEnd(s)
  {
    var end := FindHeadersEnd(s).value;
    forall i | 0 <= i < end - 4
      ensures !TerminatorAt(s + rest, i)
    {
      assert !TerminatorAt(s, i);
    }
    HeadersEndIsUnique(s + rest, end);
  }

  predicate EndsInTerminator(s: bytes) {
    |s| >= 4 && s[|s| - 4..] == HEADERS_END
  }

  /** `n` bytes are the shortest prefix of `s` that ends in CRLFCRLF. */
  ghost predicate ShortestRequest(s: bytes, n: nat) {
    && n <= |s|
    && EndsInTerminator(s[..n])
    && forall m :: 0 <= m < n ==> !EndsInTerminator(s[..m])
  }

  datatype Frame = Framed(len: nat) | PeerClosed

  /**
   The next request of a stream that ends after `stream`, for a reader of `capacity` bytes:
   the shortest prefix ending in CRLFCRLF if the reader can hold it, otherwise as much as
   the reader holds, otherwise nothing because the peer closed first.
   */
  function NextFrame(stream: bytes, capacity: nat): (f: Frame)
    ensures f.Framed? ==> f.len <= |stream| && f.len <= capacity
    ensures f.Framed? && capacity > 0 ==> f.len > 0
    ensures f.PeerClosed? ==> |stream| < capacity
  {
    var held := stream[..Min(capacity, |stream|)];
    match FindHeadersEnd(held)
    case Some(end) => Framed(end)
    case None => if |stream| >= capacity then Framed(capacity) else PeerClosed
  }

  lemma EndsInTerminatorWhere(s: bytes, n: nat)
    requires n <= |s|
    ensures EndsInTerminator(s[..n]) <==> TerminatorAt(s, n - 4)
  {
    if n >= 4 {
      assert s[..n][n - 4..] == s[n - 4..n];
      assert s[n - 4..n] == [s[n - 4], s[n - 3], s[n - 2], s[n - 1]];
    }
  }

  lemma ShortestRequestIs(s: bytes, n: nat)
    ensures ShortestRequest(s, n) <==> FindHeadersEnd(s) == Some(n)
  {
    forall m: nat | m <= |s|
      ensures EndsInTerminator(s[..m]) <==> TerminatorAt(s, m - 4)
    {
      EndsInTerminatorWhere(s, m);
    }
    if ShortestRequest(s, n) {
      forall i | 0 <= i < n - 4
        ensures !TerminatorAt(s, i)
      {
        assert !EndsInTerminator(s[..i + 4]);
      }
      HeadersEndIsUnique(s, n);
    }
    if FindHeadersEnd(s) == Some(n) {
      forall m | 0 <= m < n
        ensures !EndsInTerminator(s[..m])
      {
        assert !TerminatorAt(s, m - 4);
      }
    }
  }

  lemma HeadersEndInPrefix(s: bytes, n: nat)
    requires n <= |s|
    ensures FindHeadersEnd(s[..n]).Some? <==> FindHeadersEnd(s).Some? && FindHeadersEnd(s).value <= n
    ensures FindHeadersEnd(s[..n]).Some? ==> FindHeadersEnd(s[..n]) == FindHeadersEnd(s)
  {
    assert s[..n] + s[n..] == s;
    if FindHeadersEnd(s[..n]).Some? {
      HeadersEndInExtension(s[..n], s[n..]);
    } else if FindHeadersEnd(s).Some? && FindHeadersEnd(s).value <= n {
      assert TerminatorAt(s[..n], FindHeadersEnd(s).value - 4);
      assert false;
    }
  }

  /** Exactly which of the three cases a stream falls into, in terms of its prefixes alone. */
  lemma NextFrameCases(stream: bytes, capacity: nat, n: nat)
    requires capacity > 0
    ensures NextFrame(stream, capacity) == Framed(n) <==>
            || (n <= capacity && ShortestRequest(stream, n))
            || (n == capacity <= |stream| && forall m :: 0 <= m <= capacity ==> !ShortestRequest(stream, m))
    ensures NextFrame(stream, capacity) == PeerClosed <==>
            |stream| < capacity && forall m :: 0 <= m <= |stream| ==> !ShortestRequest(stream, m)
  {
    HeadersEndInPrefix(stream, Min(capacity, |stream|));
    forall m: nat
      ensures ShortestRequest(stream, m) <==> FindHeadersEnd(stream) == Some(m)
    {
      ShortestRequestIs(stream, m);
    }
  }

  /** All requests of a stream, in order, up to where the peer closes. */
  function Split(stream: bytes, capacity: nat): (frames: seq<bytes>)
    requires capacity > 0
    decreases |stream|
  {
    match NextFrame(stream, capacity)
    case PeerClosed => []
    case Framed(n) => [stream[..n]] + Split(stream[n..], capacity)
  }

  /** Splitting loses and invents nothing; what is left over is an unfinished request. */
  lemma {:induction false} SplitCoversStream(stream: bytes, capacity: nat)
    requires capacity > 0
    ensures |Concat(Split(stream, capacity))| <= |stream|
    ensures Concat(Split(stream, capacity)) == stream[..|Concat(Split(stream, capacity))|]
    ensures NextFrame(stream[|Concat(Split(stream, capacity))|..], capacity) == PeerClosed
    decreases |stream|
  {
    hide NextFrame;
    match NextFrame(stream, capacity)
    case PeerClosed =>
      assert stream[0..] == stream;
    case Framed(n) =>
      SplitCoversStream(stream[n..], capacity);
      var tail := Concat(Split(stream[n..], capacity));
      assert Split(stream, capacity)[1..] == Split(stream[n..], capacity);
      assert stream[..n] + stream[n..][..|tail|] == stream[..n + |tail|];
      assert stream[n..][|tail|..] == stream[n + |tail|..];
  }
}
