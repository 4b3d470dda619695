/** The chunked coding of section 7.1 of RFC 9112, and how texts are packed into chunks. */
module Chunking {
  import opened Bytes
  import opened Numerals

  const DIGIT_COUNT: nat := 16
  const SIZE_LEN: nat := 18
  const TERMINATOR: bytes := [48, 13, 10, 13, 10]
  const MAX_USIZE: nat := 0x1_0000_0000_0000_0000

  function Chunk(payload: bytes): bytes {
    Hex(|payload|, DIGIT_COUNT) + CRLF + payload + CRLF
  }

  /** Chunks one after the other, without the terminator. */
  function Frames(chunks: seq<bytes>): bytes {
    if chunks == [] then [] else Frames(chunks[..|chunks| - 1]) + Chunk(chunks[|chunks| - 1])
  }

  // ---------- A client's side ----------

  datatype Decoded = Decoded(body: bytes, rest: bytes)

  /** The position behind a CRLF at `i`, if there is one. */
  predicate LineEndAt(s: bytes, i: nat) {
    i + 2 <= |s| && s[i] == CR && s[i + 1] == LF
  }

  /** A chunk's size line: the size, and where the data behind it starts. */
  datatype SizeLine = SizeLine(size: nat, start: nat)

  function ReadSizeLine(s: bytes): (line: Option<SizeLine>)
    ensures line.Some? ==> 3 <= line.value.start <= |s|
  {
    match IndexOf(s, CR)
    case None => None
    case Some(i) =>
      if i == 0 || !LineEndAt(s, i) then None
      else match HexValue(s[..i])
        case None => None
        case Some(size) => Some(SizeLine(size, i + 2))
  }

  /** Decodes a chunked body without extensions or trailer fields, and tells what follows it. */
  function Dechunk(s: bytes): (d: Option<Decoded>)
    ensures d.Some? ==> |d.value.rest| < |s|
    decreases |s|
  {
    match ReadSizeLine(s)
    case None => None
    case Some(line) =>
      var end := line.start + line.size;
      if !LineEndAt(s, end) then None
      else if line.size == 0 then Some(Decoded([], s[end + 2..]))
      else match Dechunk(s[end + 2..])
        case None => None
        case Some(d) => Some(Decoded(s[line.start..end] + d.body, d.rest))
  }

  lemma PowersOf16()
    ensures Pow(16, DIGIT_COUNT) == MAX_USIZE
  {
    assert Pow(16, 4) == 0x1_0000;
    assert Pow(16, 8) == 0x1_0000_0000 by { assert Pow(16, 6) == 0x100_0000; }
    assert Pow(16, 12) == 0x1_0000_0000_0000 by { assert Pow(16, 10) == 0x100_0000_0000; }
    assert Pow(16, 14) == 0x100_0000_0000_0000;
  }

  lemma NoLineEndInDigits(digits: bytes)
    requires forall i :: 0 <= i < |digits| ==> HexDigitValue(digits[i]).Some?
    ensures CR !in digits
  {
  }

  /** A size line is read back, whatever follows it. */
  lemma SizeLineReads(digits: bytes, size: nat, rest: bytes)
    requires digits != [] && HexValue(digits) == Some(size)
    requires forall i :: 0 <= i < |digits| ==> HexDigitValue(digits[i]).Some?
    ensures ReadSizeLine(digits + CRLF + rest) == Some(SizeLine(size, |digits| + 2))
  {
    var s := digits + CRLF + rest;
    NoLineEndInDigits(digits);
    assert s[..|digits|] == digits;
    IndexIs(s, CR, |digits|);
  }

  lemma SliceBehind(a: bytes, b: bytes, c: bytes)
    ensures (a + (b + c))[|a|..|a| + |b|] == b && (a + (b + c))[|a| + |b|..] == c
  {
  }

  lemma ChunkReads(s: bytes, payload: bytes, rest: bytes)
    requires payload != [] && ReadSizeLine(s) == Some(SizeLine(|payload|, SIZE_LEN))
    requires SIZE_LEN + |payload| + 2 <= |s|
    requires s[SIZE_LEN..SIZE_LEN + |payload|] == payload && s[SIZE_LEN + |payload|..] == CRLF + rest
    ensures Dechunk(s) ==
            match Dechunk(rest)
            case None => None
            case Some(d) => Some(Decoded(payload + d.body, d.rest))
  {
    hide ReadSizeLine;
    var end := SIZE_LEN + |payload|;
    assert s[end..][0] == CR && s[end..][1] == LF;
    assert s[end + 2..] == s[end..][2..] == rest;
  }

  lemma ChunkSlices(payload: bytes, rest: bytes)
    ensures var s, n := Chunk(payload) + rest, |payload|;
            && s == Hex(n, DIGIT_COUNT) + CRLF + (payload + CRLF + rest)
            && |s| >= SIZE_LEN + n + 2
            && s[SIZE_LEN..SIZE_LEN + n] == payload && s[SIZE_LEN + n..] == CRLF + rest
  {
    hide Hex;
    var digits := Hex(|payload|, DIGIT_COUNT);
    assert Chunk(payload) + rest == digits + CRLF + (payload + CRLF + rest);
    assert payload + CRLF + rest == payload + (CRLF + rest);
    SliceBehind(digits + CRLF, payload, CRLF + rest);
  }

  /** One chunk decodes to its payload. */
  lemma DechunkChunk(payload: bytes, rest: bytes)
    requires 0 < |payload| < MAX_USIZE
    ensures Dechunk(Chunk(payload) + rest) ==
            match Dechunk(rest)
            case None => None
            case Some(d) => Some(Decoded(payload + d.body, d.rest))
  {
    PowersOf16();
    HexRoundTrip(|payload|, DIGIT_COUNT);
    SizeLineReads(Hex(|payload|, DIGIT_COUNT), |payload|, payload + CRLF + rest);
    ChunkSlices(payload, rest);
    hide Hex, HexValue, Pow, ReadSizeLine, Chunk, Dechunk;
    ChunkReads(Chunk(payload) + rest, payload, rest);
  }

  lemma DechunkTerminator(rest: bytes)
    ensures Dechunk(TERMINATOR + rest) == Some(Decoded([], rest))
  {
    var s := TERMINATOR + rest;
    assert HexValue([48]) == Some(0) by { assert [48][..0] == []; }
    assert s == [48] + CRLF + (CRLF + rest);
    SizeLineReads([48], 0, CRLF + rest);
    assert s[5..] == rest;
  }

  predicate Payloads(chunks: seq<bytes>) {
    forall i :: 0 <= i < |chunks| ==> 0 < |chunks[i]| < MAX_USIZE
  }

  lemma {:induction false} DechunkFrames(chunks: seq<bytes>, rest: bytes)
    requires Payloads(chunks)
    ensures Dechunk(Frames(chunks) + rest) ==
            match Dechunk(rest)
            case None => None
            case Some(d) => Some(Decoded(Concat(chunks) + d.body, d.rest))
  {
    hide Dechunk, Chunk;
    if chunks == [] {
      assert Frames(chunks) + rest == rest;
      assert Dechunk(rest).Some? ==> [] + Dechunk(rest).value.body == Dechunk(rest).value.body;
    } else {
      var front, last := chunks[..|chunks| - 1], chunks[|chunks| - 1];
      assert Frames(chunks) + rest == Frames(front) + (Chunk(last) + rest);
      DechunkFrames(front, Chunk(last) + rest);
      DechunkChunk(last, rest);
      assert chunks == front + [last];
      ConcatDistributes(front, [last]);
      ConcatSingle(last);
      if Dechunk(rest).Some? {
        var body := Dechunk(rest).value.body;
        assert Concat(front) + (last + body) == Concat(chunks) + body;
      }
    }
  }

  /** A terminated body decodes to what was chunked, and the decoder stops right behind it. */
  lemma ChunkedRoundTrip(chunks: seq<bytes>, rest: bytes)
    requires Payloads(chunks)
    ensures Dechunk(Frames(chunks) + TERMINATOR + rest) == Some(Decoded(Concat(chunks), rest))
  {
    hide Dechunk, Frames;
    assert Frames(chunks) + TERMINATOR + rest == Frames(chunks) + (TERMINATOR + rest);
    DechunkTerminator(rest);
    DechunkFrames(chunks, TERMINATOR + rest);
    assert Concat(chunks) + [] == Concat(chunks);
  }

  /** Without the terminator a client cannot take the body for complete. */
  lemma UnterminatedIsRejected(chunks: seq<bytes>)
    requires Payloads(chunks)
    ensures Dechunk(Frames(chunks)) == None
  {
    assert Frames(chunks) + [] == Frames(chunks);
    DechunkFrames(chunks, []);
  }

  // ---------- Packing ----------

  /** Chunks in order; if the packing was refused, those sent before the text that fits nowhere. */
  datatype Packing = Packing(chunks: seq<bytes>, complete: bool)
  {
    function Behind(flushed: seq<bytes>): Packing {
      Packing(flushed + chunks, complete)
    }
  }

  /**
   Texts appended to the `pending` chunk, which takes `room` bytes; later chunks take
   `later`. A chunk leaves when it cannot hold the next text whole, and a text that not
   even an empty chunk holds ends the packing.
   */
  function Pack(texts: seq<bytes>, pending: bytes, room: nat, later: nat): Packing {
    if texts == [] then Packing([pending], true)
    else if |pending| + |texts[0]| <= room then Pack(texts[1..], pending + texts[0], room, later)
    else if pending == [] then Packing([], false)
    else if |texts[0]| <= later then Pack(texts[1..], texts[0], later, later).Behind([pending])
    else Packing([pending], false)
  }

  /** A complete packing holds exactly the texts, in nonempty chunks that fit. */
  lemma {:induction false} PackingHoldsTexts(texts: seq<bytes>, pending: bytes, room: nat, later: nat)
    requires |pending| <= room
    requires forall i :: 0 <= i < |texts| ==> texts[i] != []
    ensures var p := Pack(texts, pending, room, later);
            && (p.complete ==> p.chunks != [] && Concat(p.chunks) == pending + Concat(texts))
            && (forall i :: 0 <= i < |p.chunks| ==> |p.chunks[i]| <= if i == 0 then room else later)
            && (pending != [] || texts != [] ==> forall i :: 0 <= i < |p.chunks| ==> p.chunks[i] != [])
  {
    if texts == [] {
      ConcatSingle(pending);
    } else {
      var t, rest := texts[0], texts[1..];
      if |pending| + |t| <= room {
        PackingHoldsTexts(rest, pending + t, room, later);
        assert (pending + t) + Concat(rest) == pending + Concat(texts);
      } else if pending != [] && |t| <= later {
        PackingHoldsTexts(rest, t, later, later);
        var q := Pack(rest, t, later, later);
        assert Pack(texts, pending, room, later).chunks == [pending] + q.chunks;
        assert Concat([pending] + q.chunks) == pending + Concat(q.chunks) by {
          assert ([pending] + q.chunks)[1..] == q.chunks;
        }
      }
    }
  }

  /** Complete or not, what was packed begins the texts. */
  lemma {:induction false} PackingHoldsStart(texts: seq<bytes>, pending: bytes, room: nat, later: nat)
    ensures Concat(Pack(texts, pending, room, later).chunks) <= pending + Concat(texts)
  {
    ConcatSingle(pending);
    if texts != [] {
      var t, rest := texts[0], texts[1..];
      if |pending| + |t| <= room {
        PackingHoldsStart(rest, pending + t, room, later);
        assert (pending + t) + Concat(rest) == pending + Concat(texts);
      } else if pending != [] && |t| <= later {
        PackingHoldsStart(rest, t, later, later);
        var q := Pack(rest, t, later, later);
        assert ([pending] + q.chunks)[1..] == q.chunks;
        assert pending + (t + Concat(rest)) == pending + Concat(texts);
      }
    }
  }

  /** It is refused exactly when the first text overflows the first chunk or a later one any chunk. */
  lemma {:induction false} RefusedExactlyWhen(texts: seq<bytes>, pending: bytes, room: nat, later: nat)
    requires |pending| <= room <= later
    requires forall i :: 0 <= i < |texts| ==> texts[i] != []
    ensures Pack(texts, pending, room, later).complete <==>
            forall i :: 0 <= i < |texts| ==> |texts[i]| <= if i == 0 && pending == [] then room else later
  {
    if texts != [] {
      var t, rest := texts[0], texts[1..];
      assert forall i :: 0 < i < |texts| ==> texts[i] == rest[i - 1];
      assert forall i :: 0 <= i < |rest| ==> rest[i] == texts[i + 1];
      if |pending| + |t| <= room {
        RefusedExactlyWhen(rest, pending + t, room, later);
      } else if pending != [] && |t| <= later {
        RefusedExactlyWhen(rest, t, later, later);
      }
    }
  }

  /** The first text fits `room`, and every other one `later`. */
  ghost predicate AllFit(texts: seq<bytes>, room: nat, later: nat) {
    forall i :: 0 <= i < |texts| ==> |texts[i]| <= if i == 0 then room else later
  }

  lemma CompleteWhenAllFit(texts: seq<bytes>, room: nat, later: nat)
    requires room <= later && forall i :: 0 <= i < |texts| ==> texts[i] != []
    ensures Pack(texts, [], room, later).complete <==> AllFit(texts, room, later)
  {
    hide Pack;
    RefusedExactlyWhen(texts, [], room, later);
  }

  // ---------- No packing uses fewer chunks ----------

  function Flatten(groups: seq<seq<bytes>>): seq<bytes> {
    if groups == [] then [] else groups[0] + Flatten(groups[1..])
  }

  /** A division of texts, in order, into chunks of these capacities. */
  ghost predicate Divides(groups: seq<seq<bytes>>, texts: seq<bytes>, room: nat, later: nat) {
    && groups != []
    && Flatten(groups) == texts
    && |Concat(groups[0])| <= room
    && forall i :: 1 <= i < |groups| ==> |Concat(groups[i])| <= later
  }

  /** How many chunks the packing uses, the pending one with `free` bytes left included. */
  function ChunksNeeded(texts: seq<bytes>, free: int, later: nat): nat {
    if texts == [] then 1
    else if |texts[0]| <= free then ChunksNeeded(texts[1..], free - |texts[0]|, later)
    else 1 + ChunksNeeded(texts[1..], later - |texts[0]|, later)
  }

  lemma {:induction false} PackUses(texts: seq<bytes>, pending: bytes, room: nat, later: nat)
    requires |pending| <= room && Pack(texts, pending, room, later).complete
    ensures |Pack(texts, pending, room, later).chunks| == ChunksNeeded(texts, room - |pending|, later)
  {
    if texts != [] {
      if |pending| + |texts[0]| <= room {
        PackUses(texts[1..], pending + texts[0], room, later);
      } else {
        PackUses(texts[1..], texts[0], later, later);
      }
    }
  }

  /** More room never needs more chunks, and at most a whole chunk's worth fewer. */
  lemma {:induction false} MoreRoom(texts: seq<bytes>, less: int, more: int, later: nat)
    requires less <= more <= later
    ensures ChunksNeeded(texts, more, later) <= ChunksNeeded(texts, less, later) <= ChunksNeeded(texts, more, later) + 1
  {
    if texts != [] {
      var n, rest := |texts[0]|, texts[1..];
      if n <= less {
        MoreRoom(rest, less - n, more - n, later);
      } else if n <= more {
        MoreRoom(rest, more - n, later - n, later);
      }
    }
  }

  lemma {:induction false} DivisionNeeds(groups: seq<seq<bytes>>, texts: seq<bytes>, room: nat, later: nat)
    requires Divides(groups, texts, room, later) && room <= later
    ensures ChunksNeeded(texts, room, later) <= |groups|
    decreases |groups|, |groups[0]|
  {
    var first, others := groups[0], groups[1..];
    if first == [] {
      if others == [] {
        assert texts == [];
      } else {
        assert texts == Flatten(others);
        DivisionNeeds(others, texts, later, later);
        MoreRoom(texts, room, later, later);
      }
    } else {
      var less := [first[1..]] + others;
      assert less[1..] == others;
      assert texts == first + Flatten(others);
      assert texts[0] == first[0] && texts[1..] == first[1..] + Flatten(others);
      assert Flatten(less) == texts[1..];
      assert Concat(first) == first[0] + Concat(first[1..]);
      DivisionNeeds(less, texts[1..], room - |first[0]|, later);
    }
  }

  /** No division of the same texts into chunks of these capacities uses fewer. */
  lemma PackingIsMinimal(groups: seq<seq<bytes>>, texts: seq<bytes>, room: nat, later: nat)
    requires room <= later && Pack(texts, [], room, later).complete
    requires Divides(groups, texts, room, later)
    ensures |Pack(texts, [], room, later).chunks| <= |groups|
  {
    PackUses(texts, [], room, later);
    DivisionNeeds(groups, texts, room, later);
  }
}
