/** Responses, laid out in one buffer and written from its start. */
module Responding {
  import opened Bytes
  import opened Numerals
  import opened Chunking
  import opened Listing
  import opened Messages
  import opened EntryBodies
  import Io
  import Coding
  import Requests

  /** How a write of several pieces ends. */
  datatype Sending = Sent | Refused | Aborted

  /** A chunk on its way: the payload is `len` bytes long, and `prefix` bytes of something else, then its size line, go in front. */
  datatype PendingChunk = PendingChunk(prefix: nat, len: nat)

  datatype Appended = Appended(chunk: PendingChunk) | NoRoom | Broken

  /** `s` with `data` in place of what stood at `at`. */
  function Overwritten(s: bytes, at: nat, data: bytes): (r: bytes)
    requires at + |data| <= |s|
    ensures |r| == |s|
  {
    s[..at] + data + s[at + |data|..]
  }

  class ResponseStream {
    const sink: Io.Sink
    const buf: array<byte>

    constructor (sink: Io.Sink, buf: array<byte>)
      ensures this.sink == sink && this.buf == buf
    {
      this.sink, this.buf := sink, buf;
    }

    method Put(at: nat, data: bytes)
      requires at + |data| <= buf.Length
      modifies buf
      ensures buf[..] == Overwritten(old(buf[..]), at, data)
    {
      forall i | 0 <= i < |data| {
        buf[at + i] := data[i];
      }
    }

    /**
     Formats `text` behind the first `len` bytes of `buf[start..limit]`. If it does not
     fit, whatever was partially written there is to be disregarded.
     */
    method AppendFmt(start: nat, limit: nat, len: nat, text: bytes) returns (ok: bool)
      requires start + len <= limit <= buf.Length
      modifies buf
      ensures ok <==> start + len + |text| <= limit
      ensures ok ==> buf[..] == Overwritten(old(buf[..]), start + len, text)
      ensures !ok ==> buf[..start + len] == old(buf[..start + len])
    {
      if start + len + |text| <= limit {
        Put(start + len, text);
        return true;
      }
      var partial: nat :| 0 <= partial <= limit - start - len;
      Put(start + len, text[..partial]);
      return false;
    }

    /**
     One write for the chunk, framed, what stands in front of it, and behind the last chunk
     the terminator.
     */
    method FlushChunk(chunk: PendingChunk, isLast: bool) returns (ok: bool)
      requires sink.Valid() && buf.Length < MAX_USIZE
      requires chunk.prefix + SIZE_LEN + chunk.len + 2 + (if isLast then |TERMINATOR| else 0) <= buf.Length
      modifies sink, buf
      ensures sink.Valid()
      ensures var start := chunk.prefix + SIZE_LEN;
              var wire := old(buf[..chunk.prefix]) + Chunk(old(buf[start..start + chunk.len])) + (if isLast then TERMINATOR else []);
              && (ok ==> sink.sent == old(sink.sent) + wire && sink.writes == old(sink.writes) + [wire])
              && (!ok ==> old(sink.sent) <= sink.sent <= old(sink.sent) + wire)
      ensures sink.failures == old(sink.failures) + if ok then 0 else 1
    {
      var end := FrameChunk(chunk, isLast);
      ok := sink.WriteAll(buf, end);
    }

    /** Frames `chunk` where it stands, and tells where it ends. */
    method FrameChunk(chunk: PendingChunk, isLast: bool) returns (end: nat)
      requires buf.Length < MAX_USIZE
      requires chunk.prefix + SIZE_LEN + chunk.len + 2 + (if isLast then |TERMINATOR| else 0) <= buf.Length
      modifies buf
      ensures end <= buf.Length
      ensures var start := chunk.prefix + SIZE_LEN;
              buf[..end] == old(buf[..chunk.prefix]) + Chunk(old(buf[start..start + chunk.len])) + (if isLast then TERMINATOR else [])
    {
      hide Hex, Overwritten, Chunk;
      var PendingChunk(prefix, len) := chunk;
      ghost var whole := buf[..];
      var payloadEnd := prefix + SIZE_LEN + len;
      Put(payloadEnd, CRLF);
      Put(prefix, Hex(len, DIGIT_COUNT));
      Put(prefix + DIGIT_COUNT, CRLF);
      end := payloadEnd + 2;
      if isLast {
        Put(end, TERMINATOR);
        end := end + |TERMINATOR|;
      }
      FramedChunk(whole, prefix, len, isLast);
      assert buf[..end] == buf[..][..end];
      assert whole[..prefix] == old(buf[..prefix]);
      assert whole[prefix + SIZE_LEN..payloadEnd] == old(buf[prefix + SIZE_LEN..prefix + SIZE_LEN + len]);
    }

    /** The room of the chunk behind those flushed. */
    ghost function RoomBehind(flushed: seq<bytes>): nat
      requires BufSuits(buf.Length)
    {
      if flushed == [] then FirstRoom(buf.Length) else LaterRoom(buf.Length)
    }

    /** The state of a listing on its way: the chunks flushed and the text pending behind them. */
    ghost predicate Staged(chunk: PendingChunk, first: bytes, flushed: seq<bytes>, pending: bytes)
      reads this, sink, buf
    {
      && sink.Valid() && BufSuits(buf.Length)
      && chunk.prefix == (if flushed == [] then |IndexHeader()| else 0)
      && chunk.len == |pending|
      && chunk.prefix + SIZE_LEN + chunk.len <= ChunkLimit(buf.Length)
      && buf[chunk.prefix + SIZE_LEN..chunk.prefix + SIZE_LEN + chunk.len] == pending
      && (flushed == [] ==> buf[..|IndexHeader()|] == IndexHeader())
      && sink.sent == first + Flushed(flushed)
    }

    /** Puts `text` behind the pending payload, or into a chunk of its own after a flush; a text is never divided. */
    method AppendFmtChunked(chunk: PendingChunk, text: bytes, ghost first: bytes, ghost flushed: seq<bytes>, ghost pending: bytes)
      returns (r: Appended, ghost flushed': seq<bytes>, ghost pending': bytes)
      requires Staged(chunk, first, flushed, pending) && BufSuits(buf.Length) && chunk.len == |pending|
      modifies sink, buf
      ensures sink.Valid()
      ensures r.Appended? ==> Staged(r.chunk, first, flushed', pending')
      ensures sink.failures == old(sink.failures) + if r.Broken? then 1 else 0
      ensures var room := RoomBehind(flushed);
              match r
              case Appended(_) =>
                if |pending| + |text| <= room then flushed' == flushed && pending' == pending + text
                else pending != [] && |text| <= LaterRoom(buf.Length) && flushed' == flushed + [pending] && pending' == text
              case NoRoom =>
                && |pending| + |text| > room
                && (pending != [] ==> |text| > LaterRoom(buf.Length))
                && flushed' == (if pending == [] then flushed else flushed + [pending])
                && sink.sent == first + Flushed(flushed')
              case Broken =>
                && |pending| + |text| > room && pending != []
                && first + Flushed(flushed) <= sink.sent <= first + Flushed(flushed + [pending])
    {
      hide Staged, Flushed, IndexHeader;
      var chunk := chunk;
      flushed', pending' := flushed, pending;
      while true
        invariant Staged(chunk, first, flushed', pending') && chunk.len == |pending'| && sink.failures == old(sink.failures)
        invariant (flushed' == flushed && pending' == pending)
               || (flushed' == flushed + [pending] && pending' == [] && pending != [] && |pending| + |text| > RoomBehind(flushed))
        decreases chunk.len
      {
        var ok := TryAppend(chunk, text, first, flushed', pending');
        if ok {
          return Appended(PendingChunk(chunk.prefix, chunk.len + |text|)), flushed', pending' + text;
        }
        if chunk.len == 0 {
          // A flush would gain nothing.
          return NoRoom, flushed', pending';
        }
        ok := FlushPending(chunk, first, flushed', pending');
        flushed', pending' := flushed + [pending], [];
        if !ok {
          return Broken, flushed', pending';
        }
        chunk := PendingChunk(0, 0);
      }
    }

    method TryAppend(chunk: PendingChunk, text: bytes, ghost first: bytes, ghost flushed: seq<bytes>, ghost pending: bytes)
      returns (ok: bool)
      requires Staged(chunk, first, flushed, pending) && BufSuits(buf.Length)
      modifies buf
      ensures ok <==> |pending| + |text| <= RoomBehind(flushed)
      ensures ok ==> Staged(PendingChunk(chunk.prefix, chunk.len + |text|), first, flushed, pending + text)
      ensures !ok ==> Staged(chunk, first, flushed, pending)
      ensures sink.Valid() && sink.sent == first + Flushed(flushed)
    {
      hide IndexHeader, Flushed, Overwritten;
      ghost var before := buf[..];
      var start := chunk.prefix + SIZE_LEN;
      ok := AppendFmt(start, ChunkLimit(buf.Length), chunk.len, text);
      ghost var after := buf[..];
      if ok {
        TextBehind(before, start, chunk.len, text);
      } else {
        assert after[..start + chunk.len] == buf[..start + chunk.len];
        assert before[..start + chunk.len] == old(buf[..start + chunk.len]);
      }
      StagedStays(before, after, chunk);
      assert buf[start..start + chunk.len] == after[start..start + chunk.len] && buf[..chunk.prefix] == after[..chunk.prefix];
      if ok {
        TextBehind(before, start, chunk.len, text);
        assert buf[start..start + chunk.len + |text|] == after[start..start + chunk.len + |text|];
      }
    }

    method FlushPending(chunk: PendingChunk, ghost first: bytes, ghost flushed: seq<bytes>, ghost pending: bytes) returns (ok: bool)
      requires Staged(chunk, first, flushed, pending) && BufSuits(buf.Length)
      modifies sink, buf
      ensures ok ==> Staged(PendingChunk(0, 0), first, flushed + [pending], [])
      ensures !ok ==> first + Flushed(flushed) <= sink.sent <= first + Flushed(flushed + [pending])
      ensures sink.failures == old(sink.failures) + if ok then 0 else 1
      ensures sink.Valid()
    {
      hide IndexHeader, Flushed, Chunk;
      OneMoreFlushed(flushed, pending);
      assert buf[..chunk.prefix] == if flushed == [] then IndexHeader() else [];
      ok := FlushChunk(chunk, false);
    }

    /**
     Sends a directory listing. All of it left, or it was refused after whole chunks and
     without the terminator, or a write failed and a prefix of what was to leave left.
     */
    method ServeIndex(markup: Markup, isRoot: bool, children: seq<FsNode>) returns (outcome: Sending)
      requires sink.Valid() && BufSuits(buf.Length)
      modifies sink, buf
      ensures sink.Valid()
      ensures var p := ListingPacked(markup, isRoot, children, buf.Length);
              match outcome
              case Sent => p.complete && sink.sent == old(sink.sent) + IndexHeader() + (Frames(p.chunks) + TERMINATOR)
              case Refused => !p.complete && sink.sent == old(sink.sent) + Flushed(p.chunks)
              case Aborted =>
                && old(sink.sent) <= sink.sent
                && sink.sent <= if p.complete then old(sink.sent) + IndexHeader() + (Frames(p.chunks) + TERMINATOR) else old(sink.sent) + Flushed(p.chunks)
      ensures sink.failures == old(sink.failures) + if outcome == Aborted then 1 else 0
    {
      hide IndexHeader, Staged, Flushed, Pack, Rows, Row, Frames, FirstRoom, LaterRoom, Top;
      ghost var first, texts := sink.sent, Texts(markup, isRoot, children);
      // Staged in front of the first chunk, to leave with it.
      StageHeader();
      var chunk := PendingChunk(|IndexHeader()|, 0);
      ghost var flushed, pending := [], [];
      var rows := Rows(markup, children, true) + Rows(markup, children, false);
      var i := 0;
      ghost var p := Pack(texts, [], FirstRoom(buf.Length), LaterRoom(buf.Length));
      assert texts[0..] == texts && p.Behind([]) == p;
      assert |texts| == |rows| + 1 && texts[0] == markup.preamble + Top(isRoot) && forall k :: 0 <= k < |rows| ==> texts[k + 1] == rows[k];
      hide Packing.Behind, Texts;
      while i <= |rows|
        invariant i <= |rows| + 1 == |texts|
        invariant Staged(chunk, first, flushed, pending) && chunk.len == |pending| && sink.failures == old(sink.failures)
        invariant p == Pack(texts[i..], pending, RoomBehind(flushed), LaterRoom(buf.Length)).Behind(flushed)
      {
        var text := if i == 0 then markup.preamble + Top(isRoot) else rows[i - 1];
        assert text == texts[i];
        ghost var flushedBefore, pendingBefore := flushed, pending;
        var r;
        r, flushed, pending := AppendFmtChunked(chunk, text, first, flushed, pending);
        PackedOn(texts, i, pendingBefore, flushedBefore, RoomBehind(flushedBefore), LaterRoom(buf.Length));
        match r {
          case Appended(next) =>
            chunk := next;
            StagedLen(chunk, first, flushed, pending);
          case NoRoom =>
            return Refused;
          case Broken =>
            CutWithin(first, flushedBefore, sink.sent, pendingBefore, p.chunks);
            return Aborted;
        }
        i := i + 1;
      }
      PackingDone(pending, RoomBehind(flushed), LaterRoom(buf.Length));
      PackedBehind(flushed, pending);
      assert texts[i..] == [];
      FlushedWithin(first, flushed + [pending], p.chunks);
      var ok := FlushLast(chunk, first, flushed, pending);
      outcome := if ok then Sent else Aborted;
    }

    lemma StagedLen(chunk: PendingChunk, first: bytes, flushed: seq<bytes>, pending: bytes)
      requires Staged(chunk, first, flushed, pending)
      ensures chunk.len == |pending|
    {
    }

    method StageHeader()
      requires sink.Valid() && BufSuits(buf.Length)
      modifies buf
      ensures Staged(PendingChunk(|IndexHeader()|, 0), sink.sent, [], [])
    {
      hide IndexHeader;
      Put(0, IndexHeader());
      assert buf[..|IndexHeader()|] == buf[..][..|IndexHeader()|] == IndexHeader();
    }

    method FlushLast(chunk: PendingChunk, ghost first: bytes, ghost flushed: seq<bytes>, ghost pending: bytes) returns (ok: bool)
      requires Staged(chunk, first, flushed, pending) && BufSuits(buf.Length)
      modifies sink, buf
      ensures sink.Valid()
      ensures ok ==> sink.sent == first + Flushed(flushed + [pending]) + TERMINATOR
      ensures !ok ==> first <= sink.sent <= first + Flushed(flushed + [pending]) + TERMINATOR
      ensures sink.failures == old(sink.failures) + if ok then 0 else 1
    {
      hide IndexHeader, Flushed, Chunk;
      OneMoreFlushed(flushed, pending);
      assert buf[..chunk.prefix] == if flushed == [] then IndexHeader() else [];
      ok := FlushChunk(chunk, true);
    }

    /** Sends a response that is all head; Refused when the buffer cannot hold it. */
    method ServeHead(head: bytes) returns (outcome: Sending)
      requires sink.Valid()
      modifies sink, buf
      ensures sink.Valid()
      ensures match outcome
              case Sent => sink.sent == old(sink.sent) + head
              case Refused => |head| > buf.Length && sink.sent == old(sink.sent)
              case Aborted => old(sink.sent) <= sink.sent <= old(sink.sent) + head
      ensures sink.failures == old(sink.failures) + if outcome == Aborted then 1 else 0
    {
      var ok := AppendFmt(0, buf.Length, 0, head);
      if !ok {
        return Refused;
      }
      assert buf[..|head|] == buf[..][..|head|] == head;
      ok := sink.WriteAll(buf, |head|);
      outcome := if ok then Sent else Aborted;
    }

    method ServeStatus(status: Requests.Status) returns (outcome: Sending)
      requires sink.Valid()
      modifies sink, buf
      ensures sink.Valid()
      ensures match outcome
              case Sent => sink.sent == old(sink.sent) + Head(StatusLines(status))
              case Refused => |Head(StatusLines(status))| > buf.Length && sink.sent == old(sink.sent)
              case Aborted => old(sink.sent) <= sink.sent <= old(sink.sent) + Head(StatusLines(status))
      ensures sink.failures == old(sink.failures) + if outcome == Aborted then 1 else 0
    {
      outcome := ServeHead(Head(StatusLines(status)));
    }

    method ServeRedirectIntoDir(name: bytes) returns (outcome: Sending)
      requires sink.Valid()
      modifies sink, buf
      ensures sink.Valid()
      ensures match outcome
              case Sent => sink.sent == old(sink.sent) + Head(RedirectLines(name))
              case Refused => |Head(RedirectLines(name))| > buf.Length && sink.sent == old(sink.sent)
              case Aborted => old(sink.sent) <= sink.sent <= old(sink.sent) + Head(RedirectLines(name))
      ensures sink.failures == old(sink.failures) + if outcome == Aborted then 1 else 0
    {
      outcome := ServeHead(Head(RedirectLines(name)));
    }

    /** Fills the CRC into a template. */
    method ServeNotModified(crc32: nat) returns (outcome: Sending)
      requires sink.Valid() && |NotModifiedTemplate()| <= buf.Length
      modifies sink, buf
      ensures sink.Valid() && outcome != Refused
      ensures outcome == Sent ==> sink.sent == old(sink.sent) + Head(NotModifiedLines(crc32))
      ensures sink.failures == old(sink.failures) + if outcome == Aborted then 1 else 0
      ensures outcome == Aborted ==> old(sink.sent) <= sink.sent <= old(sink.sent) + Head(NotModifiedLines(crc32))
    {
      hide NotModifiedTemplate, NotModifiedLines, Head, Hex, Overwritten;
      var template := NotModifiedTemplate();
      var crcOffset := IndexOf(template, 120);
      TemplateFilled(crc32);
      Put(0, template);
      TextBehind(old(buf[..]), 0, 0, template);
      assert buf[..|template|] == buf[..][..|template|] == template;
      ghost var tail := buf[..][|template|..];
      assert buf[..] == template + tail;
      Put(crcOffset.value, Hex(crc32, 8));
      OverwrittenFront(template, tail, crcOffset.value, Hex(crc32, 8));
      assert buf[..|template|] == buf[..][..|template|];
      var ok := sink.WriteAll(buf, |template|);
      outcome := if ok then Sent else Aborted;
    }

    /** Writes the pieces of an entry's head one behind the other; None if the buffer is too short for them. */
    method WriteEntryHeader(entry: Coding.Entry, native: Option<Coding.NativeCoding>, mime: bytes) returns (len: Option<nat>)
      modifies buf
      ensures len.Some? <==> |Head(EntryLines(entry, native, mime))| <= buf.Length
      ensures len.Some? ==> len.value <= buf.Length && buf[..len.value] == Head(EntryLines(entry, native, mime))
    {
      hide EntryPieces, EntryLines, Head, Overwritten;
      var pieces := EntryPieces(entry, native, mime);
      PiecesMakeHead(entry, native, mime);
      var at: nat := 0;
      for i := 0 to |pieces|
        invariant at <= buf.Length
        invariant buf[..at] + Concat(pieces[i..]) == Concat(pieces)
      {
        assert Concat(pieces[i..]) == pieces[i] + Concat(pieces[i + 1..]) by {
          assert pieces[i..][0] == pieces[i] && pieces[i..][1..] == pieces[i + 1..];
        }
        if at + |pieces[i]| > buf.Length {
          return None;
        }
        ghost var before := buf[..];
        Put(at, pieces[i]);
        assert buf[..at + |pieces[i]|] == before[..at] + pieces[i] by {
          TextBehind(before, 0, at, pieces[i]);
          assert buf[..at + |pieces[i]|] == buf[..][..at + |pieces[i]|];
        }
        at := at + |pieces[i]|;
      }
      assert Concat(pieces[|pieces|..]) == [];
      return Some(at);
    }

    /**
     Sends the first `staged` bytes of the buffer, which are a head, and then the body. The
     head waits for the first portion so that both are one write.
     */
    method SendBody(body: EntryBody, staged: nat) returns (ok: bool)
      requires sink.Valid() && body.Valid() && body.Sent() == []
      requires sink !in body.Repr() && buf !in body.Repr()
      requires 0 < staged && staged + ENOUGH_ROOM <= buf.Length
      modifies sink, buf, body.Repr(), ArchiveOf(body)`failures
      ensures sink.Valid()
      ensures sink.failures >= old(sink.failures) && ArchiveOf(body).failures >= old(ArchiveOf(body).failures)
      ensures !ok ==> sink.failures > old(sink.failures) || ArchiveOf(body).failures > old(ArchiveOf(body).failures) || !body.CanComplete()
      ensures ok ==> HeadLeftFirst(old(sink.writes), sink.writes, old(buf[..staged]), body.Sent())
      ensures ok ==> body.Valid() && body.Complete() && sink.sent == old(sink.sent) + old(buf[..staged]) + body.Sent()
      ensures old(sink.sent) <= sink.sent
      ensures |sink.sent| <= |old(sink.sent)| + staged + body.Announced()
      ensures var behind := old(sink.sent) + old(buf[..staged]);
              sink.sent <= behind || (behind <= sink.sent && StartsContent(body, sink.sent[|behind|..]))
    {
      hide EntryBody.Valid, EntryBody.Sent, EntryBody.Complete, EntryBody.Announced, EntryBody.CanComplete, StartsContent, Concat, HeadLeftFirst;
      var front := staged;
      ghost var first, head, writes := sink.sent, buf[..staged], sink.writes;
      SentIsAnnounced(body);
      while true
        invariant sink.Valid() && body.Valid()
        invariant sink.failures == old(sink.failures) && ArchiveOf(body).failures >= old(ArchiveOf(body).failures)
        invariant front == staged || front == 0
        invariant front == staged ==> sink.sent == first && buf[..staged] == head && body.Sent() == [] && sink.writes == writes
        invariant front == 0 ==> sink.sent == first + head + body.Sent() && HeadLeftFirst(writes, sink.writes, head, body.Sent()) && body.Sent() != []
        invariant |body.Sent()| <= body.Announced()
        decreases body.Announced() - |body.Sent()|
      {
        ghost var sentBefore := body.Sent();
        PartStarts(body, first + head, sink.sent);
        var n := body.Fill(buf, front);
        if n.None? {
          return false;
        }
        SentIsAnnounced(body);
        assert n.value == 0 ==> body.Sent() == sentBefore;
        if n.value == 0 && front == 0 {
          break;
        }
        var written := WriteBuf(front, n.value, first, head, sentBefore, writes);
        if !written {
          PartStarts(body, first + head, sink.sent);
          return false;
        }
        front := 0;
        if n.value == 0 {
          break;
        }
      }
      PartStarts(body, first + head, sink.sent);
      return true;
    }

    /** Writes the next `n` bytes of a body, and in front of the first ones the head. */
    method WriteBuf(front: nat, n: nat, ghost first: bytes, ghost head: bytes, ghost sentBefore: bytes, ghost writes: seq<bytes>) returns (ok: bool)
      requires sink.Valid() && front + n <= buf.Length
      requires if front == 0 then HeadLeftFirst(writes, sink.writes, head, sentBefore) && sentBefore != [] else sink.writes == writes
      requires if front == 0 then sink.sent == first + head + sentBefore else sink.sent == first && buf[..front] == head && sentBefore == []
      modifies sink
      ensures sink.Valid()
      ensures ok ==> sink.sent == first + head + (sentBefore + buf[front..front + n])
      ensures ok ==> HeadLeftFirst(writes, sink.writes, head, sentBefore + buf[front..front + n])
      ensures sink.failures == old(sink.failures) + if ok then 0 else 1
      ensures first <= sink.sent && |sink.sent| <= |first| + |head| + |sentBefore| + n
      ensures sink.sent <= first + head || first + head <= sink.sent <= first + head + (sentBefore + buf[front..front + n])
    {
      hide HeadLeftFirst;
      ghost var before, writesBefore, portion := sink.sent, sink.writes, buf[front..front + n];
      assert buf[..front + n] == (if front == 0 then [] else head) + portion;
      PortionSent(first, head, sentBefore, portion);
      ok := sink.WriteAll(buf, front + n);
      PortionCut(first, head, sentBefore, portion, front != 0, before, sink.sent);
      if ok {
        StillFirst(writes, writesBefore, sink.writes, head, sentBefore, portion, front != 0);
      }
    }
  }

  /** What left of a body behind its head, when not all of what it handed out may have. */
  lemma PartStarts(body: EntryBody, behind: bytes, sent: bytes)
    requires body.Valid()
    requires sent <= behind || behind <= sent <= behind + body.Sent()
    ensures sent <= behind || StartsContent(body, sent[|behind|..])
  {
    hide EntryBody.Valid, EntryBody.Sent, StartsContent;
    SentStarts(body);
    if behind <= sent {
      assert (behind + body.Sent())[|behind|..] == body.Sent();
      StartsLess(body, body.Sent(), sent[|behind|..]);
    }
  }

  /** The first of the new writes is the head and what comes with it, alone only if the body is empty. */
  ghost predicate HeadLeftFirst(before: seq<bytes>, after: seq<bytes>, head: bytes, sent: bytes) {
    && before < after
    && head <= after[|before|]
    && (after[|before|] == head ==> sent == [])
  }

  lemma StillFirst(before: seq<bytes>, between: seq<bytes>, after: seq<bytes>, head: bytes, sentBefore: bytes, portion: bytes, isFirst: bool)
    requires if isFirst then between == before && sentBefore == [] else HeadLeftFirst(before, between, head, sentBefore) && sentBefore != []
    requires after == between + [(if isFirst then head else []) + portion]
    ensures HeadLeftFirst(before, after, head, sentBefore + portion)
  {
    if isFirst {
      assert (head + portion)[|head|..] == portion;
    }
  }

  /** What the flushed chunks of a listing look like on the wire: the header rides with the first. */
  ghost function Flushed(chunks: seq<bytes>): bytes {
    if chunks == [] then [] else IndexHeader() + Frames(chunks)
  }

  lemma OneMoreFrame(flushed: seq<bytes>, chunk: bytes)
    ensures Frames(flushed + [chunk]) == Frames(flushed) + Chunk(chunk)
  {
    hide Chunk;
    assert (flushed + [chunk])[..|flushed|] == flushed;
  }

  lemma OneMoreFlushed(flushed: seq<bytes>, chunk: bytes)
    ensures Flushed(flushed + [chunk]) == Flushed(flushed) + (if flushed == [] then IndexHeader() else []) + Chunk(chunk)
  {
    hide IndexHeader, Chunk;
    OneMoreFrame(flushed, chunk);
    var header := IndexHeader();
    if flushed == [] {
      assert Frames(flushed) == [] && Frames(flushed) + Chunk(chunk) == Chunk(chunk) == [] + Chunk(chunk);
      assert [] + header == header;
    } else {
      assert header + (Frames(flushed) + Chunk(chunk)) == header + Frames(flushed) + Chunk(chunk);
      assert header + Frames(flushed) + [] == header + Frames(flushed);
    }
  }

  /** One text further along a packing. */
  lemma PackStep(texts: seq<bytes>, i: nat, pending: bytes, room: nat, later: nat)
    requires i < |texts|
    ensures var t, before, rest := texts[i], Pack(texts[i..], pending, room, later), texts[i + 1..];
            if |pending| + |t| <= room then before == Pack(rest, pending + t, room, later)
            else if pending == [] then before == Packing([], false)
            else if |t| <= later then before == Pack(rest, t, later, later).Behind([pending])
            else before == Packing([pending], false)
  {
    assert texts[i..][0] == texts[i] && texts[i..][1..] == texts[i + 1..];
  }

  lemma PackingDone(pending: bytes, room: nat, later: nat)
    ensures Pack([], pending, room, later) == Packing([pending], true)
  {
  }

  /** Chunks flushed so far are the start of those flushed later, and all of them, terminated, are the whole response. */
  lemma FlushedWithin(first: bytes, flushed: seq<bytes>, chunks: seq<bytes>)
    requires flushed <= chunks && flushed != []
    ensures first + Flushed(flushed) <= first + Flushed(chunks)
    ensures first + Flushed(chunks) + TERMINATOR == first + IndexHeader() + (Frames(chunks) + TERMINATOR)
  {
    hide IndexHeader;
    FramesWithin(flushed, chunks);
    var f, all := Frames(flushed), Frames(chunks);
    assert first + (IndexHeader() + all) == (first + (IndexHeader() + f)) + all[|f|..];
    assert first + (IndexHeader() + all) + TERMINATOR == first + IndexHeader() + (all + TERMINATOR);
  }

  /** A write cut short leaves a prefix of the chunks that were to leave. */
  lemma CutWithin(first: bytes, flushed: seq<bytes>, sent: bytes, pending: bytes, chunks: seq<bytes>)
    requires flushed + [pending] <= chunks
    requires first + Flushed(flushed) <= sent <= first + Flushed(flushed + [pending])
    ensures first <= sent <= first + Flushed(chunks)
    ensures first + Flushed(chunks) <= first + IndexHeader() + (Frames(chunks) + TERMINATOR)
  {
    hide Flushed, IndexHeader, Frames;
    FlushedWithin(first, flushed + [pending], chunks);
  }

  lemma {:induction false} FramesWithin(a: seq<bytes>, b: seq<bytes>)
    requires a <= b
    ensures Frames(a) <= Frames(b)
  {
    if a == b {
    } else {
      FramesWithin(a, b[..|b| - 1]);
    }
  }

  /** One text further along a packing behind chunks already flushed. */
  lemma PackedOn(texts: seq<bytes>, i: nat, pending: bytes, flushed: seq<bytes>, room: nat, later: nat)
    requires i < |texts|
    ensures var t, p, rest := texts[i], Pack(texts[i..], pending, room, later).Behind(flushed), texts[i + 1..];
            && (if |pending| + |t| <= room then p == Pack(rest, pending + t, room, later).Behind(flushed)
                else if pending == [] then p == Packing(flushed, false)
                else if |t| <= later then p == Pack(rest, t, later, later).Behind(flushed + [pending])
                else p == Packing(flushed + [pending], false))
            && (|pending| + |t| > room && pending != [] ==> flushed + [pending] <= p.chunks)
  {
    hide Pack;
    PackStep(texts, i, pending, room, later);
    BehindBoth(Pack(texts[i + 1..], texts[i], later, later), pending, flushed);
    assert flushed + [] == flushed;
  }

  lemma PackedBehind(flushed: seq<bytes>, pending: bytes)
    ensures Packing([pending], true).Behind(flushed) == Packing(flushed + [pending], true)
  {
  }

  lemma BehindBoth(p: Packing, pending: bytes, flushed: seq<bytes>)
    ensures p.Behind([pending]).Behind(flushed) == p.Behind(flushed + [pending])
  {
    assert flushed + ([pending] + p.chunks) == flushed + [pending] + p.chunks;
  }

  /** A partial write behind a chunk leaves the chunk and what is in front of it alone. */
  lemma StagedStays(before: bytes, after: bytes, chunk: PendingChunk)
    requires chunk.prefix + SIZE_LEN + chunk.len <= |before| == |after|
    requires after[..chunk.prefix + SIZE_LEN + chunk.len] == before[..chunk.prefix + SIZE_LEN + chunk.len]
    ensures after[..chunk.prefix] == before[..chunk.prefix]
    ensures after[chunk.prefix + SIZE_LEN..chunk.prefix + SIZE_LEN + chunk.len] ==
            before[chunk.prefix + SIZE_LEN..chunk.prefix + SIZE_LEN + chunk.len]
  {
    var end := chunk.prefix + SIZE_LEN + chunk.len;
    assert after[..chunk.prefix] == after[..end][..chunk.prefix];
    assert after[chunk.prefix + SIZE_LEN..end] == after[..end][chunk.prefix + SIZE_LEN..];
  }

  lemma TextBehind(before: bytes, start: nat, len: nat, text: bytes)
    requires start + len + |text| <= |before|
    ensures Overwritten(before, start + len, text)[start..start + len + |text|] == before[start..start + len] + text
    ensures Overwritten(before, start + len, text)[..start + len] == before[..start + len]
  {
  }

  /** The template of a 304 response, an `x` for each digit of the entity tag. */
  function NotModifiedTemplate(): bytes {
    Head([StatusLine(304, "Not Modified"), Field("ETag", [34] + Ascii("xxxxxxxx") + [34])])
  }

  lemma TextLacks(text: string, c: char)
    requires c !in text && c as int < 128 && c != '?'
    ensures (c as int) !in Ascii(text)
  {
    forall i | 0 <= i < |text|
      ensures Ascii(text)[i] != c as int
    {
      assert text[i] in text;
    }
  }

  /** The template's first `x` is where the CRC goes, and with it there the template is the response. */
  lemma TemplateFilled(crc32: nat)
    ensures var template, at := NotModifiedTemplate(), IndexOf(NotModifiedTemplate(), 120);
            && at.Some? && at.value + 8 <= |template|
            && Overwritten(template, at.value, Hex(crc32, 8)) == Head(NotModifiedLines(crc32))
  {
    hide Hex, Decimal, IndexOf;
    var line, tag, digits := StatusLine(304, "Not Modified"), Ascii("ETag"), Hex(crc32, 8);
    var start, exes, end := line + CRLF + tag + [58, 32, 34], Ascii("xxxxxxxx"), [34] + CRLF + CRLF;
    HeadOfTwo(line, Field("ETag", [34] + exes + [34]));
    HeadOfTwo(line, Field("ETag", ETag(crc32)));
    var template := NotModifiedTemplate();
    assert template == start + exes + end;
    assert Head(NotModifiedLines(crc32)) == start + digits + end;
    TextLacks("HTTP/1.1 ", 'x');
    TextLacks("Not Modified", 'x');
    TextLacks("ETag", 'x');
    assert 120 !in Decimal(304);
    assert 120 !in start;
    assert template[..|start|] == start && template[|start|] == exes[0] == 120;
    IndexIs(template, 120, |start|);
    assert Overwritten(template, |start|, digits) == start + digits + end;
  }

  lemma HeadOfTwo(a: bytes, b: bytes)
    ensures Head([a, b]) == a + CRLF + b + CRLF + CRLF
  {
    assert Terminated([a, b][1..][1..]) == [];
    assert Terminated([a, b][1..]) == b + CRLF;
  }

  lemma OverwrittenFront(s: bytes, tail: bytes, at: nat, data: bytes)
    requires at + |data| <= |s|
    ensures Overwritten(s + tail, at, data)[..|s|] == Overwritten(s, at, data)
  {
  }

  lemma PortionSent(first: bytes, head: bytes, sentBefore: bytes, portion: bytes)
    ensures first + head + sentBefore + portion == first + head + (sentBefore + portion)
    ensures first + (head + portion) == first + head + portion
    ensures first + head + [] == first + head
    ensures sentBefore == [] ==> sentBefore + portion == portion
    ensures [] + portion == portion
  {
  }

  /** What was sent when a write of the next portion may have failed. */
  lemma PortionCut(first: bytes, head: bytes, sentBefore: bytes, portion: bytes, isFirst: bool, before: bytes, after: bytes)
    requires before == if isFirst then first else first + head + sentBefore
    requires isFirst ==> sentBefore == []
    requires before <= after <= before + ((if isFirst then head else []) + portion)
    ensures first <= after && |after| <= |first| + |head| + |sentBefore + portion|
    ensures after <= first + head || first + head <= after <= first + head + (sentBefore + portion)
  {
    assert first + head + (sentBefore + portion) == first + head + sentBefore + portion;
    if isFirst {
      assert before + (head + portion) == first + head + portion;
    }
  }

  /** The pieces an entry's head is written in. */
  function EntryPieces(entry: Coding.Entry, native: Option<Coding.NativeCoding>, mime: bytes): seq<bytes> {
    [StatusLine(200, "OK") + CRLF]
    + [Field("Content-Type", []), mime, CRLF]
    + (if EncodingName(native).Some? then [Field("Content-Encoding", []), EncodingName(native).value, CRLF] else [])
    + [Field("Content-Length", []), Decimal(AnnouncedLength(entry, native)), CRLF]
    + [Field("ETag", [34]), Hex(entry.crc32, 8), [34] + CRLF]
    + [Field("Cache-control", Ascii("max-age=180, public")) + CRLF + CRLF]
  }

  lemma FieldPieces(name: string, start: bytes, value: bytes, end: bytes)
    ensures Concat([Field(name, start), value, end + CRLF]) == Terminated([Field(name, start + value + end)])
  {
    ConcatDistributes([Field(name, start)], [value] + [end + CRLF]);
    ConcatDistributes([value], [end + CRLF]);
    ConcatSingle(Field(name, start));
    ConcatSingle(value);
    ConcatSingle(end + CRLF);
    assert [Field(name, start), value, end + CRLF] == [Field(name, start)] + ([value] + [end + CRLF]);
    OneLine(Field(name, start + value + end));
  }

  lemma {:induction false} TerminatedDistributes(a: seq<bytes>, b: seq<bytes>)
    ensures Terminated(a + b) == Terminated(a) + Terminated(b)
  {
    if a == [] {
      assert a + b == b;
    } else {
      assert (a + b)[1..] == a[1..] + b;
      TerminatedDistributes(a[1..], b);
      assert a[0] + CRLF + (Terminated(a[1..]) + Terminated(b)) == a[0] + CRLF + Terminated(a[1..]) + Terminated(b);
    }
  }

  lemma PiecesJoin(pieces: seq<bytes>, lines: seq<bytes>, more: seq<bytes>, moreLines: seq<bytes>)
    requires Concat(pieces) == Terminated(lines) && Concat(more) == Terminated(moreLines)
    ensures Concat(pieces + more) == Terminated(lines + moreLines)
  {
    ConcatDistributes(pieces, more);
    TerminatedDistributes(lines, moreLines);
  }

  lemma PiecesMakeHead(entry: Coding.Entry, native: Option<Coding.NativeCoding>, mime: bytes)
    ensures Concat(EntryPieces(entry, native, mime)) == Head(EntryLines(entry, native, mime))
  {
    hide Concat, Terminated, Ascii, Decimal, Hex, StatusLine;
    var line, n, cache := StatusLine(200, "OK"), AnnouncedLength(entry, native), Field("Cache-control", Ascii("max-age=180, public"));
    var p0, l0 := [line + CRLF], [line];
    OneLine(line);
    ConcatSingle(line + CRLF);
    var p1, l1 := [Field("Content-Type", []), mime, CRLF], [Field("Content-Type", mime)];
    FieldPieces("Content-Type", [], mime, []);
    assert [] + mime + [] == mime && [] + CRLF == CRLF;
    PiecesJoin(p0, l0, p1, l1);
    var name := EncodingName(native);
    var p2 := if name.Some? then [Field("Content-Encoding", []), name.value, CRLF] else [];
    var l2 := if name.Some? then [Field("Content-Encoding", name.value)] else [];
    if name.Some? {
      FieldPieces("Content-Encoding", [], name.value, []);
      assert [] + name.value + [] == name.value;
    } else {
      NothingIsNothing();
    }
    PiecesJoin(p0 + p1, l0 + l1, p2, l2);
    var p3, l3 := [Field("Content-Length", []), Decimal(n), CRLF], [Field("Content-Length", Decimal(n))];
    FieldPieces("Content-Length", [], Decimal(n), []);
    assert [] + Decimal(n) + [] == Decimal(n);
    PiecesJoin(p0 + p1 + p2, l0 + l1 + l2, p3, l3);
    var p4, l4 := [Field("ETag", [34]), Hex(entry.crc32, 8), [34] + CRLF], [Field("ETag", ETag(entry.crc32))];
    FieldPieces("ETag", [34], Hex(entry.crc32, 8), [34]);
    PiecesJoin(p0 + p1 + p2 + p3, l0 + l1 + l2 + l3, p4, l4);
    var pieces, lines := p0 + p1 + p2 + p3 + p4, l0 + l1 + l2 + l3 + l4;
    OneLine(cache);
    ConcatSingle(cache + CRLF);
    PiecesJoin(pieces, lines, [cache + CRLF], [cache]);
    ConcatDistributes(pieces, [cache + CRLF]);
    ConcatDistributes(pieces, [cache + CRLF + CRLF]);
    ConcatSingle(cache + CRLF + CRLF);
    assert EntryPieces(entry, native, mime) == pieces + [cache + CRLF + CRLF];
    assert EntryLines(entry, native, mime) == lines + [cache];
    assert Concat(pieces) + (cache + CRLF + CRLF) == (Concat(pieces) + (cache + CRLF)) + CRLF;
  }

  lemma OneLine(line: bytes)
    ensures Terminated([line]) == line + CRLF
  {
    assert Terminated([line][1..]) == [];
  }

  lemma NothingIsNothing()
    ensures Concat([]) == Terminated([]) == []
  {
  }

  lemma SliceJoins(s: bytes, a: nat, b: nat, c: nat)
    requires a <= b <= c <= |s|
    ensures Slice(s, a, c) == Slice(s, a, b) + Slice(s, b, c)
  {
    assert s[a..c] == s[a..b] + s[b..c];
  }

  /** What overwriting leaves of slices on either side, and what it puts between them. */
  lemma OverwrittenSlices(s: bytes, at: nat, data: bytes, a: nat, b: nat)
    requires at + |data| <= |s| && a <= b <= |s|
    ensures Overwritten(s, at, data)[at..at + |data|] == data
    ensures b <= at || at + |data| <= a ==> Overwritten(s, at, data)[a..b] == s[a..b]
  {
  }

  function Slice(s: bytes, a: nat, b: nat): bytes
    requires a <= b <= |s|
  {
    s[a..b]
  }

  /** Five slices that follow each other, joined. */
  lemma SlicesJoin(s: bytes, a: nat, b: nat, c: nat, d: nat, e: nat)
    requires a <= b <= c <= d <= e <= |s|
    ensures Slice(s, 0, e) == Slice(s, 0, a) + (Slice(s, a, b) + Slice(s, b, c) + Slice(s, c, d) + Slice(s, d, e))
  {
    SliceJoins(s, a, b, c);
    SliceJoins(s, a, c, d);
    SliceJoins(s, a, d, e);
    SliceJoins(s, 0, a, e);
  }

  /** A chunk, by its slices. */
  lemma FramedSlices(s: bytes, prefix: nat, payload: bytes)
    requires prefix + SIZE_LEN + |payload| + 2 <= |s|
    requires var payloadEnd := prefix + SIZE_LEN + |payload|;
             && Slice(s, prefix, prefix + DIGIT_COUNT) == Hex(|payload|, DIGIT_COUNT)
             && Slice(s, prefix + DIGIT_COUNT, prefix + SIZE_LEN) == CRLF
             && Slice(s, prefix + SIZE_LEN, payloadEnd) == payload
             && Slice(s, payloadEnd, payloadEnd + 2) == CRLF
    ensures Slice(s, 0, prefix + SIZE_LEN + |payload| + 2) == Slice(s, 0, prefix) + Chunk(payload)
  {
    hide Hex, Slice, Chunk;
    var a, b, c, d := prefix, prefix + DIGIT_COUNT, prefix + SIZE_LEN, prefix + SIZE_LEN + |payload|;
    SlicesJoin(s, a, b, c, d, d + 2);
    ChunkOf(payload, Slice(s, a, b), Slice(s, b, c), Slice(s, c, d), Slice(s, d, d + 2));
  }

  lemma ChunkOf(payload: bytes, digits: bytes, firstEnd: bytes, data: bytes, lastEnd: bytes)
    requires digits == Hex(|payload|, DIGIT_COUNT) && firstEnd == CRLF && data == payload && lastEnd == CRLF
    ensures digits + firstEnd + data + lastEnd == Chunk(payload)
  {
  }

  lemma TerminatedBehind(s: bytes, at: nat)
    requires at + |TERMINATOR| <= |s|
    ensures Overwritten(s, at, TERMINATOR)[..at + |TERMINATOR|] == s[..at] + TERMINATOR
  {
  }

  /** The buffer once a chunk was framed in it. */
  lemma FramedChunk(whole: bytes, prefix: nat, len: nat, isLast: bool)
    requires prefix + SIZE_LEN + len + 2 + (if isLast then |TERMINATOR| else 0) <= |whole|
    ensures var payloadEnd := prefix + SIZE_LEN + len;
            var framed := Overwritten(Overwritten(Overwritten(whole, payloadEnd, CRLF), prefix, Hex(len, DIGIT_COUNT)), prefix + DIGIT_COUNT, CRLF);
            var chunk := whole[..prefix] + Chunk(whole[prefix + SIZE_LEN..payloadEnd]);
            && framed[..payloadEnd + 2] == chunk
            && (isLast ==> Overwritten(framed, payloadEnd + 2, TERMINATOR)[..payloadEnd + 2 + |TERMINATOR|] == chunk + TERMINATOR)
  {
    hide Hex;
    var payloadEnd, digits := prefix + SIZE_LEN + len, Hex(len, DIGIT_COUNT);
    var a, b, c, d := prefix, prefix + DIGIT_COUNT, prefix + SIZE_LEN, payloadEnd + 2;
    var s1 := Overwritten(whole, payloadEnd, CRLF);
    var s2 := Overwritten(s1, prefix, digits);
    var framed := Overwritten(s2, b, CRLF);
    OverwrittenSlices(whole, payloadEnd, CRLF, 0, a);
    OverwrittenSlices(whole, payloadEnd, CRLF, c, payloadEnd);
    OverwrittenSlices(s1, a, digits, 0, a);
    OverwrittenSlices(s1, a, digits, c, payloadEnd);
    OverwrittenSlices(s1, a, digits, payloadEnd, d);
    OverwrittenSlices(s2, b, CRLF, 0, a);
    OverwrittenSlices(s2, b, CRLF, a, b);
    OverwrittenSlices(s2, b, CRLF, c, payloadEnd);
    OverwrittenSlices(s2, b, CRLF, payloadEnd, d);
    hide Overwritten;
    FramedSlices(framed, prefix, whole[c..payloadEnd]);
    if isLast {
      TerminatedBehind(framed, d);
    }
  }
}
