/** Bodies that inflate what the archive stores, and compare the outcome with its records. */
module InflatedBodies {
  import opened Bytes
  import opened Coding
  import opened Io
  import opened Inflating
  import opened Bodies

  class InflatedBody {
    const archive: Archive
    const entry: Entry
    const inflater: Inflater
    /** The checksum, a function of the bytes it absorbed. */
    const crc32: bytes -> nat
    /** Where in the window the history ends. */
    var historyLen: nat
    /** The part of the window still to be handed out. */
    var pendingStart: nat
    var pendingEnd: nat
    /** The last call of the decoder asked for room. */
    var windowFull: bool
    /** The part of the input buffer still to be decoded. */
    var unconsumedStart: nat
    var unconsumedEnd: nat
    /** Position of the first stored byte still to be read; None until the data was located. */
    var dataOffset: Option<nat>
    var unread: nat
    /** What the checksum absorbed. */
    var absorbed: bytes
    var done: bool
    ghost var sent: bytes

    constructor (archive: Archive, entry: Entry, inflater: Inflater, crc32: bytes -> nat)
      requires inflater.Sound() && inflater.decoder.IsReset() && Monotone(inflater.decoder.decode)
      ensures Valid() && sent == [] && dataOffset.None?
      ensures this.archive == archive && this.entry == entry && this.inflater == inflater && this.crc32 == crc32
    {
      this.archive, this.entry, this.inflater, this.crc32 := archive, entry, inflater, crc32;
      historyLen, pendingStart, pendingEnd, windowFull := 0, 0, 0, false;
      unconsumedStart, unconsumedEnd := 0, 0;
      dataOffset, unread := None, entry.compressedSize;
      absorbed, done := [], false;
      sent := [];
    }

    /** The decoded bytes that wait in the window. */
    function Pending(): nat
      reads this`pendingStart, this`pendingEnd
    {
      if pendingStart <= pendingEnd then pendingEnd - pendingStart else 0
    }

    ghost predicate InputValid()
      reads this`unread, this`unconsumedStart, this`unconsumedEnd, this`dataOffset, inflater.decoder`taken, inflater.input
    {
      var read := entry.compressedSize - unread;
      && inflater.Sound()
      && unread <= entry.compressedSize
      && unconsumedStart <= unconsumedEnd <= inflater.input.Length
      && (dataOffset.None? ==> read == 0)
      && (dataOffset.Some? ==>
            HasStored(archive.content, entry, read) && dataOffset.value == DataStart(archive.content, entry) + read)
      && inflater.decoder.taken + inflater.input[unconsumedStart..unconsumedEnd] == Stored(archive.content, entry, read)
    }

    ghost predicate OutputValid()
      reads this`historyLen, this`pendingStart, this`pendingEnd, this`windowFull, this`absorbed, this`done, this`sent
      reads inflater.decoder, inflater.window
    {
      var decoder := inflater.decoder;
      && inflater.Sound()
      && decoder.Valid() && decoder.HistoryIn(inflater.window[..])
      && historyLen == decoder.pos && windowFull == decoder.full && !decoder.roomMade
      && absorbed == decoder.produced
      && pendingStart <= pendingEnd && (pendingStart < pendingEnd ==> pendingEnd == historyLen)
      && Pending() <= |decoder.produced| && sent == decoder.produced[..|decoder.produced| - Pending()]
      && |decoder.produced| <= entry.uncompressedSize
      && (done ==> Checked())
    }

    /** All was decoded, and it is what the archive recorded. */
    ghost predicate Checked()
      reads inflater.decoder
    {
      var decoder := inflater.decoder;
      && decoder.isWhole(decoder.taken) && decoder.produced == decoder.decode(decoder.taken)
      && |decoder.produced| == entry.uncompressedSize && crc32(decoder.produced) == entry.crc32
    }

    ghost predicate Valid()
      reads this, inflater.decoder, inflater.window, inflater.input
    {
      InputValid() && OutputValid()
    }

    ghost predicate Complete()
      reads this
    {
      done && Pending() == 0
    }

    /** The archive holds the stored bytes, and what they inflate to is what it recorded. */
    ghost predicate CanComplete() {
      CanInflate(archive.content, entry, inflater.decoder.decode, inflater.decoder.isWhole, crc32)
    }

    /** The room a fill must find: for the local header as long as that is unread, and some for the bytes. */
    function RoomNeeded(): nat
      reads this`dataOffset, this`unread
    {
      if dataOffset.None? && unread > 0 then LOCAL_HEADER_LEN else 1
    }

    method Fill(buf: array<byte>, at: nat) returns (n: Option<nat>)
      requires Valid() && at + RoomNeeded() <= buf.Length
      requires buf != inflater.window && buf != inflater.input
      modifies this, inflater.decoder, inflater.window, inflater.input, buf, archive`failures
      ensures archive.failures >= old(archive.failures)
      ensures buf[..at] == old(buf[..at])
      ensures n.None? ==> archive.failures > old(archive.failures) || !CanComplete()
      ensures n.Some? ==> at + n.value <= buf.Length && Valid() && sent == old(sent) + buf[at..at + n.value]
      ensures n == Some(0) ==> Complete()
    {
      hide OutputValid, HasStored, DataStart, Stored, Checked, CanComplete;
      while Pending() == 0 && !done
        invariant Valid() && sent == old(sent) && archive.failures >= old(archive.failures)
        invariant buf[..at] == old(buf[..at])
        invariant at + RoomNeeded() <= buf.Length
        decreases unread + (unconsumedEnd - unconsumedStart), Pending() == 0 && !done, !windowFull
      {
        if unconsumedStart == unconsumedEnd && unread > 0 {
          var ok := ReadInput(buf, at);
          if !ok {
            return None;
          }
        }
        var ok := Decode();
        if !ok {
          return None;
        }
      }
      var count := TakePending(buf, at);
      n := Some(count);
    }

    /** Hands out pending bytes as far as there is room. */
    method TakePending(buf: array<byte>, at: nat) returns (n: nat)
      requires Valid() && inflater.Sound() && at <= buf.Length
      requires buf != inflater.window && buf != inflater.input
      modifies this`pendingStart, this`sent, buf
      ensures Valid()
      ensures buf[..at] == old(buf[..at])
      ensures n == Min(old(Pending()), buf.Length - at) && Pending() == old(Pending()) - n
      ensures sent == old(sent) + buf[at..at + n]
    {
      hide InputValid, OutputValid;
      n := Min(Pending(), buf.Length - at);
      ghost var window := inflater.window[..];
      var portion := HandOut(n);
      assert inflater.window[..] == window;
      forall i | 0 <= i < n {
        buf[at + i] := portion[i];
      }
      assert buf[at..at + n] == portion;
    }

    /** Takes the next `n` pending bytes out of the window. */
    method HandOut(n: nat) returns (portion: bytes)
      requires OutputValid() && n <= Pending()
      modifies this`pendingStart, this`sent
      ensures OutputValid() && Pending() == old(Pending()) - n
      ensures |portion| == n && sent == old(sent) + portion
    {
      hide Checked, Decoder.Valid;
      ghost var produced, k := inflater.decoder.produced, |sent|;
      portion := if n == 0 then [] else inflater.window[pendingStart..pendingStart + n];
      if n > 0 {
        WindowHoldsProduced(inflater.window[..], produced, inflater.decoder.pos, pendingStart, n);
      }
      assert portion == produced[k..k + n];
      assert produced[..k] + portion == produced[..k + n];
      pendingStart := pendingStart + n;
      sent := sent + portion;
    }

    /** Refills the input buffer with stored bytes, which pass through the room of the fill. */
    method ReadInput(buf: array<byte>, at: nat) returns (ok: bool)
      requires Valid() && at + RoomNeeded() <= buf.Length
      requires buf != inflater.window && buf != inflater.input
      requires unconsumedStart == unconsumedEnd && unread > 0
      modifies this`unconsumedStart, this`unconsumedEnd, this`dataOffset, this`unread, inflater.input, buf, archive`failures
      ensures archive.failures >= old(archive.failures)
      ensures buf[..at] == old(buf[..at])
      ensures !ok ==> archive.failures > old(archive.failures) || !CanComplete()
      ensures ok ==> Valid() && dataOffset.Some? && unconsumedStart < unconsumedEnd
      ensures ok ==> unread + (unconsumedEnd - unconsumedStart) == old(unread)
    {
      hide OutputValid, Checked, Decoder.Valid, Decoder.HistoryIn, Stored, DataStart, HasLocalHeader;
      var offset := dataOffset;
      if offset.None? {
        offset := FindEntryCompressedData(archive, entry, buf, at);
        if offset.None? {
          return false;
        }
      }
      var n := Min(Min(unread, INPUT_LEN), buf.Length - at);
      ok := archive.ReadExactAt(buf, at, at + n, offset.value);
      if !ok {
        return false;
      }
      StoredGrows(archive.content, entry, entry.compressedSize - unread, n);
      TakeInput(buf[at..at + n], offset.value);
    }

    /** Copies what was read at `offset` into the input buffer. */
    method TakeInput(data: bytes, offset: nat)
      requires Valid() && 0 < |data| <= unread && |data| <= INPUT_LEN
      requires unconsumedStart == unconsumedEnd
      requires HasStored(archive.content, entry, entry.compressedSize - unread + |data|)
      requires offset == DataStart(archive.content, entry) + (entry.compressedSize - unread)
      requires Stored(archive.content, entry, entry.compressedSize - unread) + data ==
               Stored(archive.content, entry, entry.compressedSize - unread + |data|)
      modifies this`unconsumedStart, this`unconsumedEnd, this`dataOffset, this`unread, inflater.input
      ensures Valid() && dataOffset.Some? && unconsumedStart == 0 && unconsumedEnd == |data| && unread == old(unread) - |data|
    {
      hide Stored, DataStart;
      assert inflater.input[unconsumedStart..unconsumedEnd] == [];
      forall i | 0 <= i < |data| {
        inflater.input[i] := data[i];
      }
      assert inflater.input[0..|data|] == data;
      unconsumedStart, unconsumedEnd := 0, |data|;
      dataOffset := Some(offset + |data|);
      unread := unread - |data|;
    }

    /** Gives the decoder the room it asked for. The window shifts, so nothing may be pending in it. */
    method MakeRoom()
      requires OutputValid() && Pending() == 0
      modifies this`historyLen, this`windowFull, inflater.decoder`pos, inflater.decoder`full, inflater.decoder`roomMade, inflater.window
      ensures inflater.decoder.Valid() && inflater.decoder.HistoryIn(inflater.window[..]) && historyLen == inflater.decoder.pos
      ensures !windowFull && !inflater.decoder.full && inflater.decoder.roomMade == old(windowFull)
      ensures inflater.decoder.roomMade ==> inflater.decoder.pos < inflater.window.Length
    {
      if windowFull {
        var moved := inflater.decoder.MakeRoom(inflater.window);
        historyLen := historyLen - moved;
        windowFull := false;
      }
    }

    /** One call of the decoder, whose output becomes what is pending, and the checks on it. */
    method Decode() returns (ok: bool)
      requires Valid() && Pending() == 0 && !done
      requires unconsumedStart < unconsumedEnd || unread == 0
      modifies this, inflater.decoder, inflater.window
      ensures !ok ==> !CanComplete()
      ensures ok ==> Valid() && sent == old(sent) && dataOffset == old(dataOffset) && unread == old(unread)
      ensures ok ==> unconsumedEnd == old(unconsumedEnd) && unconsumedStart >= old(unconsumedStart)
      ensures ok ==> unconsumedStart > old(unconsumedStart) || Pending() > 0 || done || (windowFull && !old(windowFull))
    {
      hide HasStored, DataStart, Stored, Decoder.HistoryIn, Decoder.Valid, Checked, InputValid, CanComplete;
      ghost var produced := inflater.decoder.produced;
      assert produced == sent == absorbed by { assert produced[..|produced|] == produced; }
      MakeRoom();
      var progress := DecodeInput();
      if progress.Failed? {
        return false;
      }
      ok := NoteOutput(progress);
      CompletingMatches(progress.done);
    }

    /** What was decoded is not what was recorded. */
    ghost predicate Mismatched(isDone: bool)
      reads inflater.decoder
    {
      var produced := inflater.decoder.produced;
      |produced| > entry.uncompressedSize || (isDone && (|produced| < entry.uncompressedSize || crc32(produced) != entry.crc32))
    }

    /** What the decoder has taken and produced is within any stream that inflates as recorded. */
    lemma WithinInflation(n: nat)
      requires InputValid() && inflater.decoder.Valid() && CanComplete()
      requires InflatesAt(archive.content, entry, inflater.decoder.decode, inflater.decoder.isWhole, crc32, n)
      ensures var decoder, stream := inflater.decoder, Stored(archive.content, entry, n);
              && decoder.produced <= decoder.decode(stream)
              && (decoder.isWhole(decoder.taken) ==> decoder.taken == stream)
    {
      hide Stored, HasStored, DataStart;
      var decoder, content := inflater.decoder, archive.content;
      var all, stream := Stored(content, entry, entry.compressedSize), Stored(content, entry, n);
      StoredBegins(content, entry, n);
      StoredBegins(content, entry, entry.compressedSize - unread);
      WithinStream(decoder.isWhole, decoder.taken, stream, all);
      MoreDecoded(decoder.decode, decoder.taken, stream);
    }

    /** That does not happen to a body that can complete. */
    lemma CompletingMatches(isDone: bool)
      requires InputValid() && inflater.decoder.Valid()
      requires isDone ==> inflater.decoder.isWhole(inflater.decoder.taken) && inflater.decoder.produced == inflater.decoder.decode(inflater.decoder.taken)
      ensures CanComplete() ==> !Mismatched(isDone)
    {
      hide Stored, HasStored, DataStart;
      var decoder := inflater.decoder;
      if CanComplete() {
        var n: nat :| InflatesAt(archive.content, entry, decoder.decode, decoder.isWhole, crc32, n);
        WithinInflation(n);
      }
    }

    /** Nor is the input in hand hopeless then. */
    lemma CompletingIsNotHopeless(taken: bytes, rest: bytes)
      requires unread <= entry.compressedSize
      requires entry.compressedSize - unread > 0 ==> HasStored(archive.content, entry, entry.compressedSize - unread)
      requires taken + rest == Stored(archive.content, entry, entry.compressedSize - unread)
      ensures CanComplete() ==> !Hopeless(inflater.decoder.isWhole, taken + rest, unread == 0)
    {
      hide Stored, HasStored, DataStart;
      var decoder, content := inflater.decoder, archive.content;
      if CanComplete() {
        var n: nat :| InflatesAt(content, entry, decoder.decode, decoder.isWhole, crc32, n);
        var all, stream := Stored(content, entry, entry.compressedSize), Stored(content, entry, n);
        StoredBegins(content, entry, n);
        StoredBegins(content, entry, entry.compressedSize - unread);
        var more := all[|taken + rest|..];
        assert taken + rest + more == all && all[..n] == stream;
        assert HoldsWhole(decoder.isWhole, all);
      }
    }

    /** One call of the decoder on the input in hand. */
    method DecodeInput() returns (p: Progress)
      requires InputValid() && (unconsumedStart < unconsumedEnd || unread == 0)
      requires inflater.decoder.Valid() && inflater.decoder.HistoryIn(inflater.window[..]) && !inflater.decoder.full
      requires inflater.decoder.roomMade ==> inflater.decoder.pos < inflater.window.Length
      modifies this`unconsumedStart, inflater.decoder, inflater.window
      ensures p.Failed? ==> !CanComplete()
      ensures p.Decoded? ==> InputValid() && unconsumedStart == old(unconsumedStart) + p.consumed
      ensures p.Decoded? ==> inflater.decoder.Valid() && inflater.decoder.HistoryIn(inflater.window[..]) && !inflater.decoder.roomMade
      ensures p.Decoded? ==> inflater.decoder.pos == old(inflater.decoder.pos) + p.output && inflater.decoder.full == p.full
      ensures p.Decoded? ==> inflater.decoder.produced ==
                             old(inflater.decoder.produced) + inflater.window[old(inflater.decoder.pos)..inflater.decoder.pos]
      ensures p.Decoded? && p.done ==>
                inflater.decoder.isWhole(inflater.decoder.taken)
                && inflater.decoder.produced == inflater.decoder.decode(inflater.decoder.taken)
      ensures p.Decoded? ==> p.consumed > 0 || p.output > 0 || p.done || (p.full && !old(inflater.decoder.roomMade))
    {
      hide HasStored, DataStart, Stored, Decoder.Valid, Monotone, CanComplete, Hopeless;
      ghost var taken := inflater.decoder.taken;
      var rest := inflater.input[unconsumedStart..unconsumedEnd];
      CompletingIsNotHopeless(taken, rest);
      p := inflater.decoder.Decompress(rest, inflater.window, unread == 0);
      if p.Decoded? {
        NoteInput(p.consumed, taken);
      }
    }

    /** Notes that the decoder, having taken `taken` before, took the next `n` bytes of input. */
    method NoteInput(n: nat, ghost taken: bytes)
      requires inflater.Sound() && unread <= entry.compressedSize
      requires unconsumedStart + n <= unconsumedEnd <= inflater.input.Length
      requires dataOffset.None? ==> unread == entry.compressedSize
      requires dataOffset.Some? ==>
                 HasStored(archive.content, entry, entry.compressedSize - unread)
                 && dataOffset.value == DataStart(archive.content, entry) + (entry.compressedSize - unread)
      requires taken + inflater.input[unconsumedStart..unconsumedEnd] == Stored(archive.content, entry, entry.compressedSize - unread)
      requires inflater.decoder.taken == taken + inflater.input[unconsumedStart..unconsumedEnd][..n]
      modifies this`unconsumedStart
      ensures InputValid() && unconsumedStart == old(unconsumedStart) + n
    {
      hide HasStored, DataStart, Stored;
      ghost var rest := inflater.input[unconsumedStart..unconsumedEnd];
      InputTaken(taken, rest, n);
      unconsumedStart := unconsumedStart + n;
      assert inflater.input[unconsumedStart..unconsumedEnd] == rest[n..];
    }

    /** Notes what the decoder put into the window, and checks it against what the archive recorded. */
    method NoteOutput(progress: Progress) returns (ok: bool)
      requires inflater.Sound() && progress.Decoded?
      requires inflater.decoder.Valid() && inflater.decoder.HistoryIn(inflater.window[..]) && !inflater.decoder.roomMade
      requires inflater.decoder.pos == historyLen + progress.output && inflater.decoder.full == progress.full
      requires sent == absorbed && inflater.decoder.produced == absorbed + inflater.window[historyLen..historyLen + progress.output]
      requires progress.done ==>
                 inflater.decoder.isWhole(inflater.decoder.taken)
                 && inflater.decoder.produced == inflater.decoder.decode(inflater.decoder.taken)
      modifies this`historyLen, this`pendingStart, this`pendingEnd, this`windowFull, this`absorbed, this`done
      ensures ok ==> OutputValid() && Pending() == progress.output && windowFull == progress.full && done == progress.done
      ensures !ok ==> Mismatched(progress.done)
    {
      var start := historyLen;
      historyLen := historyLen + progress.output;
      absorbed := absorbed + inflater.window[start..historyLen];
      pendingStart, pendingEnd := start, historyLen;
      windowFull := progress.full;
      done := progress.done;
      var expected := entry.uncompressedSize;
      if |inflater.decoder.produced| > expected || (done && |inflater.decoder.produced| < expected) {
        return false;
      }
      if done && crc32(absorbed) != entry.crc32 {
        return false;
      }
      return true;
    }
  }

  /**
   The first `n` stored bytes are the first whole stream among them, and inflate to as many
   bytes as recorded, with the recorded CRC.
   */
  ghost predicate InflatesAt(content: bytes, entry: Entry, decode: bytes -> bytes, isWhole: bytes -> bool, crc32: bytes -> nat, n: nat) {
    && n <= entry.compressedSize && (n > 0 ==> HasStored(content, entry, n))
    && isWhole(Stored(content, entry, n)) && NotPast(isWhole, Stored(content, entry, n))
    && |decode(Stored(content, entry, n))| == entry.uncompressedSize && crc32(decode(Stored(content, entry, n))) == entry.crc32
  }

  /** `sent` is what the entry's stored bytes inflate to, as recorded. */
  ghost predicate IsInflation(content: bytes, entry: Entry, decode: bytes -> bytes, isWhole: bytes -> bool, crc32: bytes -> nat, sent: bytes) {
    exists n: nat :: InflatesAt(content, entry, decode, isWhole, crc32, n) && sent == decode(Stored(content, entry, n))
  }

  /** The archive holds all the stored bytes, and they inflate to what it recorded. */
  ghost predicate CanInflate(content: bytes, entry: Entry, decode: bytes -> bytes, isWhole: bytes -> bool, crc32: bytes -> nat) {
    && (entry.compressedSize > 0 ==> HasStored(content, entry, entry.compressedSize))
    && exists n: nat :: InflatesAt(content, entry, decode, isWhole, crc32, n)
  }

  /**
   At every moment, what left is a prefix of what the stored bytes decode to and no longer
   than recorded; once the body is complete it is the decoding of the first whole stream
   among them, has the recorded size and the recorded CRC.
   */
  lemma InflatedIsWhole(body: InflatedBody)
    requires body.Valid()
    ensures var read := body.entry.compressedSize - body.unread;
            body.sent <= body.inflater.decoder.decode(Stored(body.archive.content, body.entry, read))
    ensures |body.sent| <= body.entry.uncompressedSize
    ensures body.Complete() ==>
              && |body.sent| == body.entry.uncompressedSize
              && IsInflation(body.archive.content, body.entry, body.inflater.decoder.decode, body.inflater.decoder.isWhole, body.crc32, body.sent)
  {
    var decoder, content, read := body.inflater.decoder, body.archive.content, body.entry.compressedSize - body.unread;
    var taken, stored := decoder.taken, Stored(content, body.entry, read);
    assert taken <= stored;
    MoreDecoded(decoder.decode, taken, stored);
    assert body.sent <= decoder.produced;
    if body.Complete() {
      assert body.sent == decoder.produced;
      var n := |taken|;
      StoredWithin(content, body.entry, n, read);
      assert InflatesAt(content, body.entry, decoder.decode, decoder.isWhole, body.crc32, n);
    }
  }

  lemma StoredWithin(content: bytes, entry: Entry, n: nat, read: nat)
    requires n <= read && (read > 0 ==> HasStored(content, entry, read))
    ensures (n > 0 ==> HasStored(content, entry, n)) && Stored(content, entry, n) == Stored(content, entry, read)[..n]
  {
  }

  lemma InputTaken(taken: bytes, rest: bytes, n: nat)
    requires n <= |rest|
    ensures (taken + rest[..n]) + rest[n..] == taken + rest
  {
  }

  /** What stands behind the handed-out part of the history is what was produced behind it. */
  lemma WindowHoldsProduced(window: bytes, produced: bytes, pos: nat, start: nat, n: nat)
    requires pos <= |window| && pos <= |produced| && window[..pos] == produced[|produced| - pos..]
    requires start + n <= pos
    ensures window[start..start + n] == produced[|produced| - pos + start..|produced| - pos + start + n]
  {
    assert window[start..start + n] == window[..pos][start..start + n];
  }
}
