/** An entry decoded by the archive library, held to its recorded size. */
module DecodedBodies {
  import opened Bytes
  import opened Coding
  import opened Io
  import opened Inflating

  /** The archive from an entry's local header on. */
  function FromHeader(content: bytes, entry: Entry): bytes {
    if entry.headerOffset <= |content| then content[entry.headerOffset..] else []
  }

  /**
   The first `n` bytes from the entry's header on are the first whole entry there, and decode
   to as many bytes as recorded.
   */
  ghost predicate DecodesAt(content: bytes, entry: Entry, decode: bytes -> bytes, isWhole: bytes -> bool, n: nat) {
    var from := FromHeader(content, entry);
    n <= |from| && isWhole(from[..n]) && NotPast(isWhole, from[..n]) && |decode(from[..n])| == entry.uncompressedSize
  }

  /** `sent` is what the library decodes the entry to. */
  ghost predicate IsDecoding(content: bytes, entry: Entry, decode: bytes -> bytes, isWhole: bytes -> bool, sent: bytes) {
    exists n: nat :: DecodesAt(content, entry, decode, isWhole, n) && sent == decode(FromHeader(content, entry)[..n])
  }

  /** A whole entry of the recorded size stands at its header. */
  ghost predicate CanDecode(content: bytes, entry: Entry, decode: bytes -> bytes, isWhole: bytes -> bool) {
    exists n: nat :: DecodesAt(content, entry, decode, isWhole, n)
  }

  class DecodedBody {
    const archive: Archive
    const entry: Entry
    const fsm: EntryFsm
    /** The decoder is gone: taken by a fill that did not give it back. */
    var gone: bool
    var offset: nat
    /** The recorded size, less all that was handed out. */
    var remaining: nat
    ghost var sent: bytes

    constructor (archive: Archive, entry: Entry, fsm: EntryFsm)
      requires fsm.Valid() && fsm.fed == [] && fsm.produced == []
      ensures Valid() && sent == []
      ensures this.archive == archive && this.entry == entry && this.fsm == fsm
    {
      this.archive, this.entry, this.fsm := archive, entry, fsm;
      gone, offset, remaining, sent := false, entry.headerOffset, entry.uncompressedSize, [];
    }

    /** The decoder was fed the archive from the entry's header on, in order and without gaps. */
    ghost predicate Fed()
      reads this`offset, fsm`fed
    {
      && entry.headerOffset <= offset
      && (offset > entry.headerOffset ==> offset <= |archive.content|)
      && fsm.fed == (if offset == entry.headerOffset then [] else archive.content[entry.headerOffset..offset])
    }

    ghost predicate Valid()
      reads this, fsm
    {
      && Fed() && fsm.Valid() && sent == fsm.produced
      && remaining <= entry.uncompressedSize && |sent| == entry.uncompressedSize - remaining
      && (gone ==> remaining == 0 && fsm.isWhole(fsm.fed[..fsm.used]) && sent == fsm.decode(fsm.fed[..fsm.used]))
    }

    /** A whole entry of the recorded size stands where the archive says. */
    ghost predicate CanComplete() {
      CanDecode(archive.content, entry, fsm.decode, fsm.isWhole)
    }

    ghost predicate Complete()
      reads this
    {
      gone
    }

    method Fill(buf: array<byte>, at: nat) returns (n: Option<nat>)
      requires Valid() && at < buf.Length
      modifies this, fsm, buf, archive`failures
      ensures archive.failures >= old(archive.failures)
      ensures buf[..at] == old(buf[..at])
      ensures n.None? ==> archive.failures > old(archive.failures) || !CanComplete()
      ensures n.Some? ==> at + n.value <= buf.Length && Valid() && sent == old(sent) + buf[at..at + n.value]
      ensures n == Some(0) ==> Complete()
    {
      if gone {
        return Some(0);
      }
      gone := true;
      hide Fed, Monotone, CanComplete, NotPast;
      // Each turn reads or works off something, or the fill ends.
      while true
        invariant Fed() && fsm.Valid() && sent == fsm.produced == old(sent)
        invariant remaining == old(remaining) && gone && archive.failures >= old(archive.failures)
        invariant buf[..at] == old(buf[..at])
        decreases ToDo(), !fsm.wants
      {
        var outcome, atEof := WorkOn(buf, at);
        match outcome {
          case Broken =>
            return None;
          case Finished =>
            if remaining > 0 {
              return None;
            }
            return Some(0);
          case Continued(bytesRead, bytesWritten) =>
            if bytesWritten > 0 {
              if bytesWritten > remaining {
                return None;
              }
              GiveBack(buf[at..at + bytesWritten]);
              return Some(bytesWritten);
            }
            // No input is left, and the decoder did nothing with what it holds.
            if atEof && bytesRead == 0 {
              return None;
            }
            assert sent == fsm.produced;
        }
      }
    }

    /** How much is left to read and to work off. */
    ghost function ToDo(): nat
      requires fsm.used <= |fsm.fed|
      reads this`offset, fsm`fed, fsm`used
    {
      2 * Max(|archive.content| - offset, 0) + (|fsm.fed| - fsm.used)
    }

    /** Feeds the decoder if it wants that, and lets it work on; broken also stands for a failed read. */
    method WorkOn(buf: array<byte>, at: nat) returns (outcome: Outcome, atEof: bool)
      requires Fed() && fsm.Valid() && at < buf.Length
      modifies this`offset, fsm, buf, archive`failures
      ensures archive.failures >= old(archive.failures)
      ensures buf[..at] == old(buf[..at])
      ensures outcome.Broken? ==> archive.failures > old(archive.failures) || !CanComplete()
      ensures !outcome.Broken? ==> Fed() && fsm.Valid() && (CanComplete() ==> |fsm.produced| <= entry.uncompressedSize)
      ensures outcome.Finished? && CanComplete() ==> |fsm.produced| == entry.uncompressedSize
      ensures outcome.Finished? ==> fsm.produced == old(fsm.produced) && fsm.isWhole(fsm.fed[..fsm.used]) && fsm.produced == fsm.decode(fsm.fed[..fsm.used])
      ensures outcome.Continued? ==>
                && at + outcome.bytesWritten <= buf.Length && fsm.produced == old(fsm.produced) + buf[at..at + outcome.bytesWritten]
                && (outcome.bytesWritten == 0 && atEof && outcome.bytesRead == 0 ==> !CanComplete())
                && (outcome.bytesWritten == 0 && !(atEof && outcome.bytesRead == 0) ==>
                      ToDo() < old(ToDo()) || (ToDo() == old(ToDo()) && fsm.wants && !old(fsm.wants)))
    {
      hide Fed, Monotone, CanComplete, HoldsWhole, Hopeless, NotPast;
      atEof := false;
      if fsm.wants {
        var count := Feed(buf, at);
        if count.None? {
          return Broken, atEof;
        }
        atEof := count.value == 0;
      }
      ghost var before := buf[..];
      CompletingIsNotHopeless(atEof);
      outcome := fsm.Process(buf, at);
      assert buf[..at] == before[..at];
      if !outcome.Broken? {
        CompletingMatches();
      }
    }

    /** What the decoder was fed begins the archive from the header on, and is all of that at its end. */
    lemma FedBegins(atEof: bool)
      requires Fed() && (atEof ==> offset >= |archive.content|)
      ensures fsm.fed <= FromHeader(archive.content, entry)
      ensures atEof ==> fsm.fed == FromHeader(archive.content, entry)
    {
    }

    /** As long as the body can complete, the decoder is never without hope, and at the end holds a whole entry. */
    lemma CompletingIsNotHopeless(atEof: bool)
      requires Fed() && (atEof ==> offset >= |archive.content|)
      ensures CanComplete() ==> !Hopeless(fsm.isWhole, fsm.fed, false) && (atEof ==> HoldsWhole(fsm.isWhole, fsm.fed))
    {
      hide Fed, FromHeader;
      FedBegins(atEof);
      if CanComplete() {
        var n: nat :| DecodesAt(archive.content, entry, fsm.decode, fsm.isWhole, n);
        var all := FromHeader(archive.content, entry);
        assert fsm.fed + all[|fsm.fed|..] == all;
        assert HoldsWhole(fsm.isWhole, all);
      }
    }

    /** What it has used and produced is within any whole entry of the recorded size. */
    lemma WithinDecoding(n: nat)
      requires Fed() && fsm.Valid() && DecodesAt(archive.content, entry, fsm.decode, fsm.isWhole, n)
      ensures var whole := FromHeader(archive.content, entry)[..n];
              && fsm.produced <= fsm.decode(whole)
              && (fsm.isWhole(fsm.fed[..fsm.used]) ==> fsm.fed[..fsm.used] == whole)
    {
      hide Fed, FromHeader;
      FedBegins(false);
      var all := FromHeader(archive.content, entry);
      WithinStream(fsm.isWhole, fsm.fed[..fsm.used], all[..n], all);
      MoreDecoded(fsm.decode, fsm.fed[..fsm.used], all[..n]);
    }

    /** What it has produced does not exceed the recorded size then, and is of that size once the entry is whole. */
    lemma CompletingMatches()
      requires Fed() && fsm.Valid()
      ensures CanComplete() ==> |fsm.produced| <= entry.uncompressedSize
      ensures CanComplete() && fsm.isWhole(fsm.fed[..fsm.used]) && fsm.produced == fsm.decode(fsm.fed[..fsm.used]) ==>
                |fsm.produced| == entry.uncompressedSize
    {
      hide Fed, FromHeader;
      if CanComplete() {
        var n: nat :| DecodesAt(archive.content, entry, fsm.decode, fsm.isWhole, n);
        WithinDecoding(n);
      }
    }

    /** Gives the decoder back once it has shown `portion`. */
    method GiveBack(portion: bytes)
      requires Fed() && fsm.Valid() && fsm.produced == sent + portion
      requires |portion| <= remaining <= entry.uncompressedSize && |sent| == entry.uncompressedSize - remaining
      modifies this`remaining, this`gone, this`sent
      ensures Valid() && sent == old(sent) + portion
    {
      remaining := remaining - |portion|;
      gone := false;
      sent := sent + portion;
    }

    /** Reads on behalf of the decoder, by way of `buf[at..]`. */
    method Feed(buf: array<byte>, at: nat) returns (n: Option<nat>)
      requires Fed() && fsm.Valid() && fsm.wants && at < buf.Length
      modifies this`offset, fsm`fed, buf, archive`failures
      ensures archive.failures >= old(archive.failures)
      ensures buf[..at] == old(buf[..at])
      ensures n.None? ==> archive.failures > old(archive.failures)
      ensures n == Some(0) ==> offset >= |archive.content|
      ensures n.Some? ==> Fed() && fsm.Valid() && offset == old(offset) + n.value && |fsm.fed| == old(|fsm.fed|) + n.value
      ensures n.Some? && n.value > 0 ==> offset <= |archive.content|
    {
      hide Monotone;
      var space := Min(fsm.space, buf.Length - at);
      n := archive.ReadAt(buf, at, at + space, offset);
      if n.Some? {
        var count := n.value;
        FedMore(archive.content, entry.headerOffset, offset, count);
        fsm.Fill(buf[at..at + count]);
        offset := offset + count;
      }
    }
  }

  lemma FedMore(content: bytes, from: nat, offset: nat, count: nat)
    requires from <= offset && (count > 0 ==> offset + count <= |content|)
    requires offset > from ==> offset <= |content|
    ensures count > 0 ==> (if offset == from then [] else content[from..offset]) + content[offset..offset + count] == content[from..offset + count]
  {
  }

  /**
   At every moment, what left is a prefix of what the archive from the header on decodes to,
   no longer than recorded; complete, it is the decoding of the first whole entry there, of
   the recorded size.
   */
  lemma DecodedIsWhole(body: DecodedBody)
    requires body.Valid()
    ensures |body.sent| <= body.entry.uncompressedSize
    ensures body.sent <= body.fsm.decode(FromHeader(body.archive.content, body.entry))
    ensures body.Complete() ==>
              && |body.sent| == body.entry.uncompressedSize
              && IsDecoding(body.archive.content, body.entry, body.fsm.decode, body.fsm.isWhole, body.sent)
  {
    var fed, all := body.fsm.fed[..body.fsm.used], FromHeader(body.archive.content, body.entry);
    body.FedBegins(false);
    MoreDecoded(body.fsm.decode, fed, all);
    if body.Complete() {
      assert all[..body.fsm.used] == fed;
      assert DecodesAt(body.archive.content, body.entry, body.fsm.decode, body.fsm.isWhole, body.fsm.used);
    }
  }
}
