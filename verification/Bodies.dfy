/**
 Entry bodies: one byte string each, cut into portions by the room that every fill is given.
 `sent` holds all portions so far. Nothing is promised of a body after a fill that failed.
 */
module Bodies {
  import opened Bytes
  import opened Numerals
  import opened Coding
  import opened Io
  import opened Inflating

  const LOCAL_HEADER_LEN: nat := 30

  predicate HasLocalHeader(content: bytes, entry: Entry) {
    entry.headerOffset + LOCAL_HEADER_LEN <= |content|
  }

  /** Where an entry's stored bytes start: behind its local header, name and extra field. */
  function DataStart(content: bytes, entry: Entry): nat
    requires HasLocalHeader(content, entry)
  {
    var h := entry.headerOffset;
    h + LOCAL_HEADER_LEN + LittleEndianValue(content[h + 26..h + 28]) + LittleEndianValue(content[h + 28..h + 30])
  }

  /** The first `n` stored bytes of an entry lie within the archive. */
  predicate HasStored(content: bytes, entry: Entry, n: nat) {
    HasLocalHeader(content, entry) && DataStart(content, entry) + n <= |content|
  }

  function Stored(content: bytes, entry: Entry, n: nat): (s: bytes)
    requires n > 0 ==> HasStored(content, entry, n)
    ensures |s| == n
  {
    if n == 0 then [] else content[DataStart(content, entry)..][..n]
  }

  lemma StoredGrows(content: bytes, entry: Entry, k: nat, n: nat)
    requires k > 0 ==> HasStored(content, entry, k)
    requires n > 0 ==> HasStored(content, entry, k + n)
    ensures n > 0 ==> Stored(content, entry, k) + content[DataStart(content, entry) + k..DataStart(content, entry) + k + n] == Stored(content, entry, k + n)
  {
    if n > 0 {
      assert Stored(content, entry, k) == content[DataStart(content, entry)..][..k];
      assert Stored(content, entry, k + n) == content[DataStart(content, entry)..][..k + n];
      hide DataStart, Stored;
      MoreOf(content, DataStart(content, entry), k, n);
    }
  }

  lemma MoreOf(s: bytes, start: nat, k: nat, n: nat)
    requires start + k + n <= |s|
    ensures s[start..][..k] + s[start + k..start + k + n] == s[start..][..k + n]
  {
    assert s[start + k..start + k + n] == s[start..][k..k + n];
  }

  /** What stands in front of `at` is untouched when all in front of `end` is. */
  lemma SameFront(before: bytes, after: bytes, at: nat, end: nat)
    requires at <= end <= |before| == |after| && after[..end] == before[..end]
    ensures after[..at] == before[..at]
  {
    assert after[..at] == after[..end][..at];
  }

  /** What was handed out grew by what was put behind it. */
  lemma Handed(before: bytes, after: bytes, start: nat, at: nat, n: nat, first: bytes, sent: bytes)
    requires start <= at && at + n <= |before| == |after| && after[..at] == before[..at]
    requires sent == first + before[start..at]
    ensures after[..start] == before[..start]
    ensures sent + after[at..at + n] == first + after[start..at + n]
  {
    SameFront(before, after, start, at);
    assert after[start..at] == after[..at][start..];
    assert before[start..at] == before[..at][start..];
    assert after[start..at + n] == before[start..at] + after[at..at + n];
    assert (first + before[start..at]) + after[at..at + n] == first + (before[start..at] + after[at..at + n]);
  }

  lemma HeaderFields(content: bytes, at: nat, header: bytes)
    requires at + LOCAL_HEADER_LEN <= |content| && header == content[at..at + LOCAL_HEADER_LEN]
    ensures header[26..28] == content[at + 26..at + 28] && header[28..30] == content[at + 28..at + 30]
  {
  }

  /** Reads the local header into `buf[at..]` as scratch and tells where the entry's data starts. */
  method FindEntryCompressedData(archive: Archive, entry: Entry, buf: array<byte>, at: nat) returns (offset: Option<nat>)
    requires at + LOCAL_HEADER_LEN <= buf.Length
    modifies buf, archive`failures
    ensures archive.failures >= old(archive.failures)
    ensures buf[..at] == old(buf[..at])
    ensures offset.None? ==> archive.failures > old(archive.failures) || !HasLocalHeader(archive.content, entry)
    ensures offset.Some? ==> HasLocalHeader(archive.content, entry) && offset.value == DataStart(archive.content, entry)
  {
    var ok := archive.ReadExactAt(buf, at, at + LOCAL_HEADER_LEN, entry.headerOffset);
    if !ok {
      return None;
    }
    var header := buf[at..at + LOCAL_HEADER_LEN];
    var nameLen, extraLen := LittleEndianValue(header[26..28]), LittleEndianValue(header[28..30]);
    HeaderFields(archive.content, entry.headerOffset, header);
    hide LittleEndianValue;
    return Some(entry.headerOffset + LOCAL_HEADER_LEN + nameLen + extraLen);
  }

  // ---------- Stored bytes in their native coding ----------

  class NativeBody {
    const archive: Archive
    const entry: Entry
    const native: NativeCoding
    /** Position of the first stored byte still to be read; None until the data was located. */
    var dataOffset: Option<nat>
    var remaining: nat
    var prefixPending: bool
    var trailerPending: bool
    ghost var sent: bytes

    ghost predicate Valid()
      reads this
    {
      var taken := entry.compressedSize - remaining;
      && remaining <= entry.compressedSize
      && (taken > 0 ==> dataOffset.Some?)
      && (dataOffset.Some? ==>
            HasStored(archive.content, entry, taken) && dataOffset.value == DataStart(archive.content, entry) + taken)
      && (prefixPending ==> taken == 0 && trailerPending)
      && (!trailerPending ==> remaining == 0)
      && sent == (if prefixPending then [] else native.Prefix())
               + Stored(archive.content, entry, taken)
               + (if trailerPending then [] else native.Trailer(entry))
    }

    /** Everything has been handed out. */
    ghost predicate Complete()
      reads this
    {
      !prefixPending && !trailerPending
    }

    /** The archive holds all that is to be handed out. */
    ghost predicate CanComplete() {
      entry.compressedSize > 0 ==> HasStored(archive.content, entry, entry.compressedSize)
    }

    constructor (archive: Archive, entry: Entry, native: NativeCoding)
      ensures Valid() && sent == []
      ensures this.archive == archive && this.entry == entry && this.native == native
      ensures prefixPending && dataOffset.None?
    {
      this.archive, this.entry, this.native := archive, entry, native;
      dataOffset, remaining := None, entry.compressedSize;
      prefixPending, trailerPending := true, true;
      sent := [];
    }

    /** The room a fill must find: for the prefix, and for the local header as long as that is unread. */
    function RoomNeeded(): nat
      reads this
    {
      (if prefixPending then |native.Prefix()| else 0) + (if remaining > 0 && dataOffset.None? then LOCAL_HEADER_LEN else 0)
    }

    method Fill(buf: array<byte>, at: nat) returns (n: Option<nat>)
      requires Valid() && at + RoomNeeded() <= buf.Length
      modifies this, buf, archive`failures
      ensures archive.failures >= old(archive.failures)
      ensures buf[..at] == old(buf[..at])
      ensures n.None? ==> archive.failures > old(archive.failures) || !CanComplete()
      ensures n.Some? ==> at + n.value <= buf.Length && Valid() && sent == old(sent) + buf[at..at + n.value]
      ensures n.Some? ==> !prefixPending
      ensures n == Some(0) ==> Complete() || buf.Length - at < (if remaining > 0 then 1 else native.TrailerLen())
    {
      hide Valid, CanComplete, NativeCoding.Prefix, NativeCoding.TrailerLen;
      ghost var first := sent;
      var end := at;
      assert sent == first + buf[at..end];
      if prefixPending {
        PutPrefix(buf, end, at, first);
        end := end + |native.Prefix()|;
      }
      if remaining > 0 {
        var count := ReadStored(buf, end, at, first);
        if count.None? {
          return None;
        }
        end := end + count.value;
      }
      if remaining == 0 && trailerPending && buf.Length - end >= native.TrailerLen() {
        PutTrailer(buf, end, at, first);
        end := end + native.TrailerLen();
      }
      return Some(end - at);
    }

    /** What was handed out since the fill began stands in `buf[start..at]`; this puts the prefix behind it. */
    method PutPrefix(buf: array<byte>, at: nat, ghost start: nat, ghost first: bytes)
      requires Valid() && prefixPending && start <= at && at + |native.Prefix()| <= buf.Length
      requires sent == first + buf[start..at]
      modifies this`prefixPending, this`sent, buf
      ensures Valid() && !prefixPending
      ensures buf[..start] == old(buf[..start])
      ensures sent == first + buf[start..at + |native.Prefix()|]
    {
      ghost var before := buf[..];
      var prefix := native.Prefix();
      forall i | 0 <= i < |prefix| {
        buf[at + i] := prefix[i];
      }
      assert buf[at..at + |prefix|] == prefix;
      assert buf[..at] == before[..at];
      Handed(before, buf[..], start, at, |prefix|, first, sent);
      prefixPending := false;
      sent := sent + prefix;
    }

    method PutTrailer(buf: array<byte>, at: nat, ghost start: nat, ghost first: bytes)
      requires Valid() && !prefixPending && remaining == 0 && trailerPending
      requires start <= at && at + native.TrailerLen() <= buf.Length
      requires sent == first + buf[start..at]
      modifies this`trailerPending, this`sent, buf
      ensures Valid() && !trailerPending
      ensures buf[..start] == old(buf[..start])
      ensures sent == first + buf[start..at + native.TrailerLen()]
    {
      hide NativeCoding.Trailer, NativeCoding.TrailerLen, NativeCoding.Prefix, Stored, HasStored, DataStart;
      ghost var before := buf[..];
      native.WriteTrailer(entry, buf, at);
      Handed(before, buf[..], start, at, native.TrailerLen(), first, sent);
      trailerPending := false;
      sent := sent + native.Trailer(entry);
    }

    /** Notes that the `count` stored bytes at `offset` are handed out. */
    method Advance(offset: nat, count: nat, ghost portion: bytes)
      requires Valid() && !prefixPending && count <= remaining && remaining > 0
      requires HasLocalHeader(archive.content, entry)
      requires offset == DataStart(archive.content, entry) + (entry.compressedSize - remaining)
      requires offset + count <= |archive.content| && portion == archive.content[offset..offset + count]
      modifies this`dataOffset, this`remaining, this`sent
      ensures Valid() && remaining == old(remaining) - count && sent == old(sent) + portion
    {
      ghost var taken := entry.compressedSize - remaining;
      StoredGrows(archive.content, entry, taken, count);
      hide Stored, DataStart, HasLocalHeader, NativeCoding.Prefix, NativeCoding.Trailer;
      ghost var stored, more := Stored(archive.content, entry, taken), Stored(archive.content, entry, taken + count);
      assert sent == native.Prefix() + stored + [];
      assert count == 0 ==> portion == [] && stored + portion == stored;
      assert stored + portion == more;
      MoreBehind(native.Prefix(), stored, portion);
      dataOffset := Some(offset + count);
      remaining := remaining - count;
      sent := sent + portion;
    }

    lemma MoreBehind(prefix: bytes, stored: bytes, portion: bytes)
      ensures prefix + stored + [] + portion == prefix + (stored + portion) + []
      ensures prefix + stored + portion == prefix + (stored + portion)
    {
    }

    /** As many stored bytes as fit; locating them uses the same room as scratch, which they then overwrite. */
    method ReadStored(buf: array<byte>, at: nat, ghost start: nat, ghost first: bytes) returns (n: Option<nat>)
      requires Valid() && !prefixPending && remaining > 0 && start <= at <= buf.Length
      requires sent == first + buf[start..at]
      requires dataOffset.None? ==> at + LOCAL_HEADER_LEN <= buf.Length
      modifies this`dataOffset, this`remaining, this`sent, buf, archive`failures
      ensures archive.failures >= old(archive.failures)
      ensures buf[..start] == old(buf[..start])
      ensures n.None? ==> archive.failures > old(archive.failures) || !CanComplete()
      ensures n.Some? ==> n.value == Min(old(remaining), buf.Length - at) && remaining == old(remaining) - n.value
      ensures n.Some? ==> Valid()
      ensures n.Some? ==> sent == first + buf[start..at + n.value]
    {
      hide Valid;
      FewerRemain();
      ghost var before := buf[..];
      var offset := Locate(buf, at);
      if offset.None? {
        SameFront(before, buf[..], start, at);
        return None;
      }
      var count := Min(remaining, buf.Length - at);
      var ok := archive.ReadExactAt(buf, at, at + count, offset.value);
      SameFront(before, buf[..], start, at);
      if !ok {
        return None;
      }
      Handed(before, buf[..], start, at, count, first, sent);
      Advance(offset.value, count, buf[at..at + count]);
      return Some(count);
    }

    lemma FewerRemain()
      requires Valid()
      ensures remaining <= entry.compressedSize
    {
    }

    /** Where the next unread stored byte lies. */
    method Locate(buf: array<byte>, at: nat) returns (offset: Option<nat>)
      requires Valid() && at <= buf.Length
      requires dataOffset.None? ==> at + LOCAL_HEADER_LEN <= buf.Length
      modifies buf, archive`failures
      ensures archive.failures >= old(archive.failures)
      ensures buf[..at] == old(buf[..at])
      ensures offset.None? ==> archive.failures > old(archive.failures) || !HasLocalHeader(archive.content, entry)
      ensures offset.Some? ==>
                HasLocalHeader(archive.content, entry)
                && offset.value == DataStart(archive.content, entry) + (entry.compressedSize - remaining)
    {
      offset := dataOffset;
      if offset.None? {
        offset := FindEntryCompressedData(archive, entry, buf, at);
      }
    }
  }

  /** What a native body has handed out begins the framed stored bytes; complete, it is all of them, as many as were announced. */
  lemma NativeIsWhole(body: NativeBody)
    requires body.Valid()
    ensures |body.sent| <= body.native.ContentLength(body.entry)
    ensures body.CanComplete() ==>
              body.sent <= Wire(body.native, body.entry, Stored(body.archive.content, body.entry, body.entry.compressedSize))
    ensures body.Complete() ==>
              && body.CanComplete()
              && body.sent == Wire(body.native, body.entry, Stored(body.archive.content, body.entry, body.entry.compressedSize))
              && |body.sent| == body.native.ContentLength(body.entry)
  {
    var content, entry := body.archive.content, body.entry;
    if body.CanComplete() {
      StoredBegins(content, entry, entry.compressedSize - body.remaining);
      var stored := Stored(content, entry, entry.compressedSize - body.remaining);
      var all := Stored(content, entry, entry.compressedSize);
      WireBegins(body.native.Prefix(), stored, all, body.native.Trailer(entry));
    }
  }

  lemma StoredBegins(content: bytes, entry: Entry, k: nat)
    requires k <= entry.compressedSize && (entry.compressedSize > 0 ==> HasStored(content, entry, entry.compressedSize))
    ensures Stored(content, entry, k) <= Stored(content, entry, entry.compressedSize)
    ensures k == entry.compressedSize ==> Stored(content, entry, k) == Stored(content, entry, entry.compressedSize)
  {
  }

  lemma WireBegins(prefix: bytes, stored: bytes, all: bytes, trailer: bytes)
    requires stored <= all
    ensures [] <= prefix + all + trailer && prefix + stored <= prefix + all + trailer && prefix + stored + [] == prefix + stored
  {
    assert all == stored + all[|stored|..];
    assert prefix + all + trailer == prefix + stored + (all[|stored|..] + trailer);
  }
}
