/** The three kinds of entry bodies, filled the same way. */
module EntryBodies {
  import opened Bytes
  import opened Coding
  import opened Io
  import opened Inflating
  import opened Bodies
  import opened InflatedBodies
  import opened DecodedBodies

  /** Room that is enough for every fill of every body. */
  const ENOUGH_ROOM: nat := 40

  datatype EntryBody =
    | Native(native: NativeBody)
    | Inflated(inflated: InflatedBody)
    | Decoded(decoded: DecodedBody)
  {
    ghost function Repr(): set<object> {
      match this
      case Native(b) => {b}
      case Inflated(b) => {b, b.inflater.decoder, b.inflater.window, b.inflater.input}
      case Decoded(b) => {b, b.fsm}
    }

    ghost predicate Valid()
      reads Repr()
    {
      match this
      case Native(b) => b.Valid()
      case Inflated(b) => b.Valid()
      case Decoded(b) => b.Valid()
    }

    ghost function Sent(): bytes
      reads Repr()
    {
      match this
      case Native(b) => b.sent
      case Inflated(b) => b.sent
      case Decoded(b) => b.sent
    }

    ghost predicate Complete()
      reads Repr()
    {
      match this
      case Native(b) => b.Complete()
      case Inflated(b) => b.Complete()
      case Decoded(b) => b.Complete()
    }

    /** What the archive holds of the entry is what it records of it. */
    ghost predicate CanComplete() {
      match this
      case Native(b) => b.CanComplete()
      case Inflated(b) => b.CanComplete()
      case Decoded(b) => b.CanComplete()
    }

    /** How many bytes the response's head announces. */
    function Announced(): nat {
      match this
      case Native(b) => b.native.ContentLength(b.entry)
      case Inflated(b) => b.entry.uncompressedSize
      case Decoded(b) => b.entry.uncompressedSize
    }

    /** The next portion of whichever body it is, put at `at`; an empty one tells that nothing is left. */
    method Fill(buf: array<byte>, at: nat) returns (n: Option<nat>)
      requires Valid() && buf !in Repr() && at + ENOUGH_ROOM <= buf.Length
      modifies Repr(), buf, ArchiveOf(this)`failures
      ensures buf[..at] == old(buf[..at])
      ensures ArchiveOf(this).failures >= old(ArchiveOf(this).failures)
      ensures n.None? ==> ArchiveOf(this).failures > old(ArchiveOf(this).failures) || !CanComplete()
      ensures n.Some? ==> at + n.value <= buf.Length && Valid() && Sent() == old(Sent()) + buf[at..at + n.value]
      ensures n == Some(0) ==> Complete()
    {
      match this
      case Native(b) =>
        n := b.Fill(buf, at);
      case Inflated(b) =>
        n := b.Fill(buf, at);
      case Decoded(b) =>
        n := b.Fill(buf, at);
    }
  }

  /** No body hands out more than is announced, and a complete one has handed out as much. */
  lemma SentIsAnnounced(body: EntryBody)
    requires body.Valid()
    ensures |body.Sent()| <= body.Announced()
    ensures body.Complete() ==> |body.Sent()| == body.Announced()
  {
    match body
    case Native(b) =>
      NativeIsWhole(b);
    case Inflated(b) =>
      InflatedIsWhole(b);
    case Decoded(b) =>
      DecodedIsWhole(b);
  }

  /**
   What a complete body has handed out: the framed stored bytes; or what they inflate to, as
   recorded; or what the archive library decodes the entry to, of the recorded size.
   */
  ghost predicate IsContentOf(content: bytes, body: EntryBody, sent: bytes) {
    match body
    case Native(b) =>
      (b.entry.compressedSize > 0 ==> HasStored(content, b.entry, b.entry.compressedSize))
      && sent == Wire(b.native, b.entry, Stored(content, b.entry, b.entry.compressedSize))
    case Inflated(b) => IsInflation(content, b.entry, b.inflater.decoder.decode, b.inflater.decoder.isWhole, b.crc32, sent)
    case Decoded(b) => IsDecoding(content, b.entry, b.fsm.decode, b.fsm.isWhole, sent)
  }

  /** As long as the archive holds what it records of the entry, `s` begins what the body is to hand out. */
  ghost predicate StartsContent(body: EntryBody, s: bytes) {
    body.CanComplete() ==>
      match body
      case Native(b) => s <= Wire(b.native, b.entry, Stored(b.archive.content, b.entry, b.entry.compressedSize))
      case Inflated(b) =>
        forall n: nat :: InflatesAt(b.archive.content, b.entry, b.inflater.decoder.decode, b.inflater.decoder.isWhole, b.crc32, n) ==>
          s <= b.inflater.decoder.decode(Stored(b.archive.content, b.entry, n))
      case Decoded(b) =>
        forall n: nat :: DecodesAt(b.archive.content, b.entry, b.fsm.decode, b.fsm.isWhole, n) ==>
          s <= b.fsm.decode(FromHeader(b.archive.content, b.entry)[..n])
  }

  lemma StartsLess(body: EntryBody, s: bytes, less: bytes)
    requires StartsContent(body, s) && less <= s
    ensures StartsContent(body, less)
  {
    hide EntryBody.CanComplete, Wire, Stored, InflatesAt, DecodesAt, FromHeader;
  }

  /** Whatever becomes of a body, what it has handed out so far is right. */
  lemma SentStarts(body: EntryBody)
    requires body.Valid()
    ensures StartsContent(body, body.Sent())
  {
    if body.CanComplete() {
      match body
      case Native(b) =>
        NativeIsWhole(b);
      case Inflated(b) =>
        forall n: nat | InflatesAt(b.archive.content, b.entry, b.inflater.decoder.decode, b.inflater.decoder.isWhole, b.crc32, n)
          ensures b.sent <= b.inflater.decoder.decode(Stored(b.archive.content, b.entry, n))
        {
          b.WithinInflation(n);
        }
      case Decoded(b) =>
        forall n: nat | DecodesAt(b.archive.content, b.entry, b.fsm.decode, b.fsm.isWhole, n)
          ensures b.sent <= b.fsm.decode(FromHeader(b.archive.content, b.entry)[..n])
        {
          b.WithinDecoding(n);
        }
    }
  }

  ghost function ArchiveOf(body: EntryBody): Archive {
    match body
    case Native(b) => b.archive
    case Inflated(b) => b.archive
    case Decoded(b) => b.archive
  }

  lemma CompleteHasContent(body: EntryBody)
    requires body.Valid() && body.Complete()
    ensures IsContentOf(ArchiveOf(body).content, body, body.Sent())
  {
    match body
    case Native(b) =>
      NativeIsWhole(b);
    case Inflated(b) =>
      InflatedIsWhole(b);
    case Decoded(b) =>
      DecodedIsWhole(b);
  }
}
