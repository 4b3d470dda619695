/** The outside world: the bytes a peer sends, the bytes sent to it, and the archive. */
module Io {
  import opened Bytes

  /** The receiving half of a connection. A read may deliver any number of bytes, or fail. */
  class Socket {
    /** What the peer has yet to deliver before it closes. */
    var unread: bytes
    /** How many reads have failed. */
    ghost var failures: nat

    constructor (stream: bytes)
      ensures unread == stream && failures == 0
    {
      unread := stream;
      failures := 0;
    }

    /** Reads into `buf[start..]`; 0 means the peer closed and None that the read failed. */
    method Read(buf: array<byte>, start: nat) returns (n: Option<nat>)
      requires start < buf.Length
      modifies this, buf
      ensures buf[..start] == old(buf[..start])
      ensures failures == old(failures) + if n.None? then 1 else 0
      ensures n.None? ==> unread == old(unread)
      ensures n.Some? ==> start + n.value <= buf.Length && buf[start..start + n.value] + unread == old(unread)
      ensures n.Some? ==> (n.value == 0 <==> old(unread) == [])
    {
      if * {
        failures := failures + 1;
        return None;
      }
      if unread == [] {
        return Some(0);
      }
      var count: nat :| 1 <= count <= |unread| && count <= buf.Length - start;
      forall i | 0 <= i < count {
        buf[start + i] := unread[i];
      }
      assert buf[start..start + count] == unread[..count];
      unread := unread[count..];
      return Some(count);
    }
  }

  /** The sending half of a connection. */
  class Sink {
    /** Everything written so far, and the separate writes it was made of. */
    var sent: bytes
    ghost var writes: seq<bytes>
    /** How many writes and flushes have failed. */
    ghost var failures: nat

    ghost predicate Valid()
      reads this
    {
      sent == Concat(writes)
    }

    constructor ()
      ensures Valid() && sent == [] && writes == [] && failures == 0
    {
      sent, writes, failures := [], [], 0;
    }

    /** Writes all of `buf[..end]`, or fails part of the way. */
    method WriteAll(buf: array<byte>, end: nat) returns (ok: bool)
      requires Valid() && end <= buf.Length
      modifies this
      ensures Valid() && failures == old(failures) + if ok then 0 else 1
      ensures ok ==> sent == old(sent) + buf[..end] && writes == old(writes) + [buf[..end]]
      ensures !ok ==> old(sent) <= sent <= old(sent) + buf[..end]
    {
      var k: nat := end;
      ok := true;
      if * {
        k :| 0 <= k <= end;
        ok, failures := false, failures + 1;
      }
      sent := sent + buf[..k];
      writes := writes + [buf[..k]];
      ConcatDistributes(old(writes), [buf[..k]]);
      ConcatSingle(buf[..k]);
      assert buf[..end][..k] == buf[..k];
      assert (old(sent) + buf[..end])[..|sent|] == sent;
    }

    /** Sees what was written on its way, or fails. */
    method Flush() returns (ok: bool)
      requires Valid()
      modifies this`failures
      ensures Valid() && failures == old(failures) + if ok then 0 else 1
    {
      ok := *;
      if !ok {
        failures := failures + 1;
      }
    }
  }

  /** The archive, whose content never changes. */
  class Archive {
    const content: bytes
    /** How many reads of bytes that it has have failed. */
    ghost var failures: nat

    constructor (content: bytes)
      ensures this.content == content && failures == 0
    {
      this.content := content;
      failures := 0;
    }

    /** Reads exactly `end - start` bytes, or fails and leaves anything there. */
    method ReadExactAt(buf: array<byte>, start: nat, end: nat, offset: nat) returns (ok: bool)
      requires start <= end <= buf.Length
      modifies buf, this`failures
      ensures failures == old(failures) + if !ok && offset + (end - start) <= |content| then 1 else 0
      ensures buf[..start] == old(buf[..start]) && buf[end..] == old(buf[end..])
      ensures ok ==> offset + (end - start) <= |content| && buf[start..end] == content[offset..offset + (end - start)]
    {
      ok := *;
      if offset + (end - start) > |content| {
        ok := false;
      } else if !ok {
        failures := failures + 1;
      }
      if ok {
        forall i | start <= i < end {
          buf[i] := content[offset + (i - start)];
        }
        assert buf[start..end] == content[offset..offset + (end - start)];
      }
    }

    /** Reads up to `end - start` bytes; 0 only at the end of the archive or without room. */
    method ReadAt(buf: array<byte>, start: nat, end: nat, offset: nat) returns (n: Option<nat>)
      requires start <= end <= buf.Length
      modifies buf, this`failures
      ensures failures == old(failures) + if n.None? then 1 else 0
      ensures buf[..start] == old(buf[..start]) && buf[end..] == old(buf[end..])
      ensures n.Some? ==> start + n.value <= end
      ensures n.Some? ==> (n.value == 0 <==> start == end || offset >= |content|)
      ensures n.Some? && n.value > 0 ==> offset + n.value <= |content| && buf[start..start + n.value] == content[offset..offset + n.value]
    {
      if * {
        failures := failures + 1;
        return None;
      }
      if start == end || offset >= |content| {
        return Some(0);
      }
      var count: nat :| 1 <= count <= end - start && count <= |content| - offset;
      forall i | 0 <= i < count {
        buf[start + i] := content[offset + i];
      }
      assert buf[start..start + count] == content[offset..offset + count];
      return Some(count);
    }
  }
}
