/**
 The decoders the server calls, by what it may rely on; how they decode is not part of this
 model. What a decoder turns the bytes it took into is a function `decode` of those bytes.
 */
module Inflating {
  import opened Bytes
  import opened Io

  /** More input never takes back output. */
  ghost predicate Monotone(decode: bytes -> bytes) {
    forall a: bytes, b: bytes :: a <= b ==> decode(a) <= decode(b)
  }

  lemma MoreDecoded(decode: bytes -> bytes, a: bytes, b: bytes)
    requires Monotone(decode) && a <= b
    ensures decode(a) <= decode(b)
  {
  }

  /** A whole stream begins these bytes. */
  ghost predicate HoldsWhole(isWhole: bytes -> bool, s: bytes) {
    exists n :: 0 <= n <= |s| && isWhole(s[..n])
  }

  /** These bytes do not go on behind a whole stream. */
  ghost predicate NotPast(isWhole: bytes -> bool, s: bytes) {
    forall n :: 0 <= n < |s| ==> !isWhole(s[..n])
  }

  /** Nothing that begins with `s` begins with a whole stream, or `s` itself does not if there is no more. */
  ghost predicate Hopeless(isWhole: bytes -> bool, s: bytes, final: bool) {
    forall more: bytes :: (final ==> more == []) ==> !HoldsWhole(isWhole, s + more)
  }

  datatype Progress =
    | Failed
    | Decoded(consumed: nat, output: nat, full: bool, done: bool)

  /** An incremental DEFLATE decoder that keeps its history in a window of the caller's. */
  class Decoder {
    const decode: bytes -> bytes
    /** Whether these bytes are a whole stream. */
    const isWhole: bytes -> bool
    var taken: bytes
    var produced: bytes
    /** Where in the window the history ends. */
    var pos: nat
    /** It said that it needs room before it can go on. */
    var full: bool
    /** It was just given room. */
    var roomMade: bool

    constructor (decode: bytes -> bytes, isWhole: bytes -> bool)
      ensures IsReset() && this.decode == decode && this.isWhole == isWhole
    {
      this.decode, this.isWhole := decode, isWhole;
      taken, produced, pos, full, roomMade := [], [], 0, false, false;
    }

    predicate IsReset()
      reads this
    {
      taken == [] && produced == [] && pos == 0 && !full && !roomMade
    }

    /** The history stands at the front of the window, untouched. */
    predicate HistoryIn(window: bytes)
      reads this
    {
      pos <= |window| && pos <= |produced| && window[..pos] == produced[|produced| - pos..]
    }

    ghost predicate Valid()
      reads this
    {
      Monotone(decode) && produced <= decode(taken) && NotPast(isWhole, taken) && (roomMade ==> !full)
    }

    method Reset()
      modifies this
      ensures IsReset()
    {
      taken, produced, pos, full, roomMade := [], [], 0, false, false;
    }

    /** Moves the history toward the front of the window, so that there is room, and tells by how much. */
    method MakeRoom(window: array<byte>) returns (moved: nat)
      requires Valid() && HistoryIn(window[..]) && window.Length > 0
      modifies this`pos, this`full, this`roomMade, window
      ensures Valid() && HistoryIn(window[..])
      ensures moved <= old(pos) && pos == old(pos) - moved && !full && roomMade && pos < window.Length
    {
      assert pos <= window.Length;
      var least := if pos == window.Length then 1 else 0;
      moved :| least <= moved <= pos;
      hide Monotone, NotPast;
      ghost var before := window[..];
      forall i | 0 <= i < pos - moved {
        window[i] := window[i + moved];
      }
      pos := pos - moved;
      full, roomMade := false, true;
      assert window[..pos] == before[..pos + moved][moved..];
    }

    /**
     Decodes some of `input` into the window, behind the history, but takes nothing from
     behind a whole stream. It takes input, or yields output, or is done, or finds that it
     needs room when none was just made; it fails only if no whole stream can come of this.
     */
    method Decompress(input: bytes, window: array<byte>, final: bool) returns (p: Progress)
      requires Valid() && HistoryIn(window[..]) && !full
      requires input != [] || final
      requires roomMade ==> pos < window.Length
      modifies this, window
      ensures p.Failed? ==> Hopeless(isWhole, old(taken) + input, final)
      ensures p.Decoded? ==> Valid() && HistoryIn(window[..])
      ensures p.Decoded? ==> p.consumed <= |input| && taken == old(taken) + input[..p.consumed]
      ensures p.Decoded? ==> pos == old(pos) + p.output && produced == old(produced) + window[old(pos)..pos]
      ensures p.Decoded? ==> full == p.full && !roomMade
      ensures p.Decoded? && p.done ==> isWhole(taken) && produced == decode(taken)
      ensures p.Decoded? ==> p.consumed > 0 || p.output > 0 || p.done || (p.full && !old(roomMade))
    {
      assert pos <= window.Length;
      hide Monotone, HistoryIn;
      if input == [] && !isWhole(taken) {
        NothingWhole(isWhole, taken);
        assert taken + input == taken;
        return Failed;
      }
      assert (taken + input)[..|taken|] == taken;
      var end := ReachFrom(isWhole, taken + input, |taken|);
      var consumed, next := end - |taken|, (taken + input)[..end];
      assert next == taken + input[..consumed];
      MoreDecoded(decode, taken, next);
      var portion := PortionOf(decode(next), produced, window.Length - pos, consumed == 0);
      var output := |portion|;
      var done := isWhole(next) && |produced| + output == |decode(next)|;
      var isFull := *;
      if consumed == 0 && output == 0 && !done {
        isFull := true;
      }
      Emit(portion, window);
      taken, full, roomMade := next, isFull, false;
      return Decoded(consumed, output, isFull, done);
    }

    /** Puts output into the window, behind the history. */
    method Emit(portion: bytes, window: array<byte>)
      requires HistoryIn(window[..]) && pos + |portion| <= window.Length
      modifies this`produced, this`pos, window
      ensures HistoryIn(window[..]) && pos == old(pos) + |portion|
      ensures produced == old(produced) + portion && window[old(pos)..pos] == portion
    {
      ghost var before, history := window[..], produced[|produced| - pos..];
      var n := |portion|;
      forall i | 0 <= i < n {
        window[pos + i] := portion[i];
      }
      assert window[..pos] == before[..pos] == history;
      assert window[pos..pos + n] == portion;
      assert window[..pos + n] == history + portion == (produced + portion)[|produced| - pos..];
      produced, pos := produced + portion, pos + n;
    }
  }

  lemma NothingWhole(isWhole: bytes -> bool, s: bytes)
    requires NotPast(isWhole, s) && !isWhole(s)
    ensures Hopeless(isWhole, s, true) && !HoldsWhole(isWhole, s)
  {
    assert s + [] == s && s[..|s|] == s;
  }

  lemma NotPastOneMore(isWhole: bytes -> bool, s: bytes, longer: bytes)
    requires NotPast(isWhole, s) && !isWhole(s)
    requires |longer| == |s| + 1 && s <= longer
    ensures NotPast(isWhole, longer)
  {
    forall n | 0 <= n < |longer|
      ensures !isWhole(longer[..n])
    {
      assert longer[..n] == s[..n];
      assert s[..|s|] == s;
    }
  }

  /** A decoder that takes nothing from behind a whole stream is still within the first one. */
  lemma WithinStream(isWhole: bytes -> bool, taken: bytes, stream: bytes, all: bytes)
    requires taken <= all && stream <= all && NotPast(isWhole, taken) && isWhole(stream) && NotPast(isWhole, stream)
    ensures taken <= stream && (isWhole(taken) ==> taken == stream)
  {
    PrefixOfLonger(taken, stream, all);
    PrefixOfLonger(stream, taken, all);
  }

  lemma PrefixOfLonger(a: bytes, b: bytes, all: bytes)
    requires a <= all && b <= all
    ensures |a| <= |b| ==> b[..|a|] == a
  {
  }

  /** What a decoder that showed `have` of `all` shows next: as much as it likes, or all that fits. */
  method PortionOf(all: bytes, have: bytes, most: nat, allThatFits: bool) returns (portion: bytes)
    requires have <= all
    ensures have + portion <= all && |portion| <= most
    ensures allThatFits ==> |portion| == Min(most, |all| - |have|)
  {
    var room := Min(most, |all| - |have|);
    var n: nat :| n <= room;
    if allThatFits {
      n := room;
    }
    portion := all[|have|..|have| + n];
  }

  /** How far a decoder that got to `from` goes: as far as it likes, but not past a whole stream. */
  method ReachFrom(isWhole: bytes -> bool, s: bytes, from: nat) returns (end: nat)
    requires from <= |s| && NotPast(isWhole, s[..from])
    ensures from <= end <= |s| && NotPast(isWhole, s[..end])
    ensures from < |s| && !isWhole(s[..from]) ==> end > from
  {
    end := from;
    var greedy := true;
    while end < |s| && !isWhole(s[..end]) && greedy
      invariant from <= end <= |s| && NotPast(isWhole, s[..end])
      invariant end == from ==> greedy
    {
      NotPastOneMore(isWhole, s[..end], s[..end + 1]);
      end, greedy := end + 1, *;
    }
  }

  const WINDOW_LEN: nat := 0x1_0000
  const INPUT_LEN: nat := 0x4000

  /** A decoder with the two buffers it works between. */
  class Inflater {
    const decoder: Decoder
    const window: array<byte>
    const input: array<byte>

    constructor (decode: bytes -> bytes, isWhole: bytes -> bool)
      ensures Sound() && decoder.IsReset() && fresh(decoder) && fresh(window) && fresh(input)
      ensures decoder.decode == decode && decoder.isWhole == isWhole
    {
      decoder := new Decoder(decode, isWhole);
      window, input := new byte[WINDOW_LEN], new byte[INPUT_LEN];
    }

    predicate Sound() {
      window != input && window.Length == WINDOW_LEN && input.Length == INPUT_LEN
    }
  }

  datatype Outcome =
    | Broken
    | Finished
    | Continued(bytesRead: nat, bytesWritten: nat)

  /** The archive library's own entry decoder, which is fed the archive from the local header on. */
  class EntryFsm {
    const decode: bytes -> bytes
    /** Whether these bytes are a whole entry, from its local header on. */
    const isWhole: bytes -> bool
    var fed: bytes
    /** How much of what it was fed it has worked off. */
    var used: nat
    var produced: bytes
    var wants: bool
    var space: nat

    constructor (decode: bytes -> bytes, isWhole: bytes -> bool)
      requires Monotone(decode)
      ensures Valid() && fed == [] && produced == [] && this.decode == decode && this.isWhole == isWhole
    {
      this.decode, this.isWhole := decode, isWhole;
      fed, used, produced, wants, space := [], 0, [], true, 1;
    }

    ghost predicate Valid()
      reads this
    {
      Monotone(decode) && used <= |fed| && produced <= decode(fed[..used]) && (wants ==> space > 0) && NotPast(isWhole, fed[..used])
    }

    method Fill(data: bytes)
      requires Valid() && wants && |data| <= space
      modifies this`fed
      ensures Valid() && fed == old(fed) + data
    {
      assert (fed + data)[..used] == fed[..used];
      fed := fed + data;
    }

    /**
     Works on, but uses nothing from behind a whole entry. When it neither takes nor yields
     anything, it wants to be fed, because it holds no whole entry; it breaks only if no
     whole entry can come of this.
     */
    method Process(buf: array<byte>, at: nat) returns (outcome: Outcome)
      requires Valid() && at < buf.Length
      modifies this`used, this`produced, this`wants, this`space, buf
      ensures buf[..at] == old(buf[..at])
      ensures outcome.Broken? ==> Hopeless(isWhole, fed, false)
      ensures outcome.Continued? ==> Valid() && used == old(used) + outcome.bytesRead
      ensures outcome.Continued? ==> at + outcome.bytesWritten <= buf.Length
      ensures outcome.Continued? ==> produced == old(produced) + buf[at..at + outcome.bytesWritten]
      ensures outcome.Continued? ==> outcome.bytesRead > 0 || outcome.bytesWritten > 0 || (wants && !HoldsWhole(isWhole, fed))
      ensures outcome.Finished? ==> Valid() && produced == old(produced) && isWhole(fed[..used]) && produced == decode(fed[..used])
    {
      hide Monotone, HoldsWhole, NotPast;
      var some: nat :| 0 < some;
      assert used == |fed| ==> fed[..used] == fed;
      if used == |fed| && !isWhole(fed) {
        assert buf[at..at] == [];
        NothingWhole(isWhole, fed);
        wants, space := true, some;
        return Continued(0, 0);
      }
      if isWhole(fed[..used]) && |decode(fed[..used])| == |produced| {
        return Finished;
      }
      var read, portion := Work(buf.Length - at);
      Show(portion, buf, at);
      used, wants, space := used + read, *, some;
      return Continued(read, |portion|);
    }

    /** How far it goes next, and what it shows of that. */
    method Work(most: nat) returns (read: nat, portion: bytes)
      requires Valid() && most > 0
      requires (used < |fed| && !isWhole(fed[..used])) || |decode(fed[..used])| > |produced|
      ensures used + read <= |fed| && NotPast(isWhole, fed[..used + read])
      ensures |portion| <= most && produced + portion <= decode(fed[..used + read])
      ensures read > 0 || |portion| > 0
    {
      hide Monotone, NotPast;
      var end := ReachFrom(isWhole, fed, used);
      read := end - used;
      assert fed[..used] <= fed[..end];
      MoreDecoded(decode, fed[..used], fed[..end]);
      portion := PortionOf(decode(fed[..end]), produced, most, read == 0);
    }

    method Show(portion: bytes, buf: array<byte>, at: nat)
      requires at + |portion| <= buf.Length
      modifies this`produced, buf
      ensures buf[..at] == old(buf[..at]) && buf[at..at + |portion|] == portion
      ensures produced == old(produced) + portion
    {
      forall i | 0 <= i < |portion| {
        buf[at + i] := portion[i];
      }
      produced := produced + portion;
    }
  }
}
