/** Bytes, ASCII text as bytes, and the few sequence facts the other modules share. */
module Bytes {
  type byte = x: int | 0 <= x < 0x100
  type bytes = seq<byte>

  datatype Option<+T> = None | Some(value: T)

  const CR: byte := 13
  const LF: byte := 10
  const CRLF: bytes := [13, 10]
  const SLASH: byte := 47

  /** The byte of an ASCII character; any other character becomes a question mark. */
  function AsciiByte(c: char): byte {
    if c as int < 128 then c as int else 63
  }

  /** The bytes of an ASCII literal. */
  function Ascii(text: string): (b: bytes)
    ensures |b| == |text|
  {
    seq(|text|, i requires 0 <= i < |text| => AsciiByte(text[i]))
  }

  function Min(a: int, b: int): int {
    if a < b then a else b
  }

  function Max(a: int, b: int): int {
    if a < b then b else a
  }

  function Concat(parts: seq<bytes>): bytes {
    if parts == [] then [] else parts[0] + Concat(parts[1..])
  }

  lemma {:induction false} ConcatDistributes(a: seq<bytes>, b: seq<bytes>)
    ensures Concat(a + b) == Concat(a) + Concat(b)
  {
    if a == [] {
      assert a + b == b;
    } else {
      assert (a + b)[1..] == a[1..] + b;
      ConcatDistributes(a[1..], b);
    }
  }

  lemma ConcatSingle(part: bytes)
    ensures Concat([part]) == part
  {
    assert Concat([part]) == part + Concat([]);
  }

  /** ASCII lower case. */
  function LowerByte(b: byte): byte {
    if 65 <= b <= 90 then b + 32 else b
  }

  function Lower(s: bytes): bytes {
    seq(|s|, i requires 0 <= i < |s| => LowerByte(s[i]))
  }

  predicate EqIgnoreCase(a: bytes, b: bytes) {
    Lower(a) == Lower(b)
  }

  /** `s` cut at every `sep`; never empty. */
  function SplitAt(s: bytes, sep: byte): (parts: seq<bytes>)
    ensures |parts| >= 1
    ensures forall p :: p in parts ==> sep !in p
  {
    if s == [] then [[]]
    else
      var rest := SplitAt(s[1..], sep);
      if s[0] == sep then [[]] + rest else [[s[0]] + rest[0]] + rest[1..]
  }

  /** Joining the halves by the separator joins the lists of parts. */
  lemma {:induction false} SplitAtJoins(a: bytes, sep: byte, b: bytes)
    ensures SplitAt(a + [sep] + b, sep) == SplitAt(a, sep) + SplitAt(b, sep)
  {
    var whole := a + [sep] + b;
    if a == [] {
      assert whole[1..] == b;
    } else {
      assert whole[1..] == a[1..] + [sep] + b;
      SplitAtJoins(a[1..], sep, b);
    }
  }

  /** Text without the separator is one part. */
  lemma {:induction false} SplitAtWhole(a: bytes, sep: byte)
    requires sep !in a
    ensures SplitAt(a, sep) == [a]
  {
    if a != [] {
      SplitAtWhole(a[1..], sep);
      assert [a[0]] + a[1..] == a;
    }
  }

  /** Where `b` first stands in `s`. */
  function IndexOf(s: bytes, b: byte): (at: Option<nat>)
    ensures at.None? <==> b !in s
    ensures at.Some? ==> at.value < |s| && s[at.value] == b && b !in s[..at.value]
  {
    if s == [] then None
    else if s[0] == b then Some(0)
    else match IndexOf(s[1..], b)
      case None => None
      case Some(i) =>
        assert s[..i + 1] == [s[0]] + s[1..][..i];
        Some(i + 1)
  }

  lemma {:induction false} IndexIs(s: bytes, b: byte, i: nat)
    requires i < |s| && s[i] == b && b !in s[..i]
    ensures IndexOf(s, b) == Some(i)
  {
    if i > 0 {
      assert s[..i][0] == s[0];
      assert s[1..][..i - 1] == s[..i][1..];
      IndexIs(s[1..], b, i - 1);
    }
  }
}
