/** Percent-coding of names in links, and its undoing in request paths. */
module Percent {
  import opened Bytes
  import opened Numerals

  /** Bytes that stand for themselves in a path segment. */
  predicate IsPlain(b: byte) {
    32 < b < 127 && b !in {34, 35, 37, 38, 60, 62, 63, 92, 96, 123, 125}
  }

  function EncodeByte(b: byte): bytes {
    if IsPlain(b) then [b] else [37, UpperHexDigit(b as int / 16), UpperHexDigit(b as int % 16)]
  }

  function Encode(name: bytes): bytes {
    if name == [] then [] else EncodeByte(name[0]) + Encode(name[1..])
  }

  /** The next decoded byte of a nonempty `raw`, and how many bytes spell it. */
  function Next(raw: bytes): (r: (byte, nat))
    requires raw != []
    ensures 1 <= r.1 <= |raw|
  {
    if raw[0] == 37 && |raw| >= 3 && HexDigitValue(raw[1]).Some? && HexDigitValue(raw[2]).Some?
    then (16 * HexDigitValue(raw[1]).value + HexDigitValue(raw[2]).value, 3)
    else (raw[0], 1)
  }

  /** Escapes decoded; a `%` that starts none stands for itself. */
  function Decode(raw: bytes): (path: bytes)
    ensures |path| <= |raw|
  {
    if raw == [] then [] else [Next(raw).0] + Decode(raw[Next(raw).1..])
  }

  lemma HexDigitsRead(n: nat)
    requires n < 16
    ensures HexDigitValue(UpperHexDigit(n)) == Some(n)
  {
  }

  lemma DecodesEncodedByte(b: byte, rest: bytes)
    ensures Decode(EncodeByte(b) + rest) == [b] + Decode(rest)
  {
    var code := EncodeByte(b);
    assert (code + rest)[|code|..] == rest;
    if !IsPlain(b) {
      HexDigitsRead(b as int / 16);
      HexDigitsRead(b as int % 16);
    }
  }

  /** Decoding undoes encoding, whatever follows the name. */
  lemma {:induction false} DecodeEncode(name: bytes, rest: bytes)
    ensures Decode(Encode(name) + rest) == name + Decode(rest)
  {
    hide Decode, EncodeByte;
    if name == [] {
      assert Encode(name) + rest == rest;
    } else {
      var code := EncodeByte(name[0]);
      assert Encode(name) + rest == code + (Encode(name[1..]) + rest);
      DecodesEncodedByte(name[0], Encode(name[1..]) + rest);
      DecodeEncode(name[1..], rest);
    }
  }

  /** No escape straddles a slash, so decoding works segment by segment. */
  lemma {:induction false} DecodeAcrossSlash(dir: bytes, rest: bytes)
    requires dir != [] && dir[|dir| - 1] == SLASH
    ensures Decode(dir + rest) == Decode(dir) + Decode(rest)
    decreases |dir|
  {
    var n := Next(dir).1;
    assert Next(dir + rest) == Next(dir);
    assert (dir + rest)[n..] == dir[n..] + rest;
    if n < |dir| {
      DecodeAcrossSlash(dir[n..], rest);
    } else {
      assert dir[n..] + rest == rest;
    }
  }

  /** Nor does one reach into a slash behind it. */
  lemma {:induction false} DecodeBeforeSlash(raw: bytes)
    ensures Decode(raw + [SLASH]) == Decode(raw) + [SLASH]
    decreases |raw|
  {
    if raw == [] {
      assert raw + [SLASH] == [SLASH] && [SLASH][1..] == [];
    } else {
      var n := Next(raw).1;
      assert Next(raw + [SLASH]) == Next(raw);
      assert (raw + [SLASH])[n..] == raw[n..] + [SLASH];
      DecodeBeforeSlash(raw[n..]);
    }
  }

  /** A percent sign and two hex digits. */
  predicate EscapeAt(raw: bytes, i: nat) {
    i + 3 <= |raw| && raw[i] == 37 && HexDigitValue(raw[i + 1]).Some? && HexDigitValue(raw[i + 2]).Some?
  }

  /** What holds no escape stands for itself, stray percent signs included. */
  lemma {:induction false} DecodeUnescaped(raw: bytes)
    requires forall i :: 0 <= i < |raw| ==> !EscapeAt(raw, i)
    ensures Decode(raw) == raw
  {
    if raw != [] {
      assert !EscapeAt(raw, 0);
      forall i | 0 <= i < |raw| - 1
        ensures !EscapeAt(raw[1..], i)
      {
        assert !EscapeAt(raw, i + 1);
      }
      DecodeUnescaped(raw[1..]);
    }
  }

  /** An escape stands for the byte that its digits spell, in either case. */
  lemma EscapeDecodes(escape: bytes, rest: bytes)
    requires |escape| == 3 && EscapeAt(escape, 0)
    ensures exists b: byte :: HexValue(escape[1..]) == Some(b) && Decode(escape + rest) == [b] + Decode(rest)
  {
    var raw := escape + rest;
    var b := Next(raw).0;
    assert raw[3..] == rest;
    var digits := escape[1..];
    assert digits[..1][..0] == [] && HexValue(digits[..1]) == HexDigitValue(digits[0]);
    assert HexValue(digits) == Some(b as nat);
  }

  /** Which bytes a link spells out: controls, blanks, quotation marks and what is not ASCII among them. */
  lemma EncodesAllBut(b: byte)
    ensures Encode([b]) == [b] <==> 32 < b < 127 && b !in Ascii("\"#%&<>?\\`{}")
  {
    assert Ascii("\"#%&<>?\\`{}") == [34, 35, 37, 38, 60, 62, 63, 92, 96, 123, 125];
    assert Encode([b]) == EncodeByte(b) + Encode([]);
  }

  /** A decoded path ends in a slash if the raw one does. */
  lemma {:induction false} DecodeKeepsFinalSlash(dir: bytes)
    requires dir != [] && dir[|dir| - 1] == SLASH
    ensures Decode(dir) != [] && Decode(dir)[|Decode(dir)| - 1] == SLASH
    decreases |dir|
  {
    var n := Next(dir).1;
    if n < |dir| {
      DecodeKeepsFinalSlash(dir[n..]);
    }
  }

  /** What an encoded name is made of: a slash only from the name, and nothing that could end a line or an attribute. */
  lemma {:induction false} EncodedIsSafe(name: bytes)
    ensures forall b :: b in Encode(name) ==> 32 < b < 127 && b != 34 && b != 63 && b != 35
    ensures SLASH in Encode(name) ==> SLASH in name
    ensures name != [] ==> Encode(name) != []
  {
    if name != [] {
      EncodedIsSafe(name[1..]);
      assert forall b :: b in EncodeByte(name[0]) ==> 32 < b < 127 && b != 34 && b != 63 && b != 35;
      assert SLASH in EncodeByte(name[0]) ==> name[0] == SLASH;
      assert name == [name[0]] + name[1..];
    }
  }
}
