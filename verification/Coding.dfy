/** Archive entries, and the codings in which stored bytes need no decoding to be sent. */
module Coding {
  import opened Bytes
  import opened Numerals
  import Negotiation

  datatype Method = Store | Deflate | ZstdMethod | OtherMethod(code: nat)

  /** What the archive's directory records about an entry. */
  datatype Entry = Entry(name: bytes, compression: Method, crc32: nat, compressedSize: nat, uncompressedSize: nat, headerOffset: nat)
  {
    /** The recorded numbers fit the fields they are recorded in. */
    predicate Recorded() {
      crc32 < 0x1_0000_0000 && compressedSize < 0x1_0000_0000_0000_0000 && uncompressedSize < 0x1_0000_0000_0000_0000
    }
  }

  const GZIP_HEADER: bytes := [0x1f, 0x8b, 0x08, 0x00, 0x00, 0x00, 0x00, 0x00, 0x00, 0xff]
  const GZIP_TRAILER_LEN: nat := 8

  datatype NativeCoding = Identity | Gzip | Zstd
  {
    static function Of(compression: Method): Option<NativeCoding> {
      match compression
      case Store => Some(Identity)
      case Deflate => Some(Gzip)
      case ZstdMethod => Some(Zstd)
      case OtherMethod(_) => None
    }

    predicate IsAcceptedBy(accepted: Negotiation.AcceptedEncodings) {
      match this
      case Identity => true
      case Gzip => accepted.gzip
      case Zstd => accepted.zstd
    }

    function Name(): Option<bytes> {
      match this
      case Identity => None
      case Gzip => Some(Ascii("gzip"))
      case Zstd => Some(Ascii("zstd"))
    }

    function Prefix(): (p: bytes)
      ensures |p| <= 10
    {
      if Gzip? then GZIP_HEADER else []
    }

    function TrailerLen(): (n: nat)
      ensures n <= 8
    {
      if Gzip? then GZIP_TRAILER_LEN else 0
    }

    /** What the coding puts behind the stored bytes. */
    function Trailer(entry: Entry): (t: bytes)
      ensures |t| == TrailerLen()
    {
      if Gzip? then LittleEndian(entry.crc32, 4) + LittleEndian(entry.uncompressedSize, 4) else []
    }

    function ContentLength(entry: Entry): nat {
      entry.compressedSize + |Prefix()| + TrailerLen()
    }

    /** Writes the trailer into `buf[at..]`. */
    method WriteTrailer(entry: Entry, buf: array<byte>, at: nat)
      requires at + TrailerLen() <= buf.Length
      modifies buf
      ensures buf[..at] == old(buf[..at])
      ensures buf[at..at + TrailerLen()] == Trailer(entry)
    {
      if Gzip? {
        var crc, size := LittleEndian(entry.crc32, 4), LittleEndian(entry.uncompressedSize, 8);
        forall i | 0 <= i < 4 {
          buf[at + i] := crc[i];
        }
        forall i | 0 <= i < 4 {
          buf[at + 4 + i] := size[..4][i];
        }
        LowBytes(entry.uncompressedSize, 8, 4);
        assert buf[at..at + 4] == crc;
        assert buf[at + 4..at + 8] == size[..4];
        assert buf[at..at + 8] == buf[at..at + 4] + buf[at + 4..at + 8];
      }
    }
  }

  /** The low bytes of a number are its value modulo a smaller power. */
  lemma {:induction false} LowBytes(n: nat, width: nat, low: nat)
    requires low <= width
    ensures LittleEndian(n, width)[..low] == LittleEndian(n, low)
  {
    if low > 0 {
      LowBytes(n / 256, width - 1, low - 1);
      assert LittleEndian(n, width)[..low] == [n % 256] + LittleEndian(n / 256, width - 1)[..low - 1];
    }
  }

  // ---------- gzip, as section 2.3 of RFC 1952 has it ----------

  datatype Member = Member(deflated: bytes, crc32: nat, isize: nat)

  /** Reads a gzip member without optional header fields. */
  function ParseMember(s: bytes): Option<Member> {
    if |s| < 18 || s[0] != 31 || s[1] != 139 || s[2] != 8 || s[3] != 0 then None
    else
      var n := |s| - 8;
      Some(Member(s[10..n], LittleEndianValue(s[n..n + 4]), LittleEndianValue(s[n + 4..])))
  }

  /** An entry's bytes on the wire, given its stored bytes. */
  function Wire(native: NativeCoding, entry: Entry, stored: bytes): bytes {
    native.Prefix() + stored + native.Trailer(entry)
  }

  /** A deflated entry leaves as a gzip member of its stored bytes, its CRC and its size modulo 2^32. */
  lemma WireIsGzipMember(entry: Entry, stored: bytes)
    requires entry.Recorded()
    ensures ParseMember(Wire(NativeCoding.Gzip, entry, stored)) ==
            Some(Member(stored, entry.crc32, entry.uncompressedSize % 0x1_0000_0000))
  {
    FourBytes(entry.crc32);
    FourBytes(entry.uncompressedSize);
    hide LittleEndian, LittleEndianValue;
    var crc, size := LittleEndian(entry.crc32, 4), LittleEndian(entry.uncompressedSize, 4);
    MemberParts(stored, crc, size);
    assert Wire(NativeCoding.Gzip, entry, stored) == GZIP_HEADER + stored + (crc + size);
  }

  lemma FourBytes(n: nat)
    ensures LittleEndianValue(LittleEndian(n, 4)) == n % 0x1_0000_0000
  {
    hide LittleEndian, LittleEndianValue;
    assert Pow(256, 4) == 0x1_0000_0000 by { assert Pow(256, 2) == 0x1_0000; }
    LittleEndianRoundTrip(n, 4);
  }

  lemma MemberParts(stored: bytes, crc: bytes, size: bytes)
    requires |crc| == |size| == 4
    ensures ParseMember(GZIP_HEADER + stored + (crc + size)) == Some(Member(stored, LittleEndianValue(crc), LittleEndianValue(size)))
  {
    hide LittleEndianValue;
    var s, n := GZIP_HEADER + stored + (crc + size), 10 + |stored|;
    assert s[..10] == GZIP_HEADER && s[0] == 31 && s[1] == 139 && s[2] == 8 && s[3] == 0;
    assert s[10..n] == stored;
    assert s[n..n + 4] == crc && s[n + 4..] == size;
  }

  /** What is announced is what is sent. */
  lemma WireHasContentLength(native: NativeCoding, entry: Entry, stored: bytes)
    requires |stored| == entry.compressedSize
    ensures |Wire(native, entry, stored)| == native.ContentLength(entry)
  {
  }
}
