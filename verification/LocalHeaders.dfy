/** Archives as they are written: an entry's data behind its local header, name and extra field. */
module LocalHeaders {
  import opened Bytes
  import opened Numerals
  import opened Coding
  import opened Bodies
  import opened Inflating
  import InflatedBodies
  import DecodedBodies

  /**
   A local file header: 26 bytes of other fields, the lengths of name and extra field in two
   bytes each, the lower first, and then these two.
   */
  function LocalHeader(fields: bytes, name: bytes, extra: bytes): (h: bytes)
    requires |fields| == 26
    ensures |h| == LOCAL_HEADER_LEN + |name| + |extra|
  {
    fields + [|name| % 256, |name| / 256 % 256] + [|extra| % 256, |extra| / 256 % 256] + name + extra
  }

  /** An archive in which `header` stands where the entry's record says, and `data` behind it. */
  ghost predicate Holds(content: bytes, entry: Entry, header: bytes, data: bytes) {
    exists before: bytes, after: bytes :: |before| == entry.headerOffset && content == before + header + data + after
  }

  lemma TwoBytes(n: nat)
    requires n < 0x1_0000
    ensures LittleEndianValue([n % 256, n / 256 % 256]) == n
  {
    var s: bytes := [n % 256, n / 256 % 256];
    var high := s[1..];
    assert high == [n / 256 % 256] && high[1..] == [];
    assert LittleEndianValue(high) == n / 256;
  }

  lemma HeaderFieldsStand(fields: bytes, name: bytes, extra: bytes)
    requires |fields| == 26
    ensures LocalHeader(fields, name, extra)[26..28] == [|name| % 256, |name| / 256 % 256]
    ensures LocalHeader(fields, name, extra)[28..30] == [|extra| % 256, |extra| / 256 % 256]
  {
  }

  lemma PartOfPart(s: bytes, start: nat, a: nat, b: nat)
    requires start <= |s| && a <= b <= |s| - start
    ensures s[start..][a..b] == s[start + a..start + b]
    ensures s[start..][b..] == s[start + b..]
  {
  }

  lemma FrontOf(front: bytes, rest: bytes, a: nat, b: nat)
    requires a <= b <= |front|
    ensures (front + rest)[a..b] == front[a..b] && (front + rest)[|front|..] == rest
  {
  }

  /** The data starts right behind the local header, name and extra field included. */
  lemma DataStartsBehind(content: bytes, entry: Entry, fields: bytes, name: bytes, extra: bytes, tail: bytes)
    requires |fields| == 26 && |name| < 0x1_0000 && |extra| < 0x1_0000
    requires entry.headerOffset <= |content| && content[entry.headerOffset..] == LocalHeader(fields, name, extra) + tail
    ensures HasLocalHeader(content, entry) && DataStart(content, entry) == entry.headerOffset + |LocalHeader(fields, name, extra)|
  {
    var h, header := entry.headerOffset, LocalHeader(fields, name, extra);
    HeaderFieldsStand(fields, name, extra);
    TwoBytes(|name|);
    TwoBytes(|extra|);
    FrontOf(header, tail, 26, 28);
    FrontOf(header, tail, 28, 30);
    PartOfPart(content, h, 26, 28);
    PartOfPart(content, h, 28, 30);
    hide LocalHeader, LittleEndianValue;
  }

  /** The data of an entry is found behind its whole local header, however long its name and extra field. */
  lemma DataIsFound(content: bytes, entry: Entry, fields: bytes, name: bytes, extra: bytes, data: bytes)
    requires |fields| == 26 && |name| < 0x1_0000 && |extra| < 0x1_0000
    requires Holds(content, entry, LocalHeader(fields, name, extra), data)
    ensures HasStored(content, entry, |data|) && Stored(content, entry, |data|) == data
    ensures LocalHeader(fields, name, extra) + data <= DecodedBodies.FromHeader(content, entry)
  {
    hide LocalHeader, DataStart;
    var header := LocalHeader(fields, name, extra);
    var before: bytes, after: bytes :| |before| == entry.headerOffset && content == before + header + data + after;
    var h, tail := |before|, data + after;
    Regrouped(before, header, data, after);
    DataStartsBehind(content, entry, fields, name, extra, tail);
    PartOfPart(content, h, |header|, |header|);
    FrontOf(header, tail, 0, 0);
    assert content[h + |header|..] == tail;
    assert tail[..|data|] == data;
  }

  lemma Regrouped(before: bytes, header: bytes, data: bytes, after: bytes)
    ensures var content := before + header + data + after;
            content[|before|..] == header + (data + after) && header + data <= content[|before|..]
  {
    var content := before + header + data + after;
    assert content == before + (header + (data + after));
    assert content[|before|..] == (header + data) + after;
  }

  lemma ShorterIsNotWhole(isWhole: bytes -> bool, s: bytes, n: nat, m: nat)
    requires n < m <= |s| && NotPast(isWhole, s[..m])
    ensures !isWhole(s[..n])
  {
    assert s[..m][..n] == s[..n];
  }

  /** Only one prefix of the same bytes is whole and does not go on behind a whole one. */
  lemma OneWhole(isWhole: bytes -> bool, s: bytes, n: nat, m: nat)
    requires n <= |s| && m <= |s| && isWhole(s[..n]) && isWhole(s[..m]) && NotPast(isWhole, s[..n]) && NotPast(isWhole, s[..m])
    ensures n == m
  {
    if n < m {
      ShorterIsNotWhole(isWhole, s, n, m);
    } else if m < n {
      ShorterIsNotWhole(isWhole, s, m, n);
    }
  }

  /** Fewer stored bytes are the start of more. */
  lemma StoredStarts(content: bytes, entry: Entry, k: nat, n: nat)
    requires k <= n && (n > 0 ==> HasStored(content, entry, n))
    ensures (k > 0 ==> HasStored(content, entry, k)) && Stored(content, entry, k) == Stored(content, entry, n)[..k]
  {
    hide DataStart;
  }

  /** Data that is one whole stream of what was recorded can be served inflated, and only as what it inflates to. */
  lemma DeflatedIsServed(content: bytes, entry: Entry, data: bytes, decode: bytes -> bytes, isWhole: bytes -> bool, crc32: bytes -> nat, sent: bytes)
    requires HasStored(content, entry, |data|) && Stored(content, entry, |data|) == data && |data| == entry.compressedSize
    requires isWhole(data) && NotPast(isWhole, data)
    requires |decode(data)| == entry.uncompressedSize && crc32(decode(data)) == entry.crc32
    ensures InflatedBodies.CanInflate(content, entry, decode, isWhole, crc32)
    ensures InflatedBodies.IsInflation(content, entry, decode, isWhole, crc32, sent) <==> sent == decode(data)
  {
    hide HasStored, Stored, NotPast;
    assert InflatedBodies.InflatesAt(content, entry, decode, isWhole, crc32, |data|);
    forall n: nat | InflatedBodies.InflatesAt(content, entry, decode, isWhole, crc32, n)
      ensures n == |data|
    {
      StoredStarts(content, entry, n, |data|);
      assert data[..|data|] == data;
      OneWhole(isWhole, data, n, |data|);
    }
  }

  /** Likewise of an entry that the archive library decodes from its local header on. */
  lemma LibraryEntryIsServed(content: bytes, entry: Entry, whole: bytes, decode: bytes -> bytes, isWhole: bytes -> bool, sent: bytes)
    requires whole <= DecodedBodies.FromHeader(content, entry) && isWhole(whole) && NotPast(isWhole, whole)
    requires |decode(whole)| == entry.uncompressedSize
    ensures DecodedBodies.CanDecode(content, entry, decode, isWhole)
    ensures DecodedBodies.IsDecoding(content, entry, decode, isWhole, sent) <==> sent == decode(whole)
  {
    hide NotPast;
    var from := DecodedBodies.FromHeader(content, entry);
    assert from[..|whole|] == whole;
    assert DecodedBodies.DecodesAt(content, entry, decode, isWhole, |whole|);
    forall n: nat | DecodedBodies.DecodesAt(content, entry, decode, isWhole, n)
      ensures n == |whole|
    {
      OneWhole(isWhole, from, n, |whole|);
    }
  }
}
