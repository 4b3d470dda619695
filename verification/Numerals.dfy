/** Hexadecimal and decimal numerals as the server writes them and as a client reads them. */
module Numerals {
  import opened Bytes

  function Pow(base: nat, exp: nat): (p: nat)
    ensures base > 0 ==> p > 0
  {
    if exp == 0 then 1 else base * Pow(base, exp - 1)
  }

  function HexDigit(n: nat): (d: byte)
    requires n < 16
  {
    if n < 10 then 48 + n else 87 + n
  }

  function UpperHexDigit(n: nat): (d: byte)
    requires n < 16
  {
    if n < 10 then 48 + n else 55 + n
  }

  function HexDigitValue(b: byte): (v: Option<nat>)
    ensures v.Some? ==> v.value < 16
  {
    if 48 <= b <= 57 then Some(b - 48)
    else if 97 <= b <= 102 then Some(b - 87)
    else if 65 <= b <= 70 then Some(b - 55)
    else None
  }

  /** `n` in exactly `width` lower-case digits, most significant first. */
  function Hex(n: nat, width: nat): (s: bytes)
    ensures |s| == width
    ensures forall i :: 0 <= i < width ==> HexDigitValue(s[i]).Some?
  {
    if width == 0 then [] else Hex(n / 16, width - 1) + [HexDigit(n % 16)]
  }

  lemma {:induction false} HexIsLower(n: nat, width: nat)
    ensures forall d :: d in Hex(n, width) ==> 48 <= d <= 57 || 97 <= d <= 102
  {
    if width > 0 {
      HexIsLower(n / 16, width - 1);
    }
  }

  /** The value of a string of digits of either case. */
  function HexValue(s: bytes): Option<nat> {
    if s == [] then Some(0)
    else match (HexValue(s[..|s| - 1]), HexDigitValue(s[|s| - 1]))
      case (Some(high), Some(low)) => Some(16 * high + low)
      case _ => None
  }

  lemma {:induction false} HexRoundTrip(n: nat, width: nat)
    requires n < Pow(16, width)
    ensures HexValue(Hex(n, width)) == Some(n)
  {
    if width > 0 {
      HexRoundTrip(n / 16, width - 1);
      assert Hex(n, width)[..width - 1] == Hex(n / 16, width - 1);
    }
  }

  lemma {:induction false} HexValueBounded(s: bytes)
    ensures HexValue(s).Some? ==> HexValue(s).value < Pow(16, |s|)
  {
    if s != [] {
      HexValueBounded(s[..|s| - 1]);
    }
  }

  function Decimal(n: nat): (s: bytes)
    ensures |s| >= 1
    ensures forall b :: b in s ==> 48 <= b <= 57
  {
    if n < 10 then [48 + n] else Decimal(n / 10) + [48 + n % 10]
  }

  /** The value of a nonempty string of decimal digits. */
  function DecimalValue(s: bytes): Option<nat> {
    if s == [] || !(48 <= s[|s| - 1] <= 57) then None
    else if |s| == 1 then Some(s[0] - 48)
    else match DecimalValue(s[..|s| - 1])
      case Some(high) => Some(10 * high + s[|s| - 1] - 48)
      case None => None
  }

  lemma {:induction false} DecimalRoundTrip(n: nat)
    ensures DecimalValue(Decimal(n)) == Some(n)
  {
    if n >= 10 {
      DecimalRoundTrip(n / 10);
      assert Decimal(n)[..|Decimal(n)| - 1] == Decimal(n / 10);
    }
  }

  /** `n` modulo 2^(8 * width), least significant byte first. */
  function LittleEndian(n: nat, width: nat): (s: bytes)
    ensures |s| == width
  {
    if width == 0 then [] else [n % 256] + LittleEndian(n / 256, width - 1)
  }

  function LittleEndianValue(s: bytes): nat {
    if s == [] then 0 else s[0] + 256 * LittleEndianValue(s[1..])
  }

  lemma {:induction false} LittleEndianRoundTrip(n: nat, width: nat)
    ensures LittleEndianValue(LittleEndian(n, width)) == n % Pow(256, width)
  {
    if width > 0 {
      LittleEndianRoundTrip(n / 256, width - 1);
      ModuloSplits(n, Pow(256, width - 1));
    } else {
      assert n % 1 == 0;
    }
  }

  lemma ModuloSplits(n: nat, p: nat)
    requires p > 0
    ensures n % (256 * p) == n % 256 + 256 * ((n / 256) % p)
  {
    var high, low := n / 256, n % 256;
    var q, r := high / p, high % p;
    assert n == 256 * (q * p + r) + low;
    assert n == q * (256 * p) + (256 * r + low) by {
      assert 256 * (q * p) == q * (256 * p);
    }
    assert 0 <= 256 * r + low < 256 * p;
    RemainderIsUnique(n, 256 * p, q, 256 * r + low);
  }

  lemma RemainderIsUnique(n: nat, d: nat, q: nat, r: nat)
    requires d > 0 && r < d && n == q * d + r
    ensures n % d == r
  {
    EqualQuotients(d, q, r, n / d, n % d);
  }

  lemma EqualQuotients(d: nat, q: nat, r: nat, q': nat, r': nat)
    requires r < d && r' < d
    requires q * d + r == q' * d + r'
    ensures r == r'
  {
    assert (q' - q) * d == q' * d - q * d;
    assert (q - q') * d == q * d - q' * d;
    if q < q' {
      AtLeastOnce(q' - q, d);
    } else if q' < q {
      AtLeastOnce(q - q', d);
    }
  }

  lemma AtLeastOnce(k: nat, d: nat)
    requires k >= 1
    ensures k * d >= d
  {
  }
}
