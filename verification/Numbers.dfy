/** Big-endian numbers, canonical hexadecimal text, and how the text orders the numbers. */
module Numbers {
  import opened Bytes

  function Power256(k: nat): (p: nat)
    ensures p > 0
  {
    if k == 0 then 1 else 256 * Power256(k - 1)
  }

  /** value >> (8 * k) on an unsigned value. */
  function ShiftBytes(value: nat, k: nat): nat {
    if k == 0 then value else ShiftBytes(value / 256, k - 1)
  }

  /** The width low octets of value, most significant first. */
  function BigEndian(value: nat, width: nat): (bytes: seq<Byte>)
    ensures |bytes| == width
    decreases value, width
  {
    if width == 0 then [] else BigEndian(value / 256, width - 1) + [(value % 256) as char]
  }

  function Magnitude(bytes: seq<Byte>): nat {
    if bytes == [] then 0
    else 256 * Magnitude(bytes[..|bytes| - 1]) + bytes[|bytes| - 1] as int
  }

  lemma {:induction false} MagnitudeOfBigEndian(value: nat, width: nat)
    requires value < Power256(width)
    ensures Magnitude(BigEndian(value, width)) == value
    decreases width
  {
    if width > 0 {
      MagnitudeOfBigEndian(value / 256, width - 1);
      assert BigEndian(value, width)[..width - 1] == BigEndian(value / 256, width - 1);
    }
  }

  lemma {:induction false} BigEndianOfMagnitude(bytes: seq<Byte>)
    ensures Magnitude(bytes) < Power256(|bytes|)
    ensures BigEndian(Magnitude(bytes), |bytes|) == bytes
  {
    if bytes != [] {
      BigEndianOfMagnitude(bytes[..|bytes| - 1]);
      assert bytes == bytes[..|bytes| - 1] + [bytes[|bytes| - 1]];
    }
  }

  /** One turn of the byte-filling loop: the next octet goes in front. */
  lemma {:induction false} BigEndianGrows(value: nat, k: nat)
    ensures BigEndian(value, k + 1) == [(ShiftBytes(value, k) % 256) as char] + BigEndian(value, k)
    decreases k
  {
    if k > 0 {
      BigEndianGrows(value / 256, k - 1);
    }
  }

  lemma {:induction false} MagnitudeFromFront(bytes: seq<Byte>)
    requires bytes != []
    ensures Magnitude(bytes) == bytes[0] as int * Power256(|bytes| - 1) + Magnitude(bytes[1..])
  {
    if |bytes| > 1 {
      var front, last := bytes[..|bytes| - 1], bytes[|bytes| - 1];
      MagnitudeFromFront(front);
      assert front[1..] == bytes[1..][..|bytes| - 2];
      ScaleProduct(bytes[0] as int, Power256(|bytes| - 2));
    }
  }

  lemma ScaleProduct(x: int, p: int)
    ensures 256 * (x * p) == x * (256 * p)
  {
  }

  /** On equal lengths the string order is the order of the big-endian numbers. */
  lemma {:induction false} LexLessIsNumeric(a: seq<Byte>, b: seq<Byte>)
    requires |a| == |b|
    ensures LexLess(a, b) <==> Magnitude(a) < Magnitude(b)
  {
    if a != [] {
      LexLessIsNumeric(a[1..], b[1..]);
      MagnitudeFromFront(a);
      MagnitudeFromFront(b);
      BigEndianOfMagnitude(a[1..]);
      BigEndianOfMagnitude(b[1..]);
      var p := Power256(|a| - 1);
      if a[0] < b[0] {
        LeadingDigitDecides(a[0] as int, b[0] as int, p, Magnitude(a[1..]), Magnitude(b[1..]));
      } else if b[0] < a[0] {
        LeadingDigitDecides(b[0] as int, a[0] as int, p, Magnitude(b[1..]), Magnitude(a[1..]));
      }
    }
  }

  lemma LeadingDigitDecides(x: int, y: int, p: nat, m: nat, n: nat)
    requires x < y && m < p
    ensures x * p + m < y * p + n
  {
    assert (x + 1) * p <= y * p;
  }

  // ---------------------------------------------------------------- hexadecimal text

  function HexDigit(n: int): Byte
    requires 0 <= n < 16
  {
    if n < 10 then ('0' as int + n) as char else ('a' as int + (n - 10)) as char
  }

  predicate IsHexDigit(c: Byte) {
    '0' <= c <= '9' || 'a' <= c <= 'f'
  }

  function DigitValue(c: Byte): (n: int)
    requires IsHexDigit(c)
    ensures 0 <= n < 16
  {
    if c <= '9' then c as int - '0' as int else c as int - 'a' as int + 10
  }

  /** Two digits an octet, high half first. */
  function HexOf(bytes: seq<Byte>): (hex: seq<Byte>)
    ensures |hex| == 2 * |bytes|
  {
    seq(2 * |bytes|, i requires 0 <= i < 2 * |bytes| =>
      if i % 2 == 0 then HexDigit(bytes[i / 2] as int / 16) else HexDigit(bytes[i / 2] as int % 16))
  }

  predicate AllHexDigits(text: seq<Byte>) {
    forall i :: 0 <= i < |text| ==> IsHexDigit(text[i])
  }

  /** What require_sha256_hex accepts. */
  predicate CanonicalSha256Hex(text: seq<Byte>) {
    |text| == 64 && AllHexDigits(text)
  }

  function FromHex(hex: seq<Byte>): (bytes: seq<Byte>)
    requires |hex| % 2 == 0 && AllHexDigits(hex)
    ensures |bytes| == |hex| / 2
  {
    seq(|hex| / 2, i requires 0 <= i < |hex| / 2 =>
      (16 * DigitValue(hex[2 * i]) + DigitValue(hex[2 * i + 1])) as char)
  }

  lemma DigitPair(high: Byte, low: Byte)
    requires IsHexDigit(high) && IsHexDigit(low)
    ensures var b := 16 * DigitValue(high) + DigitValue(low);
            HexDigit(b / 16) == high && HexDigit(b % 16) == low
  {
  }

  lemma PairOfDigits(b: Byte)
    ensures IsHexDigit(HexDigit(b as int / 16)) && IsHexDigit(HexDigit(b as int % 16))
    ensures 16 * DigitValue(HexDigit(b as int / 16)) + DigitValue(HexDigit(b as int % 16)) == b as int
  {
  }

  lemma HexDigitsAt(bytes: seq<Byte>, k: nat)
    requires k < |bytes|
    ensures HexOf(bytes)[2 * k] == HexDigit(bytes[k] as int / 16)
    ensures HexOf(bytes)[2 * k + 1] == HexDigit(bytes[k] as int % 16)
  {
  }

  lemma HexIsHex(bytes: seq<Byte>)
    ensures AllHexDigits(HexOf(bytes))
  {
    forall i | 0 <= i < 2 * |bytes|
      ensures IsHexDigit(HexOf(bytes)[i])
    {
      PairOfDigits(bytes[i / 2]);
    }
  }

  lemma HexRoundTrip(bytes: seq<Byte>)
    ensures AllHexDigits(HexOf(bytes))
    ensures FromHex(HexOf(bytes)) == bytes
  {
    HexIsHex(bytes);
    forall k | 0 <= k < |bytes|
      ensures FromHex(HexOf(bytes))[k] == bytes[k]
    {
      HexDigitsAt(bytes, k);
      PairOfDigits(bytes[k]);
    }
  }

  lemma HexOfFromHex(hex: seq<Byte>)
    requires |hex| % 2 == 0 && AllHexDigits(hex)
    ensures HexOf(FromHex(hex)) == hex
  {
    forall i | 0 <= i < |hex|
      ensures HexOf(FromHex(hex))[i] == hex[i]
    {
      PairAt(hex, i / 2);
      assert i == 2 * (i / 2) || i == 2 * (i / 2) + 1;
    }
  }

  lemma PairAt(hex: seq<Byte>, k: nat)
    requires |hex| % 2 == 0 && AllHexDigits(hex) && k < |hex| / 2
    ensures HexOf(FromHex(hex))[2 * k] == hex[2 * k]
    ensures HexOf(FromHex(hex))[2 * k + 1] == hex[2 * k + 1]
  {
    HexDigitsAt(FromHex(hex), k);
    DigitPair(hex[2 * k], hex[2 * k + 1]);
  }

  lemma HexOfSnoc(bytes: seq<Byte>, b: Byte)
    ensures HexOf(bytes + [b]) == HexOf(bytes) + [HexDigit(b as int / 16), HexDigit(b as int % 16)]
  {
  }

  lemma HexFromFront(bytes: seq<Byte>)
    requires bytes != []
    ensures HexOf(bytes) ==
            [HexDigit(bytes[0] as int / 16), HexDigit(bytes[0] as int % 16)] + HexOf(bytes[1..])
  {
  }

  lemma LexLessStep2(p: Byte, q: Byte, a: seq<Byte>, r: Byte, s: Byte, b: seq<Byte>)
    ensures LexLess([p, q] + a, [r, s] + b) <==>
            p < r || (p == r && (q < s || (q == s && LexLess(a, b))))
  {
    var x, y := [p, q] + a, [r, s] + b;
    assert x[1..] == [q] + a && y[1..] == [s] + b;
    assert x[1..][1..] == a && y[1..][1..] == b;
  }

  /** Rendering keeps the order, so identities sort as their digests do. */
  lemma {:induction false} HexKeepsOrder(a: seq<Byte>, b: seq<Byte>)
    requires |a| == |b|
    ensures LexLess(HexOf(a), HexOf(b)) <==> LexLess(a, b)
  {
    if a != [] {
      HexKeepsOrder(a[1..], b[1..]);
      HexFromFront(a);
      HexFromFront(b);
      LexLessStep2(HexDigit(a[0] as int / 16), HexDigit(a[0] as int % 16), HexOf(a[1..]),
                   HexDigit(b[0] as int / 16), HexDigit(b[0] as int % 16), HexOf(b[1..]));
    }
  }

  /** std::string comparison of two SHA-256 texts compares the 256-bit numbers they spell. */
  lemma IdentityOrderIsDigestOrder(a: Text, b: Text)
    requires CanonicalSha256Hex(a) && CanonicalSha256Hex(b)
    ensures LexLess(a, b) <==> Magnitude(FromHex(a)) < Magnitude(FromHex(b))
    ensures a == b <==> Magnitude(FromHex(a)) == Magnitude(FromHex(b))
  {
    HexOfFromHex(a);
    HexOfFromHex(b);
    HexKeepsOrder(FromHex(a), FromHex(b));
    LexLessIsNumeric(FromHex(a), FromHex(b));
    BigEndianOfMagnitude(FromHex(a));
    BigEndianOfMagnitude(FromHex(b));
  }
}
