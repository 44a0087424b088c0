/** Text encodings used to build protocol names: lowercase hexadecimal for the
    genesis hash (what `hex::encode` produces) and base-ten notation for a
    protocol version (what `Display` on an unsigned integer produces).
    Each encoder is paired with a decoder and a round-trip lemma, from which
    injectivity follows. */
module Encoding {

  /** An unsigned byte. */
  newtype u8 = x: int | 0 <= x < 0x100

  predicate IsHexDigit(c: char) {
    '0' <= c <= '9' || 'a' <= c <= 'f'
  }

  predicate IsDecimalDigit(c: char) {
    '0' <= c <= '9'
  }

  predicate AllHexDigits(s: string) {
    forall i :: 0 <= i < |s| ==> IsHexDigit(s[i])
  }

  predicate AllDecimalDigits(s: string) {
    forall i :: 0 <= i < |s| ==> IsDecimalDigit(s[i])
  }

  /** The value of one lowercase hexadecimal digit. */
  function HexDigitValue(c: char): (d: nat)
    requires IsHexDigit(c)
    ensures d < 16
  {
    if c <= '9' then c as int - '0' as int else c as int - 'a' as int + 10
  }

  /** The lowercase hexadecimal digit of a value below sixteen. */
  function HexDigit(d: nat): (c: char)
    requires d < 16
    ensures IsHexDigit(c) && HexDigitValue(c) == d
  {
    if d < 10 then ('0' as int + d) as char else ('a' as int + d - 10) as char
  }

  /** The two lowercase hexadecimal digits of a byte, high nibble first. */
  function ByteHex(b: u8): (s: string)
    ensures |s| == 2 && AllHexDigits(s)
    ensures HexDigitValue(s[0]) * 16 + HexDigitValue(s[1]) == b as int
  {
    [HexDigit(b as int / 16), HexDigit(b as int % 16)]
  }

  /** Lowercase hexadecimal encoding of a byte string, two digits per byte. */
  function Hex(bytes: seq<u8>): (s: string)
    ensures |s| == 2 * |bytes|
  {
    if bytes == [] then [] else ByteHex(bytes[0]) + Hex(bytes[1..])
  }

  /** The encoding consists of lowercase hexadecimal digits only. */
  lemma {:induction false} HexDigitsOnly(bytes: seq<u8>)
    ensures AllHexDigits(Hex(bytes))
  {
    if bytes != [] {
      HexDigitsOnly(bytes[1..]);
      var s := Hex(bytes);
      forall i | 0 <= i < |s| ensures IsHexDigit(s[i]) {
        if i >= 2 {
          assert s[i] == Hex(bytes[1..])[i - 2];
        }
      }
    }
  }

  /** A string is the encoding of a byte string when each two characters
      encode the byte at the same position. */
  lemma {:induction false} HexBytewise(bytes: seq<u8>, s: string)
    requires |s| == 2 * |bytes|
    requires forall i :: 0 <= i < |bytes| ==> ByteHex(bytes[i]) == [s[2 * i], s[2 * i + 1]]
    ensures Hex(bytes) == s
  {
    if bytes != [] {
      forall i | 0 <= i < |bytes[1..]| ensures ByteHex(bytes[1..][i]) == [s[2..][2 * i], s[2..][2 * i + 1]] {
        assert ByteHex(bytes[i + 1]) == [s[2 * (i + 1)], s[2 * (i + 1) + 1]];
      }
      HexBytewise(bytes[1..], s[2..]);
      assert s == [s[0], s[1]] + s[2..];
    }
  }

  /** Decodes a string of hexadecimal digits of even length, two digits per byte. */
  function Unhex(s: string): (bytes: seq<u8>)
    requires |s| % 2 == 0 && AllHexDigits(s)
    ensures 2 * |bytes| == |s|
  {
    if s == [] then [] else [(HexDigitValue(s[0]) * 16 + HexDigitValue(s[1])) as u8] + Unhex(s[2..])
  }

  lemma {:induction false} UnhexHex(bytes: seq<u8>)
    ensures AllHexDigits(Hex(bytes)) && Unhex(Hex(bytes)) == bytes
  {
    HexDigitsOnly(bytes);
    if bytes != [] {
      var s := Hex(bytes);
      assert s[..2] == ByteHex(bytes[0]);
      assert s[2..] == Hex(bytes[1..]);
      UnhexHex(bytes[1..]);
    }
  }

  /** Distinct byte strings have distinct hexadecimal encodings. */
  lemma HexInjective(a: seq<u8>, b: seq<u8>)
    requires Hex(a) == Hex(b)
    ensures a == b
  {
    UnhexHex(a);
    UnhexHex(b);
  }

  function DecimalDigit(d: nat): (c: char)
    requires d < 10
    ensures IsDecimalDigit(c) && c as int - '0' as int == d
  {
    ('0' as int + d) as char
  }

  /** Base-ten notation of a natural number, most significant digit first and
      without leading zeros. */
  function Decimal(n: nat): (s: string)
    ensures 1 <= |s|
    ensures 1 < |s| ==> s[0] != '0'
  {
    if n < 10 then [DecimalDigit(n)] else Decimal(n / 10) + [DecimalDigit(n % 10)]
  }

  /** The notation consists of decimal digits only. */
  lemma {:induction false} DecimalDigitsOnly(n: nat)
    ensures AllDecimalDigits(Decimal(n))
  {
    if n >= 10 {
      DecimalDigitsOnly(n / 10);
      var s := Decimal(n);
      forall i | 0 <= i < |s| ensures IsDecimalDigit(s[i]) {
        if i < |s| - 1 {
          assert s[i] == Decimal(n / 10)[i];
        }
      }
    }
  }

  /** The number a string of decimal digits denotes. */
  function DecimalValue(s: string): nat
    requires AllDecimalDigits(s)
  {
    if s == [] then 0 else DecimalValue(s[..|s| - 1]) * 10 + (s[|s| - 1] as int - '0' as int)
  }

  lemma {:induction false} DecimalValueDecimal(n: nat)
    ensures AllDecimalDigits(Decimal(n)) && DecimalValue(Decimal(n)) == n
  {
    DecimalDigitsOnly(n);
    if n >= 10 {
      var s := Decimal(n);
      assert s[..|s| - 1] == Decimal(n / 10);
      DecimalValueDecimal(n / 10);
    }
  }

  /** Distinct numbers have distinct decimal notations. */
  lemma DecimalInjective(m: nat, n: nat)
    requires Decimal(m) == Decimal(n)
    ensures m == n
  {
    DecimalValueDecimal(m);
    DecimalValueDecimal(n);
  }
}
