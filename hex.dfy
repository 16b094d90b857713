/**
 * The digest formatting of `hashPassword`: every byte of the SHA-256 digest is
 * written with `toString(16)`, padded on the left to two characters with
 * `padStart(2, "0")`, and the pieces are joined without a separator.
 */
module Hex {
  import opened Common

  /** A character `toString(16)` can produce: a decimal digit or a lower-case letter a to f. */
  predicate IsHexDigit(c: char)
  {
    '0' <= c <= '9' || 'a' <= c <= 'f'
  }

  /** The digit `Number.prototype.toString(16)` writes for a value below 16. */
  function HexDigit(d: nat): (c: char)
    requires d < 16
    ensures IsHexDigit(c)
  {
    if d < 10 then (48 + d) as char else (97 + d - 10) as char
  }

  /** The value of one hexadecimal digit. */
  function HexDigitValue(c: char): (d: nat)
    requires IsHexDigit(c)
    ensures d < 16 && HexDigit(d) == c
  {
    if c <= '9' then c as int - 48 else c as int - 97 + 10
  }

  /** `n.toString(16)`: the shortest lower-case hexadecimal numeral of `n`. */
  function ToRadix16(n: nat): (s: string)
    ensures s != []
    decreases n
  {
    if n < 16 then [HexDigit(n)] else ToRadix16(n / 16) + [HexDigit(n % 16)]
  }

  /** `s.padStart(width, fill)` for a one-character `fill`. */
  function PadStart(s: string, width: nat, fill: char): (r: string)
  {
    if |s| >= width then s else seq(width - |s|, _ => fill) + s
  }

  /** `b.toString(16).padStart(2, "0")`: exactly two hex digits, high nibble first. */
  function ByteToHex(b: Byte): (s: string)
    ensures |s| == 2 && IsHexDigit(s[0]) && IsHexDigit(s[1])
    ensures b < 16 ==> s[0] == '0'
    ensures HexDigitValue(s[0]) * 16 + HexDigitValue(s[1]) == b
  {
    var digits := ToRadix16(b);
    assert b >= 16 ==> digits == ToRadix16(b / 16) + [HexDigit(b % 16)] == [HexDigit(b / 16), HexDigit(b % 16)];
    PadStart(digits, 2, '0')
  }

  /** The digest string: the two-digit form of every byte, in order, joined. */
  function HexEncode(digest: seq<Byte>): (s: string)
    ensures |s| == 2 * |digest|
    ensures forall i :: 0 <= i < |s| ==> IsHexDigit(s[i])
    ensures forall i :: 0 <= i < |digest| ==> s[2 * i..2 * i + 2] == ByteToHex(digest[i])
  {
    if digest == [] then [] else
      var rest := HexEncode(digest[1..]);
      assert forall i :: 1 <= i < |digest| ==> digest[i] == digest[1..][i - 1];
      ByteToHex(digest[0]) + rest
  }

  /** Reads a string of hex digit pairs back into bytes; `None` for an odd length or a non-digit. */
  function HexDecode(s: string): (r: Option<seq<Byte>>)
    ensures r.Some? ==> 2 * |r.value| == |s|
    decreases |s|
  {
    if s == [] then Some([])
    else if |s| == 1 || !IsHexDigit(s[0]) || !IsHexDigit(s[1]) then None
    else match HexDecode(s[2..])
      case None => None
      case Some(rest) => Some([HexDigitValue(s[0]) * 16 + HexDigitValue(s[1])] + rest)
  }

  /** Every two-character group of the digest string decodes back to its byte. */
  lemma {:induction false} HexDecodeEncode(digest: seq<Byte>)
    ensures HexDecode(HexEncode(digest)) == Some(digest)
  {
    if digest != [] {
      var h, t := ByteToHex(digest[0]), HexEncode(digest[1..]);
      assert HexEncode(digest) == h + t;
      HexDecodePair(h, t);
      HexDecodeEncode(digest[1..]);
      assert digest == [digest[0]] + digest[1..];
    }
  }

  /** A leading pair of hex digits decodes to one byte in front of what the rest decodes to. */
  lemma HexDecodePair(h: string, rest: string)
    requires |h| == 2 && IsHexDigit(h[0]) && IsHexDigit(h[1])
    ensures HexDecode(h + rest) ==
      match HexDecode(rest)
      case None => None
      case Some(bytes) => Some([HexDigitValue(h[0]) * 16 + HexDigitValue(h[1])] + bytes)
  {
    assert (h + rest)[2..] == rest;
  }

  /** Distinct digests give distinct strings. */
  lemma HexEncodeInjective(a: seq<Byte>, b: seq<Byte>)
    ensures HexEncode(a) == HexEncode(b) <==> a == b
  {
    if HexEncode(a) == HexEncode(b) {
      HexDecodeEncode(a);
      HexDecodeEncode(b);
    }
  }
}
