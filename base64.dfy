/**
 * Base64 as the browser's `btoa` and `atob` apply it to binary strings (strings
 * whose characters all have codes below 256, one character per byte).
 * `btoa` encodes with the alphabet and padding of section 4 of RFC 4648;
 * `atob` runs the WHATWG "forgiving-base64 decode", which drops ASCII white
 * space, accepts the input with or without its `=` padding, and ignores the
 * unused low bits of the last character.
 */
module Base64 {
  import opened Common

  /** A character of the alphabet of table 1 in section 4 of RFC 4648. */
  predicate IsBase64Char(c: char)
  {
    'A' <= c <= 'Z' || 'a' <= c <= 'z' || '0' <= c <= '9' || c == '+' || c == '/'
  }

  /** The 6-bit value a character of the alphabet stands for. */
  function DecodeSextet(c: char): (v: nat)
    requires IsBase64Char(c)
    ensures v < 64
  {
    if 'A' <= c <= 'Z' then c as int - 65
    else if 'a' <= c <= 'z' then c as int - 97 + 26
    else if '0' <= c <= '9' then c as int - 48 + 52
    else if c == '+' then 62
    else 63
  }

  /** The alphabet character for a 6-bit value. */
  function EncodeSextet(v: nat): (c: char)
    requires v < 64
    ensures IsBase64Char(c) && DecodeSextet(c) == v
  {
    if v < 26 then (65 + v) as char
    else if v < 52 then (97 + v - 26) as char
    else if v < 62 then (48 + v - 52) as char
    else if v == 62 then '+'
    else '/'
  }

  /** Three bytes (24 bits) as four characters, most significant bits first. */
  function EncodeGroup(a: Byte, b: Byte, c: Byte): string
  {
    [EncodeSextet(a / 4), EncodeSextet(a % 4 * 16 + b / 16), EncodeSextet(b % 16 * 4 + c / 64), EncodeSextet(c % 64)]
  }

  /** One final byte as two characters, the missing bits taken as zero. */
  function EncodeTail1(a: Byte): string
  {
    [EncodeSextet(a / 4), EncodeSextet(a % 4 * 16)]
  }

  /** Two final bytes as three characters, the missing bits taken as zero. */
  function EncodeTail2(a: Byte, b: Byte): string
  {
    [EncodeSextet(a / 4), EncodeSextet(a % 4 * 16 + b / 16), EncodeSextet(b % 16 * 4)]
  }

  /** The encoding without its padding. */
  function EncodeUnpadded(bytes: seq<Byte>): (s: string)
    ensures |s| == 4 * (|bytes| / 3) + (if |bytes| % 3 == 0 then 0 else |bytes| % 3 + 1)
    ensures |s| % 4 != 1
    ensures forall i :: 0 <= i < |s| ==> IsBase64Char(s[i])
    decreases |bytes|
  {
    if |bytes| == 0 then []
    else if |bytes| == 1 then EncodeTail1(bytes[0])
    else if |bytes| == 2 then EncodeTail2(bytes[0], bytes[1])
    else EncodeGroup(bytes[0], bytes[1], bytes[2]) + EncodeUnpadded(bytes[3..])
  }

  /** The `=` characters that fill the last group of an encoding of `n` bytes. */
  function Padding(n: nat): string
  {
    if n % 3 == 1 then "==" else if n % 3 == 2 then "=" else ""
  }

  /** The base64 encoding of section 4 of RFC 4648, padding included. */
  function Encode(bytes: seq<Byte>): (s: string)
    ensures |s| == 4 * ((|bytes| + 2) / 3) && |s| % 4 == 0
    ensures forall i :: 0 <= i < |s| ==> IsBase64Char(s[i]) || s[i] == '='
  {
    var n := |bytes|;
    assert n == 3 * (n / 3) + n % 3;
    assert (n + 2) / 3 == n / 3 + (if n % 3 == 0 then 0 else 1);
    MultipleOfFour((n + 2) / 3);
    EncodeUnpadded(bytes) + Padding(n)
  }

  /** TAB, LF, FF, CR and SPACE, which forgiving-base64 decoding discards. */
  predicate IsAsciiWhitespace(c: char)
  {
    c == '\t' || c == '\n' || c == '\U{000C}' || c == '\r' || c == ' '
  }

  /** `s` with its ASCII white space removed. */
  function RemoveWhitespace(s: string): (r: string)
    ensures forall i :: 0 <= i < |r| ==> !IsAsciiWhitespace(r[i])
    ensures (forall i :: 0 <= i < |s| ==> !IsAsciiWhitespace(s[i])) ==> r == s
    ensures |s| == 1 ==> r == (if IsAsciiWhitespace(s[0]) then [] else s)
  {
    if s == [] then []
    else if IsAsciiWhitespace(s[0]) then RemoveWhitespace(s[1..])
    else [s[0]] + RemoveWhitespace(s[1..])
  }

  /** White space is removed piece by piece: with the one-character case of `RemoveWhitespace`'s
    * contract, this fixes the result as the input's other characters, all kept, in order. */
  lemma {:induction false} RemoveWhitespaceAppend(a: string, b: string)
    ensures RemoveWhitespace(a + b) == RemoveWhitespace(a) + RemoveWhitespace(b)
  {
    if a != [] {
      assert (a + b)[0] == a[0] && (a + b)[1..] == a[1..] + b;
      RemoveWhitespaceAppend(a[1..], b);
    } else {
      assert a + b == b;
    }
  }

  /** Every character that is not white space survives the removal. */
  lemma {:induction false} RemoveWhitespaceKeeps(s: string)
    ensures forall c :: c in s && !IsAsciiWhitespace(c) ==> c in RemoveWhitespace(s)
  {
    if s != [] {
      RemoveWhitespaceKeeps(s[1..]);
      assert forall c :: c in s ==> c == s[0] || c in s[1..];
    }
  }

  /** A multiple of four leaves no remainder. */
  lemma MultipleOfFour(k: nat)
    ensures (4 * k) % 4 == 0
  {
  }

  /** Drops one or two trailing `=`. */
  function StripPadding(s: string): (r: string)
    ensures |r| <= |s| && r == s[..|r|]
    ensures forall i :: |r| <= i < |s| ==> s[i] == '='
    ensures |s| - |r| <= 2
  {
    if |s| >= 2 && s[|s| - 2] == '=' && s[|s| - 1] == '=' then s[..|s| - 2]
    else if |s| >= 1 && s[|s| - 1] == '=' then s[..|s| - 1]
    else s
  }

  /** Four characters (24 bits) as three bytes. */
  function DecodeGroup(c0: char, c1: char, c2: char, c3: char): seq<Byte>
    requires IsBase64Char(c0) && IsBase64Char(c1) && IsBase64Char(c2) && IsBase64Char(c3)
  {
    [DecodeSextet(c0) * 4 + DecodeSextet(c1) / 16,
     DecodeSextet(c1) % 16 * 16 + DecodeSextet(c2) / 4,
     DecodeSextet(c2) % 4 * 64 + DecodeSextet(c3)]
  }

  /** Two final characters (12 bits) as one byte; the low 4 bits are dropped. */
  function DecodeTail2(c0: char, c1: char): seq<Byte>
    requires IsBase64Char(c0) && IsBase64Char(c1)
  {
    [DecodeSextet(c0) * 4 + DecodeSextet(c1) / 16]
  }

  /** Three final characters (18 bits) as two bytes; the low 2 bits are dropped. */
  function DecodeTail3(c0: char, c1: char, c2: char): seq<Byte>
    requires IsBase64Char(c0) && IsBase64Char(c1) && IsBase64Char(c2)
  {
    [DecodeSextet(c0) * 4 + DecodeSextet(c1) / 16, DecodeSextet(c1) % 16 * 16 + DecodeSextet(c2) / 4]
  }

  /** Decodes unpadded alphabet characters: every four give three bytes, a final two give one byte
    * and a final three give two. */
  function DecodeUnpadded(s: string): (bytes: seq<Byte>)
    requires forall i :: 0 <= i < |s| ==> IsBase64Char(s[i])
    requires |s| % 4 != 1
    decreases |s|
  {
    if |s| == 0 then []
    else if |s| == 2 then DecodeTail2(s[0], s[1])
    else if |s| == 3 then DecodeTail3(s[0], s[1], s[2])
    else DecodeGroup(s[0], s[1], s[2], s[3]) + DecodeUnpadded(s[4..])
  }

  /** Forgiving-base64 decode; `None` where `atob` throws an InvalidCharacterError. */
  function Decode(data: string): (r: Option<seq<Byte>>)
    ensures forall c :: c in data && !IsBase64Char(c) && !IsAsciiWhitespace(c) && c != '=' ==> r.None?
    ensures |RemoveWhitespace(data)| % 4 == 1 ==> r.None?
  {
    RemoveWhitespaceKeeps(data);
    var s := RemoveWhitespace(data);
    var t := if |s| % 4 == 0 then StripPadding(s) else s;
    if |t| % 4 == 1 then None
    else if forall i :: 0 <= i < |t| ==> IsBase64Char(t[i]) then Some(DecodeUnpadded(t))
    else None
  }

  /** A string `btoa` accepts and `atob` produces: every character code is below 256. */
  predicate IsBinary(s: string)
  {
    forall i :: 0 <= i < |s| ==> s[i] as int < 256
  }

  /** The binary string of a byte sequence: character i has code `bytes[i]`. */
  function ToBinary(bytes: seq<Byte>): (s: string)
    ensures |s| == |bytes| && IsBinary(s)
    ensures forall i :: 0 <= i < |s| ==> s[i] as int == bytes[i]
  {
    seq(|bytes|, i requires 0 <= i < |bytes| => bytes[i] as char)
  }

  /** The bytes of a binary string. */
  function FromBinary(s: string): (bytes: seq<Byte>)
    requires IsBinary(s)
    ensures |bytes| == |s|
    ensures forall i :: 0 <= i < |s| ==> bytes[i] == s[i] as int
  {
    seq(|s|, i requires 0 <= i < |s| => s[i] as int)
  }

  /** `btoa(data)`; `None` where it throws because some character code exceeds 255. */
  function Btoa(data: string): (r: Option<string>)
    ensures r.Some? <==> IsBinary(data)
  {
    if IsBinary(data) then Some(Encode(FromBinary(data))) else None
  }

  /** `atob(data)`: the decoded bytes as a binary string. */
  function Atob(data: string): (r: Option<string>)
    ensures r.Some? ==> IsBinary(r.value)
  {
    match Decode(data)
    case None => None
    case Some(bytes) => Some(ToBinary(bytes))
  }

  /** One full group decodes back to its three bytes. */
  lemma GroupRoundTrip(a: Byte, b: Byte, c: Byte)
    ensures var s := EncodeGroup(a, b, c); DecodeGroup(s[0], s[1], s[2], s[3]) == [a, b, c]
  {
    var s := EncodeGroup(a, b, c);
    assert DecodeSextet(s[0]) == a / 4 && DecodeSextet(s[1]) == a % 4 * 16 + b / 16;
    assert DecodeSextet(s[2]) == b % 16 * 4 + c / 64 && DecodeSextet(s[3]) == c % 64;
    GroupBits(a, b, c);
  }

  /** The bit arithmetic of one group: the four sextets of three bytes recombine to the bytes. */
  lemma GroupBits(a: nat, b: nat, c: nat)
    requires a < 256 && b < 256 && c < 256
    ensures a / 4 * 4 + (a % 4 * 16 + b / 16) / 16 == a
    ensures (a % 4 * 16 + b / 16) % 16 * 16 + (b % 16 * 4 + c / 64) / 4 == b
    ensures (b % 16 * 4 + c / 64) % 4 * 64 + c % 64 == c
  {
    ShiftedBy16(a % 4, b / 16);
    ShiftedBy4(b % 16, c / 64);
  }

  /** Bits placed above four low bits come back out by division and remainder. */
  lemma ShiftedBy16(high: nat, low: nat)
    requires low < 16
    ensures (high * 16 + low) / 16 == high && (high * 16 + low) % 16 == low
  {
  }

  /** Bits placed above two low bits come back out by division and remainder. */
  lemma ShiftedBy4(high: nat, low: nat)
    requires low < 4
    ensures (high * 4 + low) / 4 == high && (high * 4 + low) % 4 == low
  {
  }

  /** A single final byte, encoded as two characters, decodes back. */
  lemma OneByteRoundTrip(a: Byte)
    ensures var s := EncodeTail1(a); DecodeTail2(s[0], s[1]) == [a]
  {
    assert DecodeSextet(EncodeSextet(a % 4 * 16)) / 16 == a % 4;
  }

  /** Two final bytes, encoded as three characters, decode back. */
  lemma TwoBytesRoundTrip(a: Byte, b: Byte)
    ensures var s := EncodeTail2(a, b); DecodeTail3(s[0], s[1], s[2]) == [a, b]
  {
    var s := EncodeTail2(a, b);
    assert DecodeSextet(s[1]) / 16 == a % 4 && DecodeSextet(s[1]) % 16 == b / 16;
    assert DecodeSextet(s[2]) / 4 == b % 16;
  }

  /** Decoding undoes the unpadded encoding. */
  lemma {:induction false} DecodeEncodeUnpadded(bytes: seq<Byte>)
    ensures DecodeUnpadded(EncodeUnpadded(bytes)) == bytes
    decreases |bytes|
  {
    var s := EncodeUnpadded(bytes);
    if |bytes| == 1 {
      OneByteRoundTrip(bytes[0]);
    } else if |bytes| == 2 {
      TwoBytesRoundTrip(bytes[0], bytes[1]);
    } else if |bytes| >= 3 {
      var g := EncodeGroup(bytes[0], bytes[1], bytes[2]);
      var rest := EncodeUnpadded(bytes[3..]);
      assert s == g + rest;
      GroupRoundTrip(bytes[0], bytes[1], bytes[2]);
      DecodeUnpaddedGroup(g, rest);
      DecodeEncodeUnpadded(bytes[3..]);
      SplitGroup(bytes);
    }
  }

  /** A sequence of at least three bytes is its first three followed by the rest. */
  lemma SplitGroup(bytes: seq<Byte>)
    requires |bytes| >= 3
    ensures bytes == [bytes[0], bytes[1], bytes[2]] + bytes[3..]
  {
    assert bytes[..3] == [bytes[0], bytes[1], bytes[2]];
    assert bytes == bytes[..3] + bytes[3..];
  }

  /** Decoding a leading group of four characters is independent of what follows it. */
  lemma DecodeUnpaddedGroup(g: string, rest: string)
    requires |g| == 4 && forall i :: 0 <= i < 4 ==> IsBase64Char(g[i])
    requires forall i :: 0 <= i < |rest| ==> IsBase64Char(rest[i])
    requires |rest| % 4 != 1
    ensures forall i :: 0 <= i < |g + rest| ==> IsBase64Char((g + rest)[i])
    ensures DecodeUnpadded(g + rest) == DecodeGroup(g[0], g[1], g[2], g[3]) + DecodeUnpadded(rest)
  {
    assert (g + rest)[4..] == rest;
  }

  /** Stripping the padding of an encoding leaves its unpadded part. */
  lemma {:induction false} StripEncodedPadding(bytes: seq<Byte>)
    ensures StripPadding(Encode(bytes)) == EncodeUnpadded(bytes)
  {
    var u := EncodeUnpadded(bytes);
    var s := Encode(bytes);
    if |bytes| % 3 == 1 {
      assert s[..|s| - 2] == u;
    } else if |bytes| % 3 == 2 {
      assert s[|s| - 2] == u[|u| - 1];
      assert s[..|s| - 1] == u;
    } else if u != [] {
      assert s == u;
      assert u[|u| - 1] != '=';
    }
  }

  /** An encoding holds no white space, so decoding removes nothing from it. */
  lemma EncodingHasNoWhitespace(bytes: seq<Byte>)
    ensures RemoveWhitespace(Encode(bytes)) == Encode(bytes)
  {
    var s := Encode(bytes);
    assert forall i :: 0 <= i < |s| ==> !IsAsciiWhitespace(s[i]) by {
      forall i | 0 <= i < |s| ensures !IsAsciiWhitespace(s[i]) {
        assert IsBase64Char(s[i]) || s[i] == '=';
      }
    }
  }

  /** Round trip: `atob` recovers every byte sequence `btoa` encoded. */
  lemma {:induction false} DecodeEncode(bytes: seq<Byte>)
    ensures Decode(Encode(bytes)) == Some(bytes)
  {
    var s := Encode(bytes);
    var t := EncodeUnpadded(bytes);
    EncodingHasNoWhitespace(bytes);
    StripEncodedPadding(bytes);
    assert Decode(s) == Some(DecodeUnpadded(t));
    DecodeEncodeUnpadded(bytes);
  }

  /** The same round trip on binary strings, as `arrayBufferToBase64` and `base64ToArrayBuffer`
    * pass them: `atob(btoa(binary)) == binary`. */
  lemma AtobBtoa(binary: string)
    requires IsBinary(binary)
    ensures Btoa(binary).Some? && Atob(Btoa(binary).value) == Some(binary)
  {
    DecodeEncode(FromBinary(binary));
    assert ToBinary(FromBinary(binary)) == binary;
  }
}
