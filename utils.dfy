/**
 * The helpers of src/utils.js: password hashing, the byte-loop base64
 * converters and AES-GCM encryption of one string. Web Crypto, `TextEncoder`
 * and `TextDecoder` are not modelled; they are fields of a `Crypto` value that
 * every helper takes as a parameter.
 */
module Utils {
  import opened Common
  import Hex
  import Base64

  /** The key material an imported AES-GCM `CryptoKey` stands for. */
  type Key = seq<Byte>

  /** The length of the initialisation vector `encryptData` draws. */
  const IvLength: nat := 12

  /** What `crypto.getRandomValues(new Uint8Array(12))` returns: twelve bytes. */
  type Iv = iv: seq<Byte> | |iv| == IvLength witness seq(IvLength, _ => 0)

  /** The host functions the helpers call, none of them modelled. */
  datatype Crypto = Crypto(
    utf8Encode: string -> seq<Byte>,                     // TextEncoder.encode
    utf8Decode: seq<Byte> -> string,                     // TextDecoder.decode
    sha256: seq<Byte> -> seq<Byte>,                      // crypto.subtle.digest("SHA-256", ·)
    importKey: string -> Option<Key>,                    // JSON.parse, then importKey("jwk", ·); None when either throws
    encrypt: (Key, seq<Byte>, seq<Byte>) -> seq<Byte>,   // AES-GCM encrypt(key, iv, plaintext)
    decrypt: (Key, seq<Byte>, seq<Byte>) -> Option<seq<Byte>>)  // AES-GCM decrypt; None when authentication fails

  /** What the standards the host functions implement promise and the helpers rely on:
    * AES-GCM decryption under the same key and IV undoes encryption, UTF-8 decoding undoes
    * encoding (a Dafny string holds Unicode scalar values only, so it is always well formed),
    * a SHA-256 digest is 32 bytes long, and the empty string is no JWK (`JSON.parse("")` throws). */
  ghost predicate Sound(c: Crypto)
  {
    && (forall k, iv, p :: c.decrypt(k, iv, c.encrypt(k, iv, p)) == Some(p))
    && (forall s :: c.utf8Decode(c.utf8Encode(s)) == s)
    && (forall m :: |c.sha256(m)| == 32)
    && c.importKey("") == None
  }

  /** `hashPassword(password)`: the SHA-256 digest of the UTF-8 bytes, as lower-case hex. */
  function HashPassword(c: Crypto, password: string): (h: string)
    ensures |h| == 2 * |c.sha256(c.utf8Encode(password))|
    ensures Sound(c) ==> |h| == 64
    ensures forall i :: 0 <= i < |h| ==> Hex.IsHexDigit(h[i])
  {
    Hex.HexEncode(c.sha256(c.utf8Encode(password)))
  }

  /** Two passwords hash to the same string exactly when their digests are equal; in particular
    * hashing is deterministic. */
  lemma HashPasswordEqual(c: Crypto, p: string, q: string)
    ensures HashPassword(c, p) == HashPassword(c, q) <==> c.sha256(c.utf8Encode(p)) == c.sha256(c.utf8Encode(q))
  {
    Hex.HexEncodeInjective(c.sha256(c.utf8Encode(p)), c.sha256(c.utf8Encode(q)));
  }

  /** `arrayBufferToBase64(buffer)`: builds the binary string one character per byte, then `btoa`. */
  method ArrayBufferToBase64(buffer: seq<Byte>) returns (s: string)
    ensures Base64.Btoa(Base64.ToBinary(buffer)) == Some(s)
    ensures s == Base64.Encode(buffer)
    ensures |s| == 4 * ((|buffer| + 2) / 3)
  {
    var binary := "";
    var i := 0;
    while i < |buffer|
      invariant 0 <= i <= |buffer|
      invariant |binary| == i
      invariant forall j :: 0 <= j < i ==> binary[j] as int == buffer[j]
    {
      binary := binary + [buffer[i] as char];
      i := i + 1;
    }
    // every code is below 256, so btoa does not throw, and it sees exactly the buffer's bytes
    assert Base64.IsBinary(binary);
    assert Base64.FromBinary(binary) == buffer;
    assert binary == Base64.ToBinary(buffer);
    var encoded := Base64.Btoa(binary);
    s := encoded.value;
  }

  /** `base64ToArrayBuffer(base64)`: `atob`, then a fresh buffer as long as the binary string
    * whose byte i is the code of character i. A `Uint8Array` stores its value modulo 256;
    * `atob` yields only codes below 256, so nothing is lost. `None` where `atob` throws. */
  method Base64ToArrayBuffer(base64: string) returns (buffer: Option<array<Byte>>)
    ensures buffer.Some? <==> Base64.Atob(base64).Some?
    ensures buffer.Some? ==> fresh(buffer.value)
    ensures buffer.Some? ==> |buffer.value[..]| == |Base64.Atob(base64).value|
    ensures buffer.Some? ==> forall i :: 0 <= i < buffer.value.Length ==> buffer.value[i] == Base64.Atob(base64).value[i] as int
    ensures buffer.Some? ==> Some(buffer.value[..]) == Base64.Decode(base64)
  {
    var decoded := Base64.Atob(base64);
    if decoded.None? {
      return None;
    }
    var binary := decoded.value;
    var len := |binary|;
    var bytes := new Byte[len];
    for i := 0 to len
      invariant forall j :: 0 <= j < i ==> bytes[j] == binary[j] as int
    {
      bytes[i] := binary[i] as int % 256;
    }
    assert bytes[..] == Base64.Decode(base64).value;
    buffer := Some(bytes);
  }

  /** Both helpers together give back the buffer they started from. */
  lemma BufferRoundTrip(buffer: seq<Byte>)
    ensures Base64.Decode(Base64.Encode(buffer)) == Some(buffer)
    ensures Base64.Atob(Base64.Encode(buffer)) == Some(Base64.ToBinary(buffer))
  {
    Base64.DecodeEncode(buffer);
  }

  /** What `encryptData` returns: base64 of the IV and of the ciphertext. */
  datatype Encrypted = Encrypted(iv: string, encrypted: string)

  /** `encryptData(data, key)` with `iv` the twelve random bytes it draws. */
  function EncryptData(c: Crypto, data: string, key: Key, iv: Iv): (r: Encrypted)
    ensures |r.iv| == 16
    ensures Base64.Decode(r.iv) == Some(iv[..])
    ensures Base64.Decode(r.encrypted) == Some(c.encrypt(key, iv, c.utf8Encode(data)))
  {
    var ciphertext := c.encrypt(key, iv, c.utf8Encode(data));
    Base64.DecodeEncode(iv);
    Base64.DecodeEncode(ciphertext);
    Encrypted(Base64.Encode(iv), Base64.Encode(ciphertext))
  }

  /** `decryptData(encrypted, iv, key)`; `None` where it rejects: a malformed base64 argument or
    * a ciphertext that fails authentication. */
  function DecryptData(c: Crypto, encrypted: string, iv: string, key: Key): (r: Option<string>)
    ensures Base64.Decode(iv).None? || Base64.Decode(encrypted).None? ==> r.None?
  {
    match (Base64.Decode(iv), Base64.Decode(encrypted))
    case (Some(ivBytes), Some(ciphertext)) =>
      (match c.decrypt(key, ivBytes, ciphertext)
       case None => None
       case Some(plain) => Some(c.utf8Decode(plain)))
    case _ => None
  }

  /** Decrypting what `encryptData` produced, under the same key, gives back the plaintext. */
  lemma DecryptEncrypt(c: Crypto, data: string, key: Key, iv: Iv)
    requires Sound(c)
    ensures var e := EncryptData(c, data, key, iv); DecryptData(c, e.encrypted, e.iv, key) == Some(data)
  {
    var e := EncryptData(c, data, key, iv);
    assert c.decrypt(key, iv, c.encrypt(key, iv, c.utf8Encode(data))) == Some(c.utf8Encode(data));
  }
}
