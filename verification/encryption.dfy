/**
 * EncryptionService of the server: a process-wide map from user id to a symmetric key,
 * key derivation with PBKDF2 (section 5.2 of RFC 2898) and AES (FIPS 197) in CBC mode
 * with a fresh IV per call.
 *
 * The primitives are modelled symbolically: a derived key is the term that records the
 * password, salt, iteration count and size it came from, and a ciphertext is the term
 * that records key, IV and plaintext bytes. Two keys are equal exactly when their
 * inputs are, and decryption succeeds exactly under the key and IV used to encrypt.
 * The text-to-bytes conversions (`Encoding.UTF8`) are real.
 */
module Encryption {
  import opened Common

  newtype byte = x: int | 0 <= x < 256
  type Bytes = seq<byte>

  /** An AES initialisation vector: one 16-byte block. */
  type Iv = b: Bytes | |b| == 16 witness seq(16, _ => 0)

  /** `Rfc2898DeriveBytes(password, salt, 10000)` at line 12 of EncryptionService.cs. */
  const Pbkdf2Iterations: nat := 10000
  /** `deriveBytes.GetBytes(32)`: a 256-bit AES key. */
  const KeySize: nat := 32

  datatype CryptoError = KeyNotFound | DecryptionFailed

  // ---------------------------------------------------------------------------------
  // UTF-8 (`Encoding.UTF8.GetBytes` and its inverse)

  /** A code point that is a Unicode scalar value, i.e. a Dafny `char`. */
  predicate IsScalar(n: int) {
    (0 <= n < 0xD800) || (0xE000 <= n <= 0x10FFFF)
  }

  function Utf8Char(c: char): (r: Bytes)
    ensures 1 <= |r| <= 4
  {
    var n := c as int;
    if n < 0x80 then
      [n as byte]
    else if n < 0x800 then
      [(0xC0 + n / 64) as byte, (0x80 + n % 64) as byte]
    else if n < 0x10000 then
      [(0xE0 + n / 4096) as byte, (0x80 + (n / 64) % 64) as byte, (0x80 + n % 64) as byte]
    else
      [(0xF0 + n / 262144) as byte, (0x80 + (n / 4096) % 64) as byte,
       (0x80 + (n / 64) % 64) as byte, (0x80 + n % 64) as byte]
  }

  function Utf8Encode(s: string): Bytes {
    if s == [] then [] else Utf8Char(s[0]) + Utf8Encode(s[1..])
  }

  predicate IsContinuation(b: byte) {
    0x80 <= b < 0xC0
  }

  function Cont(b: byte): int {
    b as int - 0x80
  }

  /** Decodes the first character of `b` and says how many bytes it used. */
  function DecodeOne(b: Bytes): (r: Option<(char, nat)>)
    requires b != []
    ensures r.Some? ==> 1 <= r.value.1 <= |b|
  {
    var b0 := b[0] as int;
    if b0 < 0x80 then
      Some((b0 as char, 1))
    else if 0xC0 <= b0 < 0xE0 && |b| >= 2 && IsContinuation(b[1]) then
      var n := (b0 - 0xC0) * 64 + Cont(b[1]);
      if IsScalar(n) then Some((n as char, 2)) else None
    else if 0xE0 <= b0 < 0xF0 && |b| >= 3 && IsContinuation(b[1]) && IsContinuation(b[2]) then
      var n := (b0 - 0xE0) * 4096 + Cont(b[1]) * 64 + Cont(b[2]);
      if IsScalar(n) then Some((n as char, 3)) else None
    else if 0xF0 <= b0 < 0xF8 && |b| >= 4 && IsContinuation(b[1]) && IsContinuation(b[2])
            && IsContinuation(b[3]) then
      var n := (b0 - 0xF0) * 262144 + Cont(b[1]) * 4096 + Cont(b[2]) * 64 + Cont(b[3]);
      if IsScalar(n) then Some((n as char, 4)) else None
    else
      None
  }

  /**
   * UTF-8 decoding of well-formed input, the inverse of `Utf8Encode`; `None` on malformed
   * input, where a .NET decoder would substitute U+FFFD.
   */
  function Utf8Decode(b: Bytes): Option<string>
    decreases |b|
  {
    if b == [] then Some([])
    else
      match DecodeOne(b)
      case None => None
      case Some(d) =>
        match Utf8Decode(b[d.1..])
        case None => None
        case Some(rest) => Some([d.0] + rest)
  }

  lemma DecodeTwo(c: char, rest: Bytes)
    requires 0x80 <= c as int < 0x800
    ensures DecodeOne(Utf8Char(c) + rest) == Some((c, 2))
  {
    var n := c as int;
    var b := Utf8Char(c) + rest;
    assert b[0] as int == 0xC0 + n / 64 && Cont(b[1]) == n % 64;
    assert (n / 64) * 64 + n % 64 == n;
  }

  lemma DecodeThree(c: char, rest: Bytes)
    requires 0x800 <= c as int < 0x10000
    ensures DecodeOne(Utf8Char(c) + rest) == Some((c, 3))
  {
    var n := c as int;
    var b := Utf8Char(c) + rest;
    assert b[0] as int == 0xE0 + n / 4096 && Cont(b[1]) == (n / 64) % 64 && Cont(b[2]) == n % 64;
    assert (n / 64) % 64 + (n / 4096) * 64 == n / 64;
    assert (n / 64) * 64 + n % 64 == n;
  }

  lemma DecodeFour(c: char, rest: Bytes)
    requires 0x10000 <= c as int
    ensures DecodeOne(Utf8Char(c) + rest) == Some((c, 4))
  {
    var n := c as int;
    var b := Utf8Char(c) + rest;
    assert b[0] as int == 0xF0 + n / 262144;
    assert Cont(b[1]) == (n / 4096) % 64 && Cont(b[2]) == (n / 64) % 64 && Cont(b[3]) == n % 64;
    assert (n / 4096) % 64 + (n / 262144) * 64 == n / 4096;
    assert (n / 64) % 64 + (n / 4096) * 64 == n / 64;
    assert (n / 64) * 64 + n % 64 == n;
  }

  lemma DecodeOneChar(c: char, rest: Bytes)
    ensures DecodeOne(Utf8Char(c) + rest) == Some((c, |Utf8Char(c)|))
  {
    var n := c as int;
    if n < 0x80 {
    } else if n < 0x800 {
      DecodeTwo(c, rest);
    } else if n < 0x10000 {
      DecodeThree(c, rest);
    } else {
      DecodeFour(c, rest);
    }
  }

  /** Decoding what `Utf8Encode` produced gives the text back. */
  lemma {:induction false} Utf8RoundTrip(s: string)
    ensures Utf8Decode(Utf8Encode(s)) == Some(s)
  {
    if s != [] {
      var b := Utf8Encode(s);
      var k := |Utf8Char(s[0])|;
      DecodeOneChar(s[0], Utf8Encode(s[1..]));
      assert b != [] && DecodeOne(b) == Some((s[0], k));
      assert b[k..] == Utf8Encode(s[1..]);
      Utf8RoundTrip(s[1..]);
      assert [s[0]] + s[1..] == s;
    }
  }

  /** Distinct texts have distinct UTF-8 encodings. */
  lemma Utf8Injective(s: string, t: string)
    requires Utf8Encode(s) == Utf8Encode(t)
    ensures s == t
  {
    Utf8RoundTrip(s);
    Utf8RoundTrip(t);
  }

  // ---------------------------------------------------------------------------------
  // The primitives

  /** The PBKDF2 output for these inputs, as a symbolic term. */
  datatype Key = Pbkdf2(password: Bytes, salt: Bytes, iterations: nat, size: nat)

  /** The AES-CBC ciphertext of `plaintext` under `key` and `iv`, as a symbolic term. */
  datatype Ciphertext = AesCbc(key: Key, iv: Iv, plaintext: Bytes)

  /** Lines 12-13: salt = UTF-8 of the user id, 10000 iterations, 32 bytes. */
  function DeriveUserKey(password: string, userId: string): Key {
    Pbkdf2(Utf8Encode(password), Utf8Encode(userId), Pbkdf2Iterations, KeySize)
  }

  /** Lines 27-33: the UTF-8 bytes of the text written through an AES encryptor. */
  function Seal(key: Key, iv: Iv, message: string): Ciphertext {
    AesCbc(key, iv, Utf8Encode(message))
  }

  /** The UTF-8 encoding of U+FEFF, the byte-order mark. */
  const ByteOrderMark: Bytes := [0xEF, 0xBB, 0xBF]

  /**
   * Lines 50-52: `new StreamReader(cs).ReadToEnd()`. The reader detects byte-order marks
   * and skips a leading UTF-8 one; the rest is decoded as UTF-8.
   */
  function ReaderDecode(b: Bytes): Option<string> {
    if |b| >= 3 && b[..3] == ByteOrderMark then Utf8Decode(b[3..]) else Utf8Decode(b)
  }

  /** The text a reader gives back for `message`: without a leading U+FEFF. */
  function WithoutByteOrderMark(message: string): string {
    if message != [] && message[0] == '\U{FEFF}' then message[1..] else message
  }

  /** Lines 43-53: decryption through a `StreamReader`; it fails under another key or IV. */
  function Unseal(key: Key, iv: Iv, data: Ciphertext): Option<string> {
    if data.key == key && data.iv == iv then ReaderDecode(data.plaintext) else None
  }

  /** Only a text that starts with U+FEFF has UTF-8 bytes that start with the byte-order mark. */
  lemma EncodedByteOrderMark(message: string)
    ensures (|Utf8Encode(message)| >= 3 && Utf8Encode(message)[..3] == ByteOrderMark)
        <==> (message != [] && message[0] == '\U{FEFF}')
  {
    if message != [] {
      var b := Utf8Encode(message);
      DecodeOneChar(message[0], Utf8Encode(message[1..]));
      if |b| >= 3 && b[..3] == ByteOrderMark {
        assert b[0] == 0xEF && b[1] == 0xBB && b[2] == 0xBF;
        assert DecodeOne(b) == Some(('\U{FEFF}', 3));
      }
    }
  }

  /**
   * The cipher round trip: what was sealed under a key and IV opens under them, less a
   * leading U+FEFF, which the reader takes for a byte-order mark.
   */
  lemma SealRoundTrip(key: Key, iv: Iv, message: string)
    ensures Unseal(key, iv, Seal(key, iv, message)) == Some(WithoutByteOrderMark(message))
    ensures message == [] || message[0] != '\U{FEFF}' ==> Unseal(key, iv, Seal(key, iv, message)) == Some(message)
  {
    EncodedByteOrderMark(message);
    if message != [] && message[0] == '\U{FEFF}' {
      assert Utf8Encode(message)[3..] == Utf8Encode(message[1..]);
      Utf8RoundTrip(message[1..]);
    } else {
      Utf8RoundTrip(message);
    }
  }

  /** A text that starts with U+FEFF comes back without it. */
  lemma ByteOrderMarkDropped(key: Key, iv: Iv)
    ensures Unseal(key, iv, Seal(key, iv, "\U{FEFF}hi")) == Some("hi")
  {
    SealRoundTrip(key, iv, "\U{FEFF}hi");
  }

  /** Derivation is deterministic in (password, user id), and the user id is recoverable from the salt. */
  lemma DerivedKeysDistinct(p1: string, u1: string, p2: string, u2: string)
    ensures DeriveUserKey(p1, u1) == DeriveUserKey(p2, u2) <==> p1 == p2 && u1 == u2
    ensures DeriveUserKey(p1, u1).size == KeySize
  {
    if DeriveUserKey(p1, u1) == DeriveUserKey(p2, u2) {
      Utf8Injective(p1, p2);
      Utf8Injective(u1, u2);
    }
  }

  // ---------------------------------------------------------------------------------
  // The service

  class EncryptionService {
    /** `_userKeys`, the process-wide key cache. */
    var userKeys: map<string, Key>

    constructor ()
      ensures userKeys == map[]
    {
      userKeys := map[];
    }

    predicate HasKeyForUser(userId: string)
      reads this
    {
      userId in userKeys
    }

    /** Derives the user's key, stores it (overwriting any earlier one) and returns it. */
    method GenerateAndStoreUserKey(userId: string, password: string) returns (key: Key)
      modifies this
      ensures key == DeriveUserKey(password, userId)
      ensures HasKeyForUser(userId) && userKeys[userId] == key
      ensures userKeys == old(userKeys)[userId := key]
    {
      key := DeriveUserKey(password, userId);
      userKeys := userKeys[userId := key];
    }

    /**
     * Encrypts `message` for `userId` under the IV `freshIv` that `Aes.GenerateIV` drew.
     * Fails when no key is stored for the user.
     */
    method EncryptMessage(message: string, userId: string, freshIv: Iv)
      returns (r: Result<(Ciphertext, Iv), CryptoError>)
      ensures r.Failure? <==> !HasKeyForUser(userId)
      ensures r.Failure? ==> r.error == KeyNotFound
      ensures r.Success? ==> r.value == (Seal(userKeys[userId], freshIv, message), freshIv)
      ensures r.Success? ==> Unseal(userKeys[userId], r.value.1, r.value.0) == Some(WithoutByteOrderMark(message))
    {
      if userId !in userKeys {
        return Failure(KeyNotFound);
      }
      var data := Seal(userKeys[userId], freshIv, message);
      SealRoundTrip(userKeys[userId], freshIv, message);
      r := Success((data, freshIv));
    }

    /** Fails when no key is stored for the user, or when key or IV do not fit the data. */
    method DecryptMessage(data: Ciphertext, iv: Iv, userId: string) returns (r: Result<string, CryptoError>)
      ensures !HasKeyForUser(userId) ==> r == Failure(KeyNotFound)
      ensures HasKeyForUser(userId) && data.key != userKeys[userId] ==> r == Failure(DecryptionFailed)
      ensures HasKeyForUser(userId) ==> (r.Success? <==> Unseal(userKeys[userId], iv, data).Some?)
      ensures r.Success? ==> Unseal(userKeys[userId], iv, data) == Some(r.value)
    {
      if userId !in userKeys {
        return Failure(KeyNotFound);
      }
      match Unseal(userKeys[userId], iv, data)
      case None => r := Failure(DecryptionFailed);
      case Some(text) => r := Success(text);
    }

    /** Forgets the user's key; the other users' keys stay. */
    method RemoveUserKey(userId: string)
      modifies this
      ensures !HasKeyForUser(userId)
      ensures userKeys == old(userKeys) - {userId}
    {
      userKeys := userKeys - {userId};
    }
  }
}
