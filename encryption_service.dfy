/** The C# EncryptionService (EncryptionDemo/Services/EncryptionService.cs).
    Encryption derives a key from the password, gzips the UTF-8 text, encrypts
    it with AES-256-CBC/PKCS#7 under a random 16-byte IV and returns the array
    IV ‖ ciphertext, assembled with Buffer.BlockCopy. Decryption copies the
    first 16 bytes out as the IV and the rest as the ciphertext, then runs the
    stages backwards. */
module EncryptionService {
  import opened Basics
  import opened Platform

  const KeyLength := 32
  const IvLength := 16
  const Iterations := 100_000
  /** The fixed salt; its bytes are the UTF-8 encoding of this text. */
  const SaltText := "your-static-or-dynamic-salt"

  /** DeriveKey: PBKDF2-HMAC-SHA256 of the password's UTF-8 bytes under the
      fixed salt, 100,000 iterations, 32 bytes out. */
  function DeriveKey(p: Primitives, password: string): seq<byte> {
    p.pbkdf2Sha256(p.utf8Encode(password), p.utf8Encode(SaltText), Iterations, KeyLength)
  }

  /** The bytes a StreamWriter over a GZipStream leaves in the MemoryStream.
      The writer emits UTF-8 without a byte-order mark. */
  function Compress(p: Primitives, text: string): seq<byte> {
    p.gzipNet(p.utf8Encode(text))
  }

  /** U+FEFF, whose UTF-8 form EF BB BF is the byte-order mark. */
  const ByteOrderMark: char := '\U{FEFF}'

  /** A StreamReader built without an encoding detects byte-order marks: it
      consumes leading EF BB BF bytes instead of returning them, so the text
      loses a leading U+FEFF. */
  function StripByteOrderMark(t: string): string {
    if |t| > 0 && t[0] == ByteOrderMark then t[1..] else t
  }

  /** The byte-order marks after which a StreamReader built without an
      encoding decodes UTF-16 LE (FF FE), UTF-16 BE (FE FF) or UTF-32 BE
      (00 00 FE FF) instead of UTF-8; the UTF-32 LE mark FF FE 00 00 begins
      with the UTF-16 LE one. */
  predicate StartsWithWideMark(bytes: seq<byte>) {
    || (|bytes| >= 2 && bytes[0] == 0xFF && bytes[1] == 0xFE)
    || (|bytes| >= 2 && bytes[0] == 0xFE && bytes[1] == 0xFF)
    || (|bytes| >= 4 && bytes[0] == 0 && bytes[1] == 0 && bytes[2] == 0xFE && bytes[3] == 0xFF)
  }

  /** StreamReader.ReadToEndAsync over decompressed bytes, for bytes that do
      not satisfy StartsWithWideMark: UTF-8 decoding with a leading
      byte-order mark dropped. */
  function ReadToEnd(p: Primitives, bytes: seq<byte>): string {
    StripByteOrderMark(p.utf8Decode(bytes))
  }

  // The blob format and the two pipelines, as values.

  /** The array EncryptStringAsync assembles: the IV, then the ciphertext. */
  function Combine(iv: seq<byte>, encrypted: seq<byte>): seq<byte> {
    iv + encrypted
  }

  /** The IV and ciphertext DecryptStringAsync copies out of a blob; a blob
      shorter than the IV makes the ciphertext array's length negative. */
  function Split(blob: seq<byte>): Result<(seq<byte>, seq<byte>), Failure> {
    if |blob| < IvLength then Failure(NegativeLength)
    else Success((blob[..IvLength], blob[IvLength..]))
  }

  function Encrypt(p: Primitives, text: string, password: string, iv: seq<byte>): seq<byte> {
    Combine(iv, p.aesCbcEncrypt(DeriveKey(p, password), iv, Compress(p, text)))
  }

  /** Decryption and decompression of a split blob, failing at the first
      stage that rejects its input. */
  function DecryptParts(p: Primitives, key: seq<byte>, iv: seq<byte>, encrypted: seq<byte>): Result<string, Failure> {
    match p.aesCbcDecrypt(key, iv, encrypted)
    case None => Failure(DecryptionFailed)
    case Some(decrypted) =>
      match p.gunzipNet(decrypted)
      case None => Failure(CorruptData)
      case Some(decompressed) => Success(ReadToEnd(p, decompressed))
  }

  function Decrypt(p: Primitives, blob: seq<byte>, password: string): Result<string, Failure> {
    match Split(blob)
    case Failure(e) => Failure(e)
    case Success((iv, encrypted)) => DecryptParts(p, DeriveKey(p, password), iv, encrypted)
  }

  // The imperative code.

  /** Buffer.BlockCopy between two distinct arrays: `count` bytes from
      `src[srcOffset..]` to `dst[dstOffset..]`, the rest of `dst` untouched. */
  method BlockCopy(src: array<byte>, srcOffset: nat, dst: array<byte>, dstOffset: nat, count: nat)
    requires src != dst
    requires srcOffset + count <= src.Length && dstOffset + count <= dst.Length
    modifies dst
    ensures dst[..dstOffset] == old(dst[..dstOffset])
    ensures dst[dstOffset..dstOffset + count] == src[srcOffset..srcOffset + count]
    ensures dst[dstOffset + count..] == old(dst[dstOffset + count..])
  {
    var i := 0;
    while i < count
      invariant 0 <= i <= count
      invariant dst[..dstOffset] == old(dst[..dstOffset])
      invariant dst[dstOffset..dstOffset + i] == src[srcOffset..srcOffset + i]
      invariant dst[dstOffset + i..] == old(dst[dstOffset + i..])
    {
      dst[dstOffset + i] := src[srcOffset + i];
      i := i + 1;
    }
  }

  /** A new array holding `s`, as the library calls that return byte[] do. */
  method ToArray(s: seq<byte>) returns (a: array<byte>)
    ensures fresh(a) && a[..] == s
  {
    a := new byte[|s|](i => if 0 <= i < |s| then s[i] else 0);
  }

  /** EncryptStringAsync; `iv` holds the 16 bytes RandomNumberGenerator
      returned. The result is a new array, the IV followed by the
      ciphertext. */
  method EncryptStringAsync(p: Primitives, text: string, password: string, iv: array<byte>)
    returns (result: array<byte>)
    requires iv.Length == IvLength
    ensures fresh(result)
    ensures result[..] == Encrypt(p, text, password, iv[..])
    ensures result.Length == IvLength + |p.aesCbcEncrypt(DeriveKey(p, password), iv[..], Compress(p, text))|
    ensures result[..IvLength] == iv[..]
    ensures result[IvLength..] == p.aesCbcEncrypt(DeriveKey(p, password), iv[..], Compress(p, text))
  {
    var key := DeriveKey(p, password);
    var compressed := Compress(p, text);
    ghost var ivBytes := iv[..];
    ghost var ciphertext := p.aesCbcEncrypt(key, ivBytes, compressed);
    var encrypted := ToArray(p.aesCbcEncrypt(key, iv[..], compressed));
    result := new byte[iv.Length + encrypted.Length];
    BlockCopy(iv, 0, result, 0, iv.Length);
    assert result[..IvLength] == ivBytes by {
      assert iv[0..IvLength] == ivBytes;
    }
    BlockCopy(encrypted, 0, result, iv.Length, encrypted.Length);
    assert result[IvLength..] == ciphertext by {
      assert result[IvLength..] == result[IvLength..IvLength + encrypted.Length];
      assert encrypted[0..encrypted.Length] == encrypted[..] == ciphertext;
    }
    assert result[..] == ivBytes + ciphertext by {
      assert result[..] == result[..IvLength] + result[IvLength..];
    }
  }

  /** DecryptStringAsync; the Failure cases are the exceptions it lets
      escape. */
  method DecryptStringAsync(p: Primitives, encryptedData: array<byte>, password: string)
    returns (r: Result<string, Failure>)
    ensures r == Decrypt(p, encryptedData[..], password)
  {
    var key := DeriveKey(p, password);
    if encryptedData.Length - IvLength < 0 {
      return Failure(NegativeLength);
    }
    var iv := new byte[IvLength];
    var encrypted := new byte[encryptedData.Length - IvLength];
    BlockCopy(encryptedData, 0, iv, 0, iv.Length);
    BlockCopy(encryptedData, iv.Length, encrypted, 0, encrypted.Length);
    assert iv[..] == encryptedData[..][..IvLength];
    assert encrypted[..] == encryptedData[..][IvLength..];
    var decrypted := p.aesCbcDecrypt(key, iv[..], encrypted[..]);
    if decrypted.None? {
      return Failure(DecryptionFailed);
    }
    var decompressed := p.gunzipNet(decrypted.value);
    if decompressed.None? {
      return Failure(CorruptData);
    }
    r := Success(ReadToEnd(p, decompressed.value));
  }

  // Properties.

  /** Encryption and decryption derive the same 32-byte key from a password. */
  lemma DeriveKeyLength(p: Primitives, password: string)
    requires Lawful(p)
    ensures |DeriveKey(p, password)| == KeyLength == AesKeyLength
  {
  }

  /** Splitting is the inverse of combining, in both directions: a blob splits
      into (iv, encrypted) exactly when it is their concatenation with a
      16-byte IV, so no byte is lost, added or reordered. */
  lemma SplitCombine(blob: seq<byte>, iv: seq<byte>, encrypted: seq<byte>)
    ensures Split(blob) == Success((iv, encrypted)) <==> |iv| == IvLength && blob == Combine(iv, encrypted)
  {
    if |iv| == IvLength && blob == Combine(iv, encrypted) {
      assert blob[..IvLength] == iv && blob[IvLength..] == encrypted;
    }
    if Split(blob) == Success((iv, encrypted)) {
      assert blob == blob[..IvLength] + blob[IvLength..];
    }
  }

  /** A blob shorter than the IV fails before any decryption. */
  lemma ShortBlobFails(p: Primitives, blob: seq<byte>, password: string)
    requires |blob| < IvLength
    ensures Decrypt(p, blob, password) == Failure(NegativeLength)
  {
  }

  /** With PKCS#7 the ciphertext is 16 * (floor(|compressed| / 16) + 1) bytes,
      so the blob is a multiple of 16 and at least 32 bytes long. */
  lemma BlobLength(p: Primitives, text: string, password: string, iv: seq<byte>)
    requires Lawful(p) && |iv| == IvLength
    ensures |Encrypt(p, text, password, iv)| == IvLength + Pkcs7Length(|Compress(p, text)|)
    ensures |Encrypt(p, text, password, iv)| % AesBlockSize == 0
    ensures |Encrypt(p, text, password, iv)| >= 2 * AesBlockSize
  {
    DeriveKeyLength(p, password);
    var compressed := Compress(p, text);
    var encrypted := p.aesCbcEncrypt(DeriveKey(p, password), iv, compressed);
    var n := Pkcs7Length(|compressed|);
    assert |encrypted| == n;
    assert |Encrypt(p, text, password, iv)| == IvLength + n;
    IvThenBlocks(n);
  }

  /** An IV followed by a non-empty whole number of blocks is itself a whole
      number of blocks, at least two. */
  lemma IvThenBlocks(n: nat)
    requires n % AesBlockSize == 0 && n > 0
    ensures (IvLength + n) % AesBlockSize == 0
    ensures IvLength + n >= 2 * AesBlockSize
  {
  }

  /** Round trip: decrypting the encryption of `text` under the same password
      gives `text` back, whatever the IV, except that a leading U+FEFF is read
      as a byte-order mark and dropped. */
  lemma RoundTrip(p: Primitives, text: string, password: string, iv: seq<byte>)
    requires Lawful(p) && |iv| == IvLength
    ensures Decrypt(p, Encrypt(p, text, password, iv), password) == Success(StripByteOrderMark(text))
    ensures (text == [] || text[0] != ByteOrderMark) ==>
              Decrypt(p, Encrypt(p, text, password, iv), password) == Success(text)
    ensures text != [] && text[0] == ByteOrderMark ==>
              Decrypt(p, Encrypt(p, text, password, iv), password) == Success(text[1..])
  {
    var key := DeriveKey(p, password);
    var encrypted := p.aesCbcEncrypt(key, iv, Compress(p, text));
    DeriveKeyLength(p, password);
    SplitCombine(Encrypt(p, text, password, iv), iv, encrypted);
  }
}
