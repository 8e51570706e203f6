/** The TypeScript codec (encryption-demo/src/encryption.ts). Its stages are
    composed calls on immutable buffers: the IV and the ciphertext are
    concatenated on the way out and sliced apart at byte 16 on the way in. It
    uses the same constants and blob layout as the C# service. The two sides
    use different gzip libraries, so the compressed bytes may differ, and each
    side decrypts the other's blobs only as far as its gzip library reads the
    other's output. */
module EncryptionTs {
  import opened Basics
  import opened Platform
  import EncryptionService

  const KeyLength := 32
  const IvLength := 16
  const Iterations := 100_000
  const SaltText := "your-static-or-dynamic-salt"

  /** deriveKey: PBKDF2 with SHA-256 over the password under the fixed salt,
      100,000 iterations, 32 bytes out. */
  function DeriveKey(p: Primitives, password: string): seq<byte> {
    p.pbkdf2Sha256(p.utf8Encode(password), p.utf8Encode(SaltText), Iterations, KeyLength)
  }

  /** Buffer.slice(start, end), which clamps both bounds to the buffer. */
  function Slice(b: seq<byte>, start: nat, end: nat): seq<byte> {
    var e := if end <= |b| then end else |b|;
    var s := if start <= e then start else e;
    b[s..e]
  }

  /** encryptString; `iv` holds the bytes crypto.randomBytes(16) returned.
      gzip turns the string into UTF-8 before compressing it, and
      `cipher.update` followed by `cipher.final` is one whole CBC encryption. */
  function EncryptString(p: Primitives, text: string, password: string, iv: seq<byte>): seq<byte> {
    var key := DeriveKey(p, password);
    var compressed := p.gzipNode(p.utf8Encode(text));
    var encrypted := p.aesCbcEncrypt(key, iv, compressed);
    iv + encrypted
  }

  /** decryptString; the Failure cases are the errors its promise rejects
      with. */
  function DecryptString(p: Primitives, encryptedData: seq<byte>, password: string): Result<string, Failure> {
    var iv := Slice(encryptedData, 0, IvLength);
    var encrypted := Slice(encryptedData, IvLength, |encryptedData|);
    var key := DeriveKey(p, password);
    if |iv| != IvLength then Failure(InvalidIvLength)
    else
      match p.aesCbcDecrypt(key, iv, encrypted)
      case None => Failure(DecryptionFailed)
      case Some(decrypted) =>
        match p.gunzipNode(decrypted)
        case None => Failure(CorruptData)
        case Some(decompressed) => Success(p.utf8Decode(decompressed))
  }

  /** The blob is `iv ‖ encrypted`: 16 + |encrypted| bytes, the IV first. */
  lemma BlobLayout(p: Primitives, text: string, password: string, iv: seq<byte>)
    requires |iv| == IvLength
    ensures var blob := EncryptString(p, text, password, iv);
            var encrypted := p.aesCbcEncrypt(DeriveKey(p, password), iv, p.gzipNode(p.utf8Encode(text)));
            && |blob| == IvLength + |encrypted|
            && blob[..IvLength] == iv
            && blob[IvLength..] == encrypted
  {
  }

  /** Slicing `iv ‖ encrypted` at 16 gives back exactly `iv` and `encrypted`. */
  lemma SliceConcat(iv: seq<byte>, encrypted: seq<byte>)
    requires |iv| == IvLength
    ensures Slice(iv + encrypted, 0, IvLength) == iv
    ensures Slice(iv + encrypted, IvLength, |iv + encrypted|) == encrypted
  {
  }

  /** A blob shorter than 16 bytes slices into an IV shorter than 16 bytes and
      an empty ciphertext; createDecipheriv rejects the IV. */
  lemma ShortBlobFails(p: Primitives, encryptedData: seq<byte>, password: string)
    requires |encryptedData| < IvLength
    ensures Slice(encryptedData, 0, IvLength) == encryptedData
    ensures Slice(encryptedData, IvLength, |encryptedData|) == []
    ensures DecryptString(p, encryptedData, password) == Failure(InvalidIvLength)
  {
    assert encryptedData[0..|encryptedData|] == encryptedData;
  }

  /** Round trip: decryptString(encryptString(t, p), p) === t. */
  lemma RoundTrip(p: Primitives, text: string, password: string, iv: seq<byte>)
    requires Lawful(p) && |iv| == IvLength
    ensures DecryptString(p, EncryptString(p, text, password, iv), password) == Success(text)
  {
    var key := DeriveKey(p, password);
    var encrypted := p.aesCbcEncrypt(key, iv, p.gzipNode(p.utf8Encode(text)));
    SliceConcat(iv, encrypted);
  }

  // Agreement with the C# service.

  /** The key derivation uses the same salt, iteration count, key length and
      hash as the C# service. */
  lemma DeriveKeyAgrees(p: Primitives, password: string)
    ensures DeriveKey(p, password) == EncryptionService.DeriveKey(p, password)
  {
  }

  /** The blob format both sides share: the IV in bytes [0, 16), then a
      ciphertext that decrypts under the password's key to `compressed`. */
  ghost predicate CarriesText(p: Primitives, blob: seq<byte>, password: string, iv: seq<byte>, compressed: seq<byte>) {
    && |blob| >= IvLength
    && blob[..IvLength] == iv
    && p.aesCbcDecrypt(DeriveKey(p, password), iv, blob[IvLength..]) == Some(compressed)
  }

  /** Both implementations write blobs in the shared format, each carrying
      the output of its own gzip library, which that library reads back to the
      text's UTF-8 bytes. */
  lemma BlobFormatAgrees(p: Primitives, text: string, password: string, iv: seq<byte>)
    requires Lawful(p) && |iv| == IvLength
    ensures var bytes := p.utf8Encode(text);
            && CarriesText(p, EncryptString(p, text, password, iv), password, iv, p.gzipNode(bytes))
            && p.gunzipNode(p.gzipNode(bytes)) == Some(bytes)
    ensures var bytes := p.utf8Encode(text);
            && CarriesText(p, EncryptionService.Encrypt(p, text, password, iv), password, iv, p.gzipNet(bytes))
            && p.gunzipNet(p.gzipNet(bytes)) == Some(bytes)
  {
    var key := DeriveKey(p, password);
    DeriveKeyAgrees(p, password);
    EncryptionService.DeriveKeyLength(p, password);
    var node := p.aesCbcEncrypt(key, iv, p.gzipNode(p.utf8Encode(text)));
    var net := p.aesCbcEncrypt(key, iv, EncryptionService.Compress(p, text));
    assert (iv + node)[..IvLength] == iv && (iv + node)[IvLength..] == node;
    assert (iv + net)[..IvLength] == iv && (iv + net)[IvLength..] == net;
  }

  /** The two sides' libraries behave alike on this blob: its ciphertext is
      not empty (the .NET decryptor may return nothing for an empty one,
      where Node fails), the two gzip libraries give the same result on the
      plaintext, and the decompressed bytes start with no UTF-16 or UTF-32
      byte-order mark. */
  ghost predicate LibrariesAgreeOn(p: Primitives, blob: seq<byte>, password: string) {
    && |blob| > IvLength
    && var decrypted := p.aesCbcDecrypt(DeriveKey(p, password), blob[..IvLength], blob[IvLength..]);
       (decrypted.Some? ==>
          && p.gunzipNet(decrypted.value) == p.gunzipNode(decrypted.value)
          && (p.gunzipNet(decrypted.value).Some? ==>
                !EncryptionService.StartsWithWideMark(p.gunzipNet(decrypted.value).value)))
  }

  /** Where the libraries behave alike, both implementations decrypt a blob
      alike: the same stage fails with the same error, or both succeed and
      the C# text is the Node text without a leading U+FEFF. A blob shorter
      than 16 bytes fails in both, with a different error. */
  lemma DecryptAgrees(p: Primitives, blob: seq<byte>, password: string)
    ensures LibrariesAgreeOn(p, blob, password) && DecryptString(p, blob, password).Failure? ==>
              EncryptionService.Decrypt(p, blob, password) == DecryptString(p, blob, password)
    ensures LibrariesAgreeOn(p, blob, password) && DecryptString(p, blob, password).Success? ==>
              EncryptionService.Decrypt(p, blob, password) ==
              Success(EncryptionService.StripByteOrderMark(DecryptString(p, blob, password).value))
    ensures |blob| < IvLength ==>
              DecryptString(p, blob, password) == Failure(InvalidIvLength) &&
              EncryptionService.Decrypt(p, blob, password) == Failure(NegativeLength)
  {
    if |blob| < IvLength {
      ShortBlobFails(p, blob, password);
    } else {
      assert Slice(blob, 0, IvLength) == blob[..IvLength];
      assert Slice(blob, IvLength, |blob|) == blob[IvLength..];
      assert EncryptionService.Decrypt(p, blob, password)
          == EncryptionService.DecryptParts(p, DeriveKey(p, password), blob[..IvLength], blob[IvLength..]);
    }
  }

  /** A blob the C# service wrote for a non-empty text decrypts in Node to
      that text, as far as zlib reads GZipStream's output. */
  lemma NodeDecryptsNet(p: Primitives, text: string, password: string, iv: seq<byte>)
    requires Lawful(p) && NodeReadsNetGzip(p) && |iv| == IvLength
    requires text != []
    ensures DecryptString(p, EncryptionService.Encrypt(p, text, password, iv), password) == Success(text)
  {
    var blob := EncryptionService.Encrypt(p, text, password, iv);
    BlobFormatAgrees(p, text, password, iv);
    assert |p.utf8Encode(text)| > 0;
    assert Slice(blob, 0, IvLength) == blob[..IvLength];
    assert Slice(blob, IvLength, |blob|) == blob[IvLength..];
  }

  /** A blob written in Node decrypts in the C# service to the original text,
      less a leading U+FEFF, as far as GZipStream reads zlib's output. */
  lemma NetDecryptsNode(p: Primitives, text: string, password: string, iv: seq<byte>)
    requires Lawful(p) && NetReadsNodeGzip(p) && |iv| == IvLength
    ensures EncryptionService.Decrypt(p, EncryptString(p, text, password, iv), password) ==
            Success(EncryptionService.StripByteOrderMark(text))
  {
    var blob := EncryptString(p, text, password, iv);
    BlobFormatAgrees(p, text, password, iv);
    assert EncryptionService.Decrypt(p, blob, password)
        == EncryptionService.DecryptParts(p, DeriveKey(p, password), blob[..IvLength], blob[IvLength..]);
  }

  /** The two round trips differ on a text that starts with U+FEFF: Node gives
      it back whole, the C# service without its first character. */
  lemma LeadingMarkDiffers(p: Primitives, password: string, iv: seq<byte>)
    requires Lawful(p) && |iv| == IvLength
    ensures var text := [EncryptionService.ByteOrderMark, 'a'];
            && DecryptString(p, EncryptString(p, text, password, iv), password) == Success(text)
            && EncryptionService.Decrypt(p, EncryptionService.Encrypt(p, text, password, iv), password) == Success("a")
  {
    var text := [EncryptionService.ByteOrderMark, 'a'];
    RoundTrip(p, text, password, iv);
    EncryptionService.RoundTrip(p, text, password, iv);
    assert text[1..] == "a";
  }
}
