/** The library primitives the codecs call and whose insides are out of
    scope: UTF-8 text encoding, SHA-256, PBKDF2-HMAC-SHA256 (section 5.2 of
    RFC 8018), AES-256-CBC with PKCS#7 padding (section 6.2 of NIST SP
    800-38A, section 6.3 of RFC 5652) and gzip (RFC 1952). Each is a field of
    `Primitives`; `Lawful` states the only facts the modelled code relies on:
    the inverse laws and the output lengths. The gzip libraries of .NET and
    Node are separate fields: each decompressor is only known to invert its
    own compressor, and what each reads of the other's output is a named
    hypothesis (NodeReadsNetGzip, NetReadsNodeGzip), not a law. */
module Platform {
  import opened Basics

  datatype Primitives = Primitives(
    utf8Encode: string -> seq<byte>,
    utf8Decode: seq<byte> -> string,
    sha256: seq<byte> -> seq<byte>,
    /** password bytes, salt, iteration count, output length */
    pbkdf2Sha256: (seq<byte>, seq<byte>, nat, nat) -> seq<byte>,
    /** key, IV, plaintext; padding included */
    aesCbcEncrypt: (seq<byte>, seq<byte>, seq<byte>) -> seq<byte>,
    /** key, IV, ciphertext; None when the length or the padding is invalid */
    aesCbcDecrypt: (seq<byte>, seq<byte>, seq<byte>) -> Option<seq<byte>>,
    /** .NET GZipStream with CompressionLevel.Optimal */
    gzipNet: seq<byte> -> seq<byte>,
    /** Node zlib.gzip with its default options */
    gzipNode: seq<byte> -> seq<byte>,
    /** .NET GZipStream in Decompress mode; None when the input is not gzip data */
    gunzipNet: seq<byte> -> Option<seq<byte>>,
    /** Node zlib.gunzip; None when the input is not a complete gzip member */
    gunzipNode: seq<byte> -> Option<seq<byte>>)

  /** The exceptions the decryption paths can raise, as values. */
  datatype Failure =
    | NegativeLength   // C#: `new byte[n]` with n < 0 throws OverflowException
    | InvalidIvLength  // Node: createDecipheriv rejects an IV that is not 16 bytes
    | DecryptionFailed // AES: ciphertext length or PKCS#7 padding invalid
    | CorruptData      // gzip: the decrypted bytes are not a gzip stream

  const AesBlockSize := 16
  const AesKeyLength := 32
  const Sha256Length := 32

  /** Length of the AES-CBC ciphertext of `n` plaintext bytes under PKCS#7:
      padding adds 1 to 16 bytes, up to the next multiple of the block. */
  function Pkcs7Length(n: nat): (len: nat)
    ensures len % AesBlockSize == 0
    ensures n < len <= n + AesBlockSize
  {
    AesBlockSize * (n / AesBlockSize + 1)
  }

  /** The laws of the primitives. UTF-8 decoding is total (both platforms
      substitute U+FFFD for malformed input) and inverts encoding, which
      writes at least one byte per code point. */
  ghost predicate Lawful(p: Primitives) {
    && (forall t :: p.utf8Decode(p.utf8Encode(t)) == t)
    && (forall t :: |p.utf8Encode(t)| >= |t|)
    && (forall m :: |p.sha256(m)| == Sha256Length)
    && (forall pw, salt, iterations, len :: |p.pbkdf2Sha256(pw, salt, iterations, len)| == len)
    && (forall key, iv, pt :: |key| == AesKeyLength && |iv| == AesBlockSize ==>
          |p.aesCbcEncrypt(key, iv, pt)| == Pkcs7Length(|pt|))
    && (forall key, iv, pt :: |key| == AesKeyLength && |iv| == AesBlockSize ==>
          p.aesCbcDecrypt(key, iv, p.aesCbcEncrypt(key, iv, pt)) == Some(pt))
    && (forall b :: p.gunzipNet(p.gzipNet(b)) == Some(b))
    && (forall b :: p.gunzipNode(p.gzipNode(b)) == Some(b))
  }

  /** Node's gunzip reads what GZipStream writes for non-empty input. For
      empty input GZipStream may write no bytes at all, which zlib rejects as
      an unexpected end of file, so that case is excluded. */
  ghost predicate NodeReadsNetGzip(p: Primitives) {
    forall b :: |b| > 0 ==> p.gunzipNode(p.gzipNet(b)) == Some(b)
  }

  /** GZipStream reads back every gzip member zlib writes. */
  ghost predicate NetReadsNodeGzip(p: Primitives) {
    forall b :: p.gunzipNet(p.gzipNode(b)) == Some(b)
  }
}

/** A concrete instance of the primitives, showing that the laws assumed in
    `Platform.Lawful` can all hold at once: UTF-8 stands in as three bytes per
    code point, the cipher as PKCS#7 padding alone, gzip as the identity, and
    the hash and key derivation as constant output of the right length. */
module PlatformWitness {
  import opened Basics
  import opened Platform

  function CodePointBytes(c: char): seq<byte> {
    var n := c as int;
    [n / 65536, (n / 256) % 256, n % 256]
  }

  function CodePointOf(b0: byte, b1: byte, b2: byte): char {
    var n := b0 * 65536 + b1 * 256 + b2;
    if 0 <= n < 0xD800 || 0xE000 <= n < 0x11_0000 then n as char else '?'
  }

  function TextBytes(t: string): (b: seq<byte>)
    ensures |b| == 3 * |t|
  {
    if t == [] then [] else CodePointBytes(t[0]) + TextBytes(t[1..])
  }

  function BytesText(b: seq<byte>): string {
    if |b| < 3 then [] else [CodePointOf(b[0], b[1], b[2])] + BytesText(b[3..])
  }

  lemma CodePointInverse(c: char)
    ensures var b := CodePointBytes(c);
            CodePointOf(b[0], b[1], b[2]) == c
  {
    var n := c as int;
    var hi, lo := n / 256, n % 256;
    assert n == hi * 256 + lo;
    assert hi == (n / 65536) * 256 + hi % 256;
  }

  lemma {:induction false} BytesTextInverse(t: string)
    ensures BytesText(TextBytes(t)) == t
  {
    if t != [] {
      var b := TextBytes(t);
      var head := CodePointBytes(t[0]);
      assert b == head + TextBytes(t[1..]);
      assert b[..3] == head && b[3..] == TextBytes(t[1..]);
      CodePointInverse(t[0]);
      BytesTextInverse(t[1..]);
    }
  }

  function PadBytes(k: byte, n: nat): (r: seq<byte>)
    ensures |r| == n && forall i :: 0 <= i < n ==> r[i] == k
  {
    if n == 0 then [] else [k] + PadBytes(k, n - 1)
  }

  function Pad(key: seq<byte>, iv: seq<byte>, pt: seq<byte>): seq<byte> {
    var k := AesBlockSize - |pt| % AesBlockSize;
    pt + PadBytes(k, k)
  }

  function Unpad(key: seq<byte>, iv: seq<byte>, ct: seq<byte>): Option<seq<byte>> {
    if |ct| == 0 || |ct| % AesBlockSize != 0 then None
    else
      var k := ct[|ct| - 1];
      if 1 <= k <= AesBlockSize then Some(ct[..|ct| - k]) else None
  }

  function Hash(m: seq<byte>): seq<byte> {
    PadBytes(0, Sha256Length)
  }

  function Stretch(pw: seq<byte>, salt: seq<byte>, iterations: nat, len: nat): seq<byte> {
    PadBytes(0, len)
  }

  function Identity(b: seq<byte>): seq<byte> {
    b
  }

  function Unwrap(b: seq<byte>): Option<seq<byte>> {
    Some(b)
  }

  function Instance(): Primitives {
    Primitives(TextBytes, BytesText, Hash, Stretch, Pad, Unpad, Identity, Identity, Unwrap, Unwrap)
  }

  /** The laws, and the two hypotheses about the gzip libraries, are
      satisfiable together. */
  lemma InstanceIsLawful()
    ensures Lawful(Instance())
    ensures NodeReadsNetGzip(Instance()) && NetReadsNodeGzip(Instance())
  {
    var p := Instance();
    forall t ensures p.utf8Decode(p.utf8Encode(t)) == t {
      BytesTextInverse(t);
    }
    forall key, iv, pt ensures p.aesCbcDecrypt(key, iv, p.aesCbcEncrypt(key, iv, pt)) == Some(pt) {
      var ct := Pad(key, iv, pt);
      var k := AesBlockSize - |pt| % AesBlockSize;
      assert ct[|ct| - 1] == k;
      assert ct[..|ct| - k] == pt;
    }
  }
}
