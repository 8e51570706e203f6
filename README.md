# Encrypted payloads, URL-safe Base64 and the hash record store

This project is a Dafny model of the small sequential core of the
johnny-sandbox repository. The core has three parts.

- **The URL-safe Base64 codec.** The C# helpers `Base64UrlUtils.ToBase64Url`
  and `FromBase64Url` are in `base64_url_utils.dfy`. The TypeScript helpers
  `toBase64URL` and `fromBase64URL` from `test.ts` are in `url_safe_ts.dfy`.
  `fromBase64URL` is a method with its padding loop. Both sides rest on an
  RFC 4648 section 4 Base64 encoder and strict decoder (`base64.dfy`), which
  stand in for the platform codecs. Before decoding, the decoder skips space,
  tab, CR and LF, as .NET's `Convert.FromBase64String` does. They also use the string operations they
  chain together (`strings.dfy`).
- **The encrypted-payload format and pipeline.** The C# `EncryptionService`
  is in `encryption_service.dfy`. Its two methods allocate arrays and fill
  them with `Buffer.BlockCopy`, and both are proved against value-level
  functions. The TypeScript `encryption.ts` is in `encryption_ts.dfy`, with
  lemmas that tie the two implementations together. The two sides share the
  blob layout. Each side has its own gzip library, so their compressed bytes
  may differ, and each side decrypts the other's blobs only as far as its gzip
  library reads the other's output. A blob is the 16-byte IV
  followed by the AES-256-CBC/PKCS#7 ciphertext of the gzip of the UTF-8
  text. The key comes from PBKDF2-HMAC-SHA256 over the password with a fixed
  salt and 100,000 iterations.
- **The hello-world API's hash store and hash helper.** `HashStorageService`
  is a class holding the record list (`hash_storage.dfy`). `HashHelper`
  (`hash_helper.dfy`) joins the three fields with `|`, hashes the joined text
  with SHA-256 and writes the digest as URL-safe Base64.

Library primitives are fields of `Platform.Primitives` (`platform.dfy`).
These are UTF-8, SHA-256, PBKDF2, AES-CBC and gzip. The predicate
`Platform.Lawful` states the only facts the code relies on:

- UTF-8 decoding inverts encoding, and encoding writes at least one byte per code point.
- Each gzip library's decompressor inverts its own compressor: .NET's `GZipStream` and Node's `zlib`.
- AES-CBC decryption inverts encryption under a 32-byte key and a 16-byte IV.
- The ciphertext length follows the PKCS#7 rule of section 6.3 of RFC 5652.
- SHA-256 and PBKDF2 return outputs of the stated length.

What each gzip library reads of the other's output is not a law. It is a
named hypothesis of the lemmas that need it: `Platform.NodeReadsNetGzip`
(zlib reads GZipStream's output for non-empty input) and
`Platform.NetReadsNodeGzip` (GZipStream reads zlib's output).
`PlatformWitness.InstanceIsLawful` exhibits primitives that satisfy all of
these laws and both hypotheses at once, so they are consistent. The exceptions on the decryption
paths are values of `Platform.Failure`:

- `NegativeLength`: C# allocates an array of negative length for a blob
  shorter than 16 bytes.
- `InvalidIvLength`: Node's `createDecipheriv` rejects an IV that is not 16
  bytes.
- `DecryptionFailed`: the ciphertext length or the PKCS#7 padding is invalid.
- `CorruptData`: the decrypted bytes are not gzip data.

Neither implementation raises an error on invalid UTF-8: .NET's
`StreamReader` and Node's `toString('utf8')` both replace malformed bytes with
U+FFFD, so the model's UTF-8 decoder is total. The C# `StreamReader` also
reads a leading EF BB BF as a byte-order mark and drops it, so the C#
decryption loses a leading U+FEFF; Node keeps it.

## Model

| member | source | states |
|---|---|---|
| Base64UrlUtils.ToBase64Url | EncryptionDemo/Utils/Base64UrlUtils.cs:8-14 | the encoder itself; its properties are stated by ToBase64UrlShape, ToBase64UrlLength and RoundTrip |
| Base64UrlUtils.ToBase64UrlShape | EncryptionDemo/Utils/Base64UrlUtils.cs:10-13 | the output is the standard Base64 text without its padding, with each `+` turned into `-` and each `/` into `_`, position by position; every character is in `[A-Za-z0-9_-]`; there is no `+`, `/` or `=` |
| Base64UrlUtils.ToBase64UrlLength | EncryptionDemo/Utils/Base64UrlUtils.cs:10-13 | the length is 4 per full group of 3 bytes, plus 2 or 3 for a trailing group of 1 or 2 bytes (4·⌈n/3⌉ less the stripped padding); it is never 1 modulo 4; a non-empty input gives a non-empty output |
| Base64UrlUtils.FromBase64Url | EncryptionDemo/Utils/Base64UrlUtils.cs:16-30 | the decoder itself, with None for the FormatException; its properties are stated by RoundTrip, PaddedLength, RejectsLengthOneModFour and WhitespaceSkipped |
| Base64UrlUtils.PaddingFor | EncryptionDemo/Utils/Base64UrlUtils.cs:23-27 | the switch appends at most two characters, all `=`; for every length other than 1 modulo 4 they make the text a whole number of 4-character quanta, and at 1 modulo 4 nothing is appended |
| Base64UrlUtils.PaddingForUnpadded | EncryptionDemo/Utils/Base64UrlUtils.cs:23-27 | for the unpadded standard text of n bytes, the switch appends exactly the `=` characters the encoder had written |
| Base64UrlUtils.PaddingRestored | EncryptionDemo/Utils/Base64UrlUtils.cs:18-27 | the reverse substitution and the switch rebuild exactly the standard Base64 text of the original bytes, padding included |
| Base64UrlUtils.RoundTrip | EncryptionDemo/Utils/Base64UrlUtils.cs:8-30 | FromBase64Url(ToBase64Url(b)) == b for every byte sequence, the empty one included |
| Base64UrlUtils.PaddedLength | EncryptionDemo/Utils/Base64UrlUtils.cs:23-27 | the padded text is a whole number of 4-character quanta exactly when the input length is not 1 modulo 4; at 1 modulo 4 nothing is appended |
| Base64UrlUtils.RejectsLengthOneModFour | EncryptionDemo/Utils/Base64UrlUtils.cs:23-29 | a whitespace-free input whose length is 1 modulo 4 is passed on unpadded and rejected by the decoder |
| Base64UrlUtils.WhitespaceSkipped | EncryptionDemo/Utils/Base64UrlUtils.cs:23-29 | the URL-safe text of whole 3-byte groups followed by a space has length 1 modulo 4, gets no padding, and still decodes to the original bytes, because the decoder skips the space |
| Base64.Encode | EncryptionDemo/Utils/Base64UrlUtils.cs:10 | the standard encoder (Convert.ToBase64String); its properties are stated by EncodeShape and DecodeEncode |
| Base64.EncodeShape | EncryptionDemo/Utils/Base64UrlUtils.cs:10 | the standard encoding of n bytes has 4·⌈n/3⌉ characters; all are alphabet characters except the last (3 − n mod 3) mod 3, which are `=` |
| Base64.Decode | EncryptionDemo/Utils/Base64UrlUtils.cs:29 | the strict decoder applied after whitespace is skipped; its properties are stated by DecodeEncode and DecodeRejectsLength |
| Base64.DecodeEncode | EncryptionDemo/Utils/Base64UrlUtils.cs:29 | the strict decoder inverts the encoder on every byte sequence |
| Base64.DecodeRejectsLength | EncryptionDemo/Utils/Base64UrlUtils.cs:29 | once whitespace is skipped, a text whose length is not a multiple of 4 does not decode |
| Base64.ValueOf | EncryptionDemo/Utils/Base64UrlUtils.cs:29 | the character-to-value table inverts the value-to-character table of RFC 4648 |
| Base64.StripWhitespace | EncryptionDemo/Utils/Base64UrlUtils.cs:29 | the result has no space, tab, CR or LF; every other character occurs exactly as often as in the input; a text without whitespace is unchanged, and one of whitespace only becomes empty |
| Base64.StripWhitespaceAppend | EncryptionDemo/Utils/Base64UrlUtils.cs:29 | skipping whitespace distributes over concatenation, so the other characters keep their order |
| Base64.DecodeSkippingWhitespace | EncryptionDemo/Utils/Base64UrlUtils.cs:29 | Convert.FromBase64String: the strict decoder after whitespace is skipped; its properties are stated by DecodeSkippingWhitespaceEncode and DecodeSkippingTrailingWhitespace |
| Base64.DecodeSkippingWhitespaceEncode | EncryptionDemo/Utils/Base64UrlUtils.cs:29 | the whitespace-skipping decoder inverts the encoder on every byte sequence |
| Base64.DecodeSkippingTrailingWhitespace | EncryptionDemo/Utils/Base64UrlUtils.cs:29 | the encoded text followed by any run of whitespace still decodes to the original bytes |
| Strings.Replace | EncryptionDemo/Utils/Base64UrlUtils.cs:11-12 | the length is kept; when `from` differs from `to`, no `from` is left; a text without `from` is unchanged |
| Strings.ReplaceUndone | EncryptionDemo/Utils/Base64UrlUtils.cs:11-12 | substituting back undoes a substitution whenever the new character did not occur in the text |
| Strings.ReplaceAppend | EncryptionDemo/Utils/Base64UrlUtils.cs:18-20 | substitution distributes over concatenation |
| Strings.TrimEnd | EncryptionDemo/Utils/Base64UrlUtils.cs:13 | the output is a prefix of the input that does not end in the trimmed character, and everything cut off is that character |
| Strings.TrimEndPadding | EncryptionDemo/Utils/Base64UrlUtils.cs:13 | trimming removes exactly a run of trailing pad characters and stops at the first other character |
| Strings.RemoveAll | encryption-demo/src/test.ts:10 | the removed character no longer occurs; every other character occurs exactly as often as in the input, so the length drops by the number removed; a text without it is unchanged; RemoveAllAppend states that the order is kept |
| Strings.RemoveAllAppend | encryption-demo/src/test.ts:10 | removal distributes over concatenation, so the kept characters stay in order |
| UrlSafeTs.ToBase64URL | encryption-demo/src/test.ts:6-11 | the encoder itself; its properties are stated by EncodersAgree, ToBase64URLIsUrlSafe and RoundTrip |
| UrlSafeTs.DecodeUrl | encryption-demo/src/test.ts:16-20 | the value fromBase64URL returns; its properties are stated by PadToQuantumSpec, PaddingDivergence, DecodersAgree and RoundTrip |
| UrlSafeTs.FromBase64URL | encryption-demo/src/test.ts:16-20 | the loop version returns exactly the value of the reverse substitution, then padding to a multiple of 4, then decoding |
| UrlSafeTs.PadToQuantumSpec | encryption-demo/src/test.ts:18 | the loop stops at a length that is 0 modulo 4; it appends only `=`, and at most three of them |
| UrlSafeTs.PaddingDivergence | encryption-demo/src/test.ts:18 | for lengths 0, 2 and 3 modulo 4 the loop pads exactly as the C# switch does; at 1 modulo 4 it appends `===` where C# appends nothing |
| UrlSafeTs.DecodersAgree | encryption-demo/src/test.ts:16-20 | for every length other than 1 modulo 4 the loop and the C# switch give the same padded text, so with one decoder standing in for both platforms' Base64 decoders the two functions return the same value; Node's own decoder differs on malformed text, see Left out |
| UrlSafeTs.EncodersAgree | encryption-demo/src/test.ts:6-11 | toBase64URL(b) equals the C# ToBase64Url(b) for every b, because `=` occurs only as trailing padding |
| UrlSafeTs.ToBase64URLIsUrlSafe | encryption-demo/src/test.ts:6-11 | a non-empty buffer gives a non-empty text over `[A-Za-z0-9_-]` with no `=`, `+` or `/` |
| UrlSafeTs.RoundTrip | encryption-demo/src/test.ts:6-20 | fromBase64URL(toBase64URL(b)) decodes back to b |
| EncryptionService.DeriveKey | EncryptionDemo/Services/EncryptionService.cs:21-27 | PBKDF2-HMAC-SHA256 over the password with the fixed salt and 100,000 iterations; DeriveKeyLength states the key length and EncryptionTs.DeriveKeyAgrees the agreement with Node |
| EncryptionService.Encrypt | EncryptionDemo/Services/EncryptionService.cs:29-62 | the blob as a value; EncryptStringAsync is proved to build it, and BlobLength, SplitCombine and RoundTrip state its properties |
| EncryptionService.Decrypt | EncryptionDemo/Services/EncryptionService.cs:64-87 | the decryption as a value; DecryptStringAsync is proved to compute it, and ShortBlobFails and RoundTrip state its properties |
| EncryptionService.ReadToEnd | EncryptionDemo/Services/EncryptionService.cs:85-86 | StreamReader's reading of decompressed bytes that start with no UTF-16 or UTF-32 byte-order mark: UTF-8 decoding with a leading UTF-8 byte-order mark dropped; RoundTrip and EncryptionTs.LeadingMarkDiffers state the effect |
| EncryptionService.BlockCopy | EncryptionDemo/Services/EncryptionService.cs:58-59 | copies `count` bytes from the source offset to the destination offset, in order, and leaves the destination's other bytes untouched |
| EncryptionService.EncryptStringAsync | EncryptionDemo/Services/EncryptionService.cs:29-62 | the result is a new array of length 16 + \|ciphertext\|: the IV first, then the ciphertext of the compressed text under the password's key |
| EncryptionService.DecryptStringAsync | EncryptionDemo/Services/EncryptionService.cs:64-87 | the result is the value-level Decrypt of the blob: a blob under 16 bytes fails before any decryption; otherwise bytes [0,16) are the IV and [16,n) the ciphertext, and each stage's failure is reported |
| EncryptionService.SplitCombine | EncryptionDemo/Services/EncryptionService.cs:57-59 | a blob splits into (iv, ciphertext) exactly when it is their concatenation with a 16-byte IV, so splitting inverts combining and no byte is lost, added or reordered |
| EncryptionService.ShortBlobFails | EncryptionDemo/Services/EncryptionService.cs:68 | a blob shorter than 16 bytes fails with a negative array length |
| EncryptionService.DeriveKeyLength | EncryptionDemo/Services/EncryptionService.cs:19-27 | the key derived from a password is 32 bytes, the AES-256 key length |
| EncryptionService.BlobLength | EncryptionDemo/Services/EncryptionService.cs:51-57 | the blob is 16 + 16·(⌊\|compressed\|/16⌋ + 1) bytes long, so it is a multiple of 16 and at least 32 |
| EncryptionService.RoundTrip | EncryptionDemo/Services/EncryptionService.cs:29-87 | decrypting the encryption of a text under the same password gives that text back, whatever the IV, except that a leading U+FEFF is dropped |
| EncryptionTs.DeriveKey | encryption-demo/src/encryption.ts:17-19 | PBKDF2-HMAC-SHA256 with the fixed salt, 100,000 iterations and a 32-byte key; DeriveKeyAgrees states that it is the C# derivation |
| EncryptionTs.EncryptString | encryption-demo/src/encryption.ts:24-39 | the blob as a value; BlobLayout, BlobFormatAgrees and RoundTrip state its properties |
| EncryptionTs.DecryptString | encryption-demo/src/encryption.ts:44-58 | the decryption as a value; ShortBlobFails, RoundTrip and DecryptAgrees state its properties |
| EncryptionTs.BlobLayout | encryption-demo/src/encryption.ts:24-39 | the blob is 16 + \|ciphertext\| bytes long: the IV, then the ciphertext of the gzipped text |
| EncryptionTs.SliceConcat | encryption-demo/src/encryption.ts:45-46 | slicing IV ‖ ciphertext at byte 16 gives back exactly the IV and the ciphertext |
| EncryptionTs.ShortBlobFails | encryption-demo/src/encryption.ts:45-49 | a blob under 16 bytes slices into a short IV and an empty ciphertext, and the IV is rejected |
| EncryptionTs.RoundTrip | encryption-demo/src/encryption.ts:24-58 | decryptString(encryptString(t, pw), pw) == t |
| EncryptionTs.DeriveKeyAgrees | encryption-demo/src/encryption.ts:5-19 | the key derivation is the C# one: same salt, iteration count, key length and hash |
| EncryptionTs.BlobFormatAgrees | encryption-demo/src/encryption.ts:24-39 | blobs from both implementations have the same layout: the IV in bytes [0,16), then a ciphertext that decrypts under the password's key to the output of that side's own gzip library, which the same library reads back to the text's UTF-8 bytes |
| EncryptionTs.DecryptAgrees | encryption-demo/src/encryption.ts:44-58 | on a blob of more than 16 bytes where the libraries behave alike (both gunzips give the same result on the plaintext, and the decompressed bytes start with no UTF-16 or UTF-32 byte-order mark), the two decryptions fail at the same stage with the same error, or both succeed and the C# text is the Node text less a leading U+FEFF; a blob under 16 bytes fails in both, with different errors |
| EncryptionTs.NodeDecryptsNet | encryption-demo/src/encryption.ts:44-58 | where zlib reads GZipStream's output for non-empty input, Node decrypts every blob the C# service wrote for a non-empty text back to that text |
| EncryptionTs.NetDecryptsNode | encryption-demo/src/encryption.ts:24-39 | where GZipStream reads zlib's output, the C# service decrypts every blob written in Node back to the original text, less a leading U+FEFF |
| EncryptionTs.LeadingMarkDiffers | encryption-demo/src/encryption.ts:57 | for the text U+FEFF followed by `a`, the Node round trip gives the text back and the C# round trip gives `a` |
| HashStorage.FirstWithHash | services/hello-world-api/Services/HashStorageService.cs:29 | none exactly when no record has the hash; otherwise the record at the earliest index with that hash |
| HashStorage.WithBusinessId | services/hello-world-api/Services/HashStorageService.cs:38 | each record with the business id occurs as often as in the input, and no other record occurs; WithBusinessIdAppend states that the stored order is kept |
| HashStorage.WithBusinessIdAppend | services/hello-world-api/Services/HashStorageService.cs:38 | the filter distributes over concatenation, so the matching records keep their stored order |
| HashStorage.InsertNewestFirst | services/hello-world-api/Services/HashStorageService.cs:39 | inserting into a newest-first list keeps it newest first and adds exactly one copy of the record |
| HashStorage.OrderByCreatedAtDescending | services/hello-world-api/Services/HashStorageService.cs:39 | the output is non-increasing in CreatedAt and is a permutation of the input |
| HashStorage.SortIsStable | services/hello-world-api/Services/HashStorageService.cs:39 | records with equal CreatedAt keep their relative input order |
| HashStorage.FiltersCommute | services/hello-world-api/Services/HashStorageService.cs:37-39 | filtering by business id and selecting the records of one CreatedAt commute |
| HashStorage.AppendKeepsFirstMatch | services/hello-world-api/Services/HashStorageService.cs:21-29 | appending never changes an existing first match; it becomes the first match only when none existed |
| HashStorage.HashStorageService.constructor | services/hello-world-api/Services/HashStorageService.cs:14 | the store starts empty |
| HashStorage.HashStorageService.StoreHash | services/hello-world-api/Services/HashStorageService.cs:17-23 | the record is appended: the list grows by one and earlier records are kept; a hash that already had a match keeps the older match |
| HashStorage.HashStorageService.FindByHash | services/hello-world-api/Services/HashStorageService.cs:25-31 | the earliest stored record with the hash, or none when no stored record has it; the store is only read |
| HashStorage.HashStorageService.FindByBusinessId | services/hello-world-api/Services/HashStorageService.cs:33-42 | exactly the stored records with the business id, each as often as stored, newest first, ties in insertion order; the store is only read |
| HashHelper.HashInput | services/hello-world-api/Helpers/HashHelper.cs:15 | the joined text; JoinNotInjective and SameInputSameHash state what the join does to the hash |
| HashHelper.GenerateHash | services/hello-world-api/Helpers/HashHelper.cs:13-26 | the hash itself; EncodingIsToBase64Url, HashShape, JoinNotInjective and SameInputSameHash state its properties |
| HashHelper.EncodingIsToBase64Url | services/hello-world-api/Helpers/HashHelper.cs:20-23 | the encoding step is Base64UrlUtils.ToBase64Url applied to the digest |
| HashHelper.HashShape | services/hello-world-api/Helpers/HashHelper.cs:17-23 | the hash is always 43 characters of `[A-Za-z0-9_-]`, with no `+`, `/` or `=` |
| HashHelper.JoinNotInjective | services/hello-world-api/Helpers/HashHelper.cs:15 | ("a\|b", "c", "d") and ("a", "b\|c", "d") are different triples with the same joined text, so they get the same hash |
| HashHelper.SameInputSameHash | services/hello-world-api/Helpers/HashHelper.cs:13-25 | the hash depends only on the joined text, so the same triple always gets the same hash |
| Platform.Pkcs7Length | EncryptionDemo/Services/EncryptionService.cs:51-54 | PKCS#7 pads n bytes up to the next multiple of 16, adding 1 to 16 bytes |

## Left out

- AES-256-CBC, PBKDF2-HMAC-SHA256, SHA-256, gzip and UTF-8 are library code. They are fields of `Platform.Primitives`, constrained only by the inverse and length laws in `Platform.Lawful`.
- The random IV from `RandomNumberGenerator.GetBytes` and `crypto.randomBytes` is a parameter of the encryption operations.
- The `async`/`await`/`Task` wrappers and the `lock` in HashStorageService are not modelled. The logic is sequential.
- `DateTime.UtcNow` is not modelled. CreatedAt is an integer supplied by the caller, and only its order matters.
- HashRecord is a mutable class in C#. The model stores records as values, so a caller changing a record after storing it (aliasing) is not captured.
- UrlSafeTs.DecodeUrl: Node's `Buffer.from(s, 'base64')` is more lenient than the whitespace-skipping strict decoder that stands in for it. Node also skips characters outside the alphabet, accepts missing or extra padding, and stops at the first `=`. Where Node returns bytes for such text, `DecodeUrl` returns `None`. An example is a text of length 1 modulo 4 padded with `===`.
- UrlSafeTs.DecodersAgree: the agreement holds only with one decoder standing in for both .NET's `Convert.FromBase64String` and Node's `Buffer.from`. The two padding steps do give the same text for every length other than 1 modulo 4. But Node's decoder also returns bytes for malformed text that .NET rejects with a FormatException, such as `QUJ!` (a character outside the alphabet) or `QU=D` (a `=` inside the text). For such text the programs disagree, while the model returns `None` on both sides.
- Base64UrlUtils.RejectsLengthOneModFour: this lemma requires whitespace-free input. .NET's `Convert.FromBase64String` skips space, tab, CR and LF, and only the remaining length must be a multiple of 4. `Base64UrlUtils.WhitespaceSkipped` shows an input of length 1 modulo 4 that decodes. `Base64.DecodeRejectsLength` is about the strict decoder, which runs after whitespace has been skipped.
- EncryptionService.RoundTrip and EncryptionTs.DecryptAgrees cover strings of Unicode scalar values only. C# and JavaScript strings can hold lone surrogates, which both UTF-8 encoders replace with U+FFFD. A Dafny `string` cannot hold them. The model does cover the leading UTF-8 byte-order mark that the C# `StreamReader` drops.
- EncryptionService.ReadToEnd: StreamReader also detects the UTF-16 and UTF-32 byte-order marks (`EncryptionService.StartsWithWideMark`) and then decodes UTF-16 or UTF-32. `ReadToEnd` always decodes UTF-8, so it models the C# result only for decompressed bytes without such a mark. The round trips are unaffected, because UTF-8 text never starts with those bytes. A blob made some other way can carry them, and `EncryptionTs.DecryptAgrees` therefore claims agreement only when the decompressed bytes start with no such mark.
- EncryptionService.Decrypt: both sides share one AES-CBC decryptor, and `Platform.Lawful` says nothing about an empty ciphertext. A blob of exactly 16 bytes has one. The .NET decryptor may return an empty plaintext for it, where Node fails with a wrong final block length, so `EncryptionTs.DecryptAgrees` claims agreement only for blobs longer than 16 bytes.
- EncryptionTs.NodeDecryptsNet: GZipStream may write no bytes at all for empty input, which zlib rejects. The lemma therefore covers non-empty text only, under the hypothesis `Platform.NodeReadsNetGzip`. `EncryptionTs.BlobFormatAgrees` states only that each side's gzip library reads its own output. `EncryptionTs.DecryptAgrees` claims agreement only where the two gunzips give the same result.
- Base64.Decode: it accepts a final quantum whose unused low bits are not zero. Section 3.5 of RFC 4648 lets a decoder reject such text. Whether .NET's and Node's decoders reject it is library behaviour outside this model. Encoder output never has such bits, so the round trips are unaffected.
- A wrong password is not shown to fail. Without a MAC, AES-CBC with PKCS#7 can accept a wrong key, and `Platform.Lawful` makes no claim about it.
- `EncryptionService.BlockCopy` requires distinct source and destination arrays. `Buffer.BlockCopy` also allows overlapping copies within one array, which the service never uses.
- Stage ordering (compress before encrypt, decompress before decoding) is built into the definitions of `EncryptionService.Encrypt`/`Decrypt` and `EncryptionTs.EncryptString`/`DecryptString`. No separate lemma states it.
- The console demos (`EncryptionDemo/Program.cs`, `runTest` in `test.ts`), the ASP.NET controller and startup code, and the tracing service are not part of this model.
