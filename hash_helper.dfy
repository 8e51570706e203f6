/** The hash helper of the hello-world API
    (services/hello-world-api/Helpers/HashHelper.cs): the three fields joined
    with `|`, hashed with SHA-256 over their UTF-8 bytes, and the digest written
    as URL-safe Base64 by the same Replace/Replace/TrimEnd chain as
    Base64UrlUtils.ToBase64Url. */
module HashHelper {
  import opened Basics
  import opened Strings
  import opened Platform
  import Base64
  import Base64UrlUtils

  /** The hashed text, `{businessId}|{matterId}|{version}`. */
  function HashInput(businessId: string, matterId: string, version: string): string {
    businessId + "|" + matterId + "|" + version
  }

  /** GenerateHash: SHA-256 of the UTF-8 bytes of the joined text, written as
      URL-safe Base64 without padding. */
  function GenerateHash(p: Primitives, businessId: string, matterId: string, version: string): string {
    var hashBytes := p.sha256(p.utf8Encode(HashInput(businessId, matterId, version)));
    TrimEnd(Replace(Replace(Base64.Encode(hashBytes), '+', '-'), '/', '_'), '=')
  }

  /** The encoding step is the URL-safe transform of Base64UrlUtils. */
  lemma EncodingIsToBase64Url(p: Primitives, businessId: string, matterId: string, version: string)
    ensures GenerateHash(p, businessId, matterId, version) ==
            Base64UrlUtils.ToBase64Url(p.sha256(p.utf8Encode(HashInput(businessId, matterId, version))))
  {
  }

  /** A 32-byte digest gives 44 Base64 characters ending in one `=`, so the
      hash is always 43 characters of `[A-Za-z0-9_-]`, with no `+`, `/` or
      `=`. */
  lemma HashShape(p: Primitives, businessId: string, matterId: string, version: string)
    requires Lawful(p)
    ensures var h := GenerateHash(p, businessId, matterId, version);
            && |h| == 43
            && (forall i :: 0 <= i < |h| ==> Base64UrlUtils.IsUrlSafeChar(h[i]))
            && '+' !in h && '/' !in h && '=' !in h
  {
    var digest := p.sha256(p.utf8Encode(HashInput(businessId, matterId, version)));
    assert |digest| == 32;
    Base64UrlUtils.ToBase64UrlShape(digest);
    Base64UrlUtils.ToBase64UrlLength(digest);
  }

  /** The join is not injective: a `|` inside a field can move between
      fields without changing the hashed text, so different triples get the
      same hash. */
  lemma JoinNotInjective(p: Primitives)
    ensures ("a|b", "c", "d") != ("a", "b|c", "d")
    ensures HashInput("a|b", "c", "d") == HashInput("a", "b|c", "d")
    ensures GenerateHash(p, "a|b", "c", "d") == GenerateHash(p, "a", "b|c", "d")
  {
    assert HashInput("a|b", "c", "d") == "a|b|c|d";
    assert HashInput("a", "b|c", "d") == "a|b|c|d";
  }

  /** Any two triples with equal joined text hash alike; with the join above,
      this is every collision the format itself introduces. */
  lemma SameInputSameHash(p: Primitives, b1: string, m1: string, v1: string, b2: string, m2: string, v2: string)
    requires HashInput(b1, m1, v1) == HashInput(b2, m2, v2)
    ensures GenerateHash(p, b1, m1, v1) == GenerateHash(p, b2, m2, v2)
  {
  }
}
