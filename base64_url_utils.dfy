/** The C# URL-safe Base64 helpers (EncryptionDemo/Utils/Base64UrlUtils.cs):
    standard Base64 text with `+` turned into `-`, `/` into `_` and the
    trailing `=` padding cut off (the alphabet of section 5 of RFC 4648), and
    the reverse, which rebuilds the padding from the length before handing the
    text to the standard decoder. */
module Base64UrlUtils {
  import opened Basics
  import opened Strings
  import Base64

  /** The characters of the URL- and filename-safe alphabet, `[A-Za-z0-9_-]`. */
  predicate IsUrlSafeChar(c: char) {
    ('A' <= c <= 'Z') || ('a' <= c <= 'z') || ('0' <= c <= '9') || c == '-' || c == '_'
  }

  /** The substitution applied to one standard alphabet character. */
  function UrlChar(c: char): char {
    if c == '+' then '-' else if c == '/' then '_' else c
  }

  /** Length of the URL-safe text of `n` bytes: four characters per full group
      of three bytes, then two for one trailing byte and three for two. */
  function UrlLength(n: nat): nat {
    4 * (n / 3) + (if n % 3 == 0 then 0 else if n % 3 == 1 then 2 else 3)
  }

  /** ToBase64Url: Convert.ToBase64String, then Replace('+', '-'),
      Replace('/', '_') and TrimEnd('='). */
  function ToBase64Url(data: seq<byte>): string {
    TrimEnd(Replace(Replace(Base64.Encode(data), '+', '-'), '/', '_'), '=')
  }

  /** The padding the switch in FromBase64Url appends: at most two `=`,
      just enough to complete the last 4-character quantum, and nothing when
      no such padding exists (a length of 1 modulo 4). */
  function PaddingFor(base64: string): (pad: string)
    ensures |pad| <= 2 && forall i :: 0 <= i < |pad| ==> pad[i] == '='
    ensures |base64| % 4 != 1 ==> (|base64| + |pad|) % 4 == 0
    ensures |base64| % 4 == 1 ==> pad == ""
  {
    match |base64| % 4
    case 2 => "=="
    case 3 => "="
    case _ => ""
  }

  /** The text FromBase64Url hands to Convert.FromBase64String: the reverse
      substitution followed by the padding. */
  function ToPaddedBase64(base64Url: string): string {
    var base64 := Replace(Replace(base64Url, '-', '+'), '_', '/');
    base64 + PaddingFor(base64)
  }

  /** FromBase64Url; None stands for the FormatException of
      Convert.FromBase64String, which skips whitespace. */
  function FromBase64Url(base64Url: string): Option<seq<byte>> {
    Base64.DecodeSkippingWhitespace(ToPaddedBase64(base64Url))
  }

  /** The substituted standard text is the URL-safe body followed by the
      padding: the body is the standard text without its padding, character
      by character substituted, and holds only URL-safe characters. */
  lemma SubstitutedShape(data: seq<byte>) returns (body: string)
    ensures var e := Base64.Encode(data);
            && body == Replace(Replace(e[..|e| - Base64.PadCount(|data|)], '+', '-'), '/', '_')
            && Replace(Replace(e, '+', '-'), '/', '_') == body + Repeat('=', Base64.PadCount(|data|))
            && (forall i :: 0 <= i < |body| ==> IsUrlSafeChar(body[i]) && body[i] == UrlChar(e[i]))
            && |body| == UrlLength(|data|)
  {
    var e := Base64.Encode(data);
    var p := Base64.PadCount(|data|);
    Base64.EncodeShape(data);
    var n := |e| - p;
    body := Replace(Replace(e[..n], '+', '-'), '/', '_');
    var m := Replace(Replace(e, '+', '-'), '/', '_');
    assert m == body + Repeat('=', p);
    UrlLengthArithmetic(|data|);
  }

  /** The unpadded length of n bytes is UrlLength(n), which is never 1 modulo
      4 and is positive for positive n. */
  lemma UrlLengthArithmetic(n: nat)
    ensures 4 * ((n + 2) / 3) - Base64.PadCount(n) == UrlLength(n)
    ensures UrlLength(n) % 4 != 1
    ensures n > 0 ==> UrlLength(n) > 0
  {
    var q, r := n / 3, n % 3;
    assert n == 3 * q + r;
    if r == 0 {
      assert (n + 2) / 3 == q;
    } else {
      assert (n + 2) / 3 == q + 1;
    }
  }

  /** What ToBase64Url produces: the standard text of `data` without its `=`
      padding, with `+` turned into `-` and `/` into `_`, so that it holds only
      characters of `[A-Za-z0-9_-]`, never `+`, `/` or `=`. */
  lemma ToBase64UrlShape(data: seq<byte>)
    ensures var r := ToBase64Url(data);
            var e := Base64.Encode(data);
            && |r| == |e| - Base64.PadCount(|data|)
            && (forall i :: 0 <= i < |r| ==> r[i] == UrlChar(e[i]))
            && (forall i :: 0 <= i < |r| ==> IsUrlSafeChar(r[i]))
            && '+' !in r && '/' !in r && '=' !in r
  {
    var e := Base64.Encode(data);
    var body := TrimmedIsBody(data);
    assert '=' !in body by {
      forall i | 0 <= i < |body| ensures body[i] != '=' {
        assert IsUrlSafeChar(body[i]);
      }
    }
  }

  /** ToBase64Url(data) is the body of SubstitutedShape. */
  lemma TrimmedIsBody(data: seq<byte>) returns (body: string)
    ensures var e := Base64.Encode(data);
            && body == Replace(Replace(e[..|e| - Base64.PadCount(|data|)], '+', '-'), '/', '_')
            && ToBase64Url(data) == body
            && (forall i :: 0 <= i < |body| ==> IsUrlSafeChar(body[i]) && body[i] == UrlChar(e[i]))
            && |body| == UrlLength(|data|)
            && |body| == |e| - Base64.PadCount(|data|)
  {
    var e := Base64.Encode(data);
    var p := Base64.PadCount(|data|);
    body := SubstitutedShape(data);
    var m := Replace(Replace(e, '+', '-'), '/', '_');
    assert body == [] || IsUrlSafeChar(body[|body| - 1]);
    TrimEndPadding(body, '=', p);
    assert ToBase64Url(data) == TrimEnd(m, '=');
  }

  /** The length of ToBase64Url(data) is 4 * ceil(|data| / 3) less the 0 to 2
      stripped pad characters, so it is never 1 modulo 4. */
  lemma ToBase64UrlLength(data: seq<byte>)
    ensures |ToBase64Url(data)| == UrlLength(|data|)
    ensures |ToBase64Url(data)| % 4 != 1
    ensures |data| > 0 ==> |ToBase64Url(data)| > 0
  {
    var body := TrimmedIsBody(data);
    UrlLengthArithmetic(|data|);
  }

  /** Undoing the substitution of a URL-safe body gives the unpadded standard
      text back. */
  lemma UnsubstituteBody(data: seq<byte>)
    ensures var e := Base64.Encode(data);
            Replace(Replace(ToBase64Url(data), '-', '+'), '_', '/') == e[..|e| - Base64.PadCount(|data|)]
  {
    var e := Base64.Encode(data);
    Base64.EncodeShape(data);
    ToBase64UrlShape(data);
  }

  /** The switch restores exactly the padding that ToBase64Url removed. */
  lemma PaddingRestored(data: seq<byte>)
    ensures ToPaddedBase64(ToBase64Url(data)) == Base64.Encode(data)
  {
    var base64 := UnpaddedPrefix(data);
    UnsubstituteBody(data);
    assert ToPaddedBase64(ToBase64Url(data)) == base64 + PaddingFor(base64);
    PaddingForUnpadded(base64, |data|);
  }

  /** The standard text is its unpadded prefix followed by the padding. */
  lemma UnpaddedPrefix(data: seq<byte>) returns (base64: string)
    ensures var e := Base64.Encode(data);
            && base64 == e[..|e| - Base64.PadCount(|data|)]
            && e == base64 + Repeat('=', Base64.PadCount(|data|))
            && |base64| == 4 * ((|data| + 2) / 3) - Base64.PadCount(|data|)
  {
    var e := Base64.Encode(data);
    Base64.EncodeShape(data);
    base64 := e[..|e| - Base64.PadCount(|data|)];
    assert e == base64 + Repeat('=', Base64.PadCount(|data|));
  }

  /** For the unpadded standard text of `n` bytes, the switch yields exactly
      the PadCount(n) characters the encoder had appended. */
  lemma PaddingForUnpadded(base64: string, n: nat)
    requires |base64| == 4 * ((n + 2) / 3) - Base64.PadCount(n)
    ensures PaddingFor(base64) == Repeat('=', Base64.PadCount(n))
  {
    if n % 3 == 0 {
      assert |base64| == 4 * (n / 3);
    } else if n % 3 == 1 {
      assert |base64| == 4 * (n / 3) + 2;
      assert Repeat('=', 2) == "==";
    } else {
      assert |base64| == 4 * (n / 3) + 3;
      assert Repeat('=', 1) == "=";
    }
  }

  /** Round trip: FromBase64Url(ToBase64Url(data)) gives `data` back, the
      empty sequence included. */
  lemma RoundTrip(data: seq<byte>)
    ensures FromBase64Url(ToBase64Url(data)) == Some(data)
  {
    PaddingRestored(data);
    Base64.DecodeSkippingWhitespaceEncode(data);
  }

  /** The padded text is a whole number of quanta exactly when the input length
      is not 1 modulo 4; for that length the switch adds nothing. */
  lemma PaddedLength(base64Url: string)
    ensures |base64Url| % 4 != 1 <==> |ToPaddedBase64(base64Url)| % 4 == 0
    ensures |base64Url| % 4 == 1 ==> |ToPaddedBase64(base64Url)| == |base64Url|
  {
  }

  /** A whitespace-free text whose length is 1 modulo 4 is left unpadded and
      rejected by the standard decoder. */
  lemma RejectsLengthOneModFour(base64Url: string)
    requires |base64Url| % 4 == 1
    requires forall i :: 0 <= i < |base64Url| ==> !Base64.IsSkippedWhitespace(base64Url[i])
    ensures FromBase64Url(base64Url) == None
  {
    var padded := ToPaddedBase64(base64Url);
    PaddedLength(base64Url);
    assert forall i :: 0 <= i < |padded| ==> !Base64.IsSkippedWhitespace(padded[i]);
    Base64.DecodeRejectsLength(padded);
  }

  /** With whitespace the length rule does not hold: the URL-safe text of a
      whole number of 3-byte groups followed by one space has length 1 modulo
      4, gets no padding, and still decodes to the original bytes, because the
      decoder skips the space. */
  lemma WhitespaceSkipped(data: seq<byte>)
    requires |data| % 3 == 0
    ensures |ToBase64Url(data) + " "| % 4 == 1
    ensures FromBase64Url(ToBase64Url(data) + " ") == Some(data)
  {
    var u := ToBase64Url(data);
    ToBase64UrlLength(data);
    UnsubstituteBody(data);
    WholeGroups(|data|);
    PaddedWithSpace(u, Base64.Encode(data));
    Base64.DecodeSkippingTrailingWhitespace(data, " ");
  }

  /** A space after a whole number of quanta is passed on unchanged, with
      no padding after it. */
  lemma PaddedWithSpace(u: string, e: string)
    requires Replace(Replace(u, '-', '+'), '_', '/') == e
    requires |u| % 4 == 0
    ensures |u + " "| % 4 == 1
    ensures ToPaddedBase64(u + " ") == e + " "
  {
    ReplaceAppend(u, " ", '-', '+');
    ReplaceAppend(Replace(u, '-', '+'), " ", '_', '/');
    var base64 := Replace(Replace(u + " ", '-', '+'), '_', '/');
    assert base64 == e + " ";
    assert PaddingFor(base64) == "";
  }

  /** A whole number of 3-byte groups needs no padding and its URL-safe text
      is a whole number of quanta. */
  lemma WholeGroups(n: nat)
    requires n % 3 == 0
    ensures Base64.PadCount(n) == 0
    ensures UrlLength(n) % 4 == 0
    ensures (UrlLength(n) + 1) % 4 == 1
  {
  }
}
