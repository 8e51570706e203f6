/** The TypeScript URL-safe Base64 helpers at the top of
    encryption-demo/src/test.ts: `toBase64URL` (three global regular-expression
    replacements) and `fromBase64URL` (the reverse replacements, then a loop
    that appends `=` until the length is a multiple of 4). */
module UrlSafeTs {
  import opened Basics
  import opened Strings
  import Base64
  import Base64UrlUtils

  /** toBase64URL: Buffer.toString('base64'), then `+` to `-`, `/` to `_`, and
      every `=` deleted. */
  function ToBase64URL(buffer: seq<byte>): string {
    RemoveAll(Replace(Replace(Base64.Encode(buffer), '+', '-'), '/', '_'), '=')
  }

  /** The padding loop of fromBase64URL, one `=` per iteration. */
  function PadToQuantum(str: string): (r: string)
    decreases (4 - |str| % 4) % 4
  {
    if |str| % 4 == 0 then str else PadToQuantum(str + "=")
  }

  /** The value fromBase64URL returns, with the whitespace-skipping strict
      decoder standing in for Buffer.from(str, 'base64'). */
  function DecodeUrl(str: string): Option<seq<byte>> {
    Base64.DecodeSkippingWhitespace(PadToQuantum(Replace(Replace(str, '-', '+'), '_', '/')))
  }

  /** fromBase64URL, with its loop appending `=` while the length is not a
      multiple of 4. */
  method FromBase64URL(str: string) returns (r: Option<seq<byte>>)
    ensures r == DecodeUrl(str)
  {
    var s := Replace(Replace(str, '-', '+'), '_', '/');
    ghost var replaced := s;
    while |s| % 4 != 0
      invariant PadToQuantum(s) == PadToQuantum(replaced)
      decreases (4 - |s| % 4) % 4
    {
      s := s + "=";
    }
    r := Base64.DecodeSkippingWhitespace(s);
  }

  /** The loop ends on a length that is a multiple of 4, having appended only
      `=` and at most three of them. */
  lemma {:induction false} PadToQuantumSpec(str: string)
    ensures var r := PadToQuantum(str);
            && |r| % 4 == 0
            && |r| - |str| <= 3
            && r == str + Repeat('=', (4 - |str| % 4) % 4)
    decreases (4 - |str| % 4) % 4
  {
    if |str| % 4 != 0 {
      PadToQuantumSpec(str + "=");
      var k := (4 - |str| % 4) % 4;
      assert (4 - |str + "="| % 4) % 4 == k - 1;
      assert "=" + Repeat('=', k - 1) == Repeat('=', k);
      assert str + "=" + Repeat('=', k - 1) == str + ("=" + Repeat('=', k - 1));
    } else {
      assert str + Repeat('=', 0) == str;
    }
  }

  /** For lengths 0, 2 and 3 modulo 4 the loop pads exactly as the C# switch
      does; for length 1 modulo 4 it appends `===` where C# appends nothing. */
  lemma PaddingDivergence(str: string)
    ensures |str| % 4 != 1 ==> PadToQuantum(str) == str + Base64UrlUtils.PaddingFor(str)
    ensures |str| % 4 == 1 ==> PadToQuantum(str) == str + "===" && str + Base64UrlUtils.PaddingFor(str) == str
  {
    PadToQuantumSpec(str);
    LoopPadding(str);
    if |str| % 4 == 1 {
      assert str + "" == str;
    }
  }

  /** The `=` the loop appends, by the length modulo 4. */
  lemma LoopPadding(str: string)
    ensures |str| % 4 != 1 ==> Repeat('=', (4 - |str| % 4) % 4) == Base64UrlUtils.PaddingFor(str)
    ensures |str| % 4 == 1 ==> Repeat('=', (4 - |str| % 4) % 4) == "==="
  {
    var k := (4 - |str| % 4) % 4;
    MissingToQuantum(|str|);
    RepeatEquals(k);
  }

  lemma MissingToQuantum(n: nat)
    ensures n % 4 == 0 ==> (4 - n % 4) % 4 == 0
    ensures n % 4 == 1 ==> (4 - n % 4) % 4 == 3
    ensures n % 4 == 2 ==> (4 - n % 4) % 4 == 2
    ensures n % 4 == 3 ==> (4 - n % 4) % 4 == 1
  {
  }

  /** The short runs of `=` the padding code writes as literals. */
  lemma RepeatEquals(n: nat)
    requires n <= 3
    ensures n == 0 ==> Repeat('=', n) == ""
    ensures n == 1 ==> Repeat('=', n) == "="
    ensures n == 2 ==> Repeat('=', n) == "=="
    ensures n == 3 ==> Repeat('=', n) == "==="
  {
  }

  /** Away from the length that is 1 modulo 4, the loop and the C# switch
      pad alike, so with one decoder standing in for both platforms' Base64
      decoders the two functions return the same value. Node's own decoder
      is more lenient than .NET's and returns bytes for some text .NET
      rejects; that difference is not captured here. */
  lemma DecodersAgree(str: string)
    requires |str| % 4 != 1
    ensures DecodeUrl(str) == Base64UrlUtils.FromBase64Url(str)
  {
    PaddingDivergence(Replace(Replace(str, '-', '+'), '_', '/'));
  }

  /** toBase64URL and the C# ToBase64Url give the same text for every buffer:
      `=` occurs in standard Base64 only as trailing padding, so deleting every
      `=` and trimming the trailing ones agree. */
  lemma EncodersAgree(buffer: seq<byte>)
    ensures ToBase64URL(buffer) == Base64UrlUtils.ToBase64Url(buffer)
  {
    var p := Base64.PadCount(|buffer|);
    var body := Base64UrlUtils.TrimmedIsBody(buffer);
    var substituted := Base64UrlUtils.SubstitutedShape(buffer);
    assert Replace(Replace(Base64.Encode(buffer), '+', '-'), '/', '_') == body + Repeat('=', p);
    assert '=' !in body by {
      Base64UrlUtils.ToBase64UrlShape(buffer);
    }
    RemoveAllAppend(body, Repeat('=', p), '=');
    RepeatRemoved(p);
    assert body + [] == body;
  }

  lemma {:induction false} RepeatRemoved(n: nat)
    ensures RemoveAll(Repeat('=', n), '=') == []
  {
    if n > 0 {
      RepeatRemoved(n - 1);
    }
  }

  /** For a non-empty buffer the text is non-empty and matches
      `^[a-zA-Z0-9\-_]+$`, with no `=`, `+` or `/`. */
  lemma ToBase64URLIsUrlSafe(buffer: seq<byte>)
    ensures var r := ToBase64URL(buffer);
            && (|buffer| > 0 ==> |r| > 0)
            && (forall i :: 0 <= i < |r| ==> Base64UrlUtils.IsUrlSafeChar(r[i]))
            && '=' !in r && '+' !in r && '/' !in r
  {
    EncodersAgree(buffer);
    Base64UrlUtils.ToBase64UrlShape(buffer);
    Base64UrlUtils.ToBase64UrlLength(buffer);
  }

  /** Round trip: fromBase64URL(toBase64URL(b)) decodes back to `b`. */
  lemma RoundTrip(buffer: seq<byte>)
    ensures DecodeUrl(ToBase64URL(buffer)) == Some(buffer)
  {
    EncodersAgree(buffer);
    Base64UrlUtils.ToBase64UrlLength(buffer);
    DecodersAgree(ToBase64URL(buffer));
    Base64UrlUtils.RoundTrip(buffer);
  }
}
