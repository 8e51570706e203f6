/** Base64 as defined in section 4 of RFC 4648: the encoding behind .NET's
    Convert.ToBase64String / Convert.FromBase64String and Node's
    Buffer.toString('base64') / Buffer.from(s, 'base64'). The platforms' own
    encoders are library code; this module is the stand-in every other module
    uses for them. */
module Base64 {
  import opened Basics

  /** A 6-bit value, the index of one alphabet character. */
  type sextet = v: int | 0 <= v < 64

  /** The 64 characters of the alphabet of section 4 of RFC 4648. */
  predicate IsAlphabetChar(c: char) {
    ('A' <= c <= 'Z') || ('a' <= c <= 'z') || ('0' <= c <= '9') || c == '+' || c == '/'
  }

  /** Table 1 of RFC 4648: value to character. */
  function CharOf(v: sextet): (c: char)
    ensures IsAlphabetChar(c)
  {
    if v < 26 then ('A' as int + v) as char
    else if v < 52 then ('a' as int + (v - 26)) as char
    else if v < 62 then ('0' as int + (v - 52)) as char
    else if v == 62 then '+'
    else '/'
  }

  /** Table 1 of RFC 4648: character to value; the inverse of CharOf. */
  function ValueOf(c: char): (v: sextet)
    requires IsAlphabetChar(c)
    ensures CharOf(v) == c
  {
    if 'A' <= c <= 'Z' then c as int - 'A' as int
    else if 'a' <= c <= 'z' then c as int - 'a' as int + 26
    else if '0' <= c <= '9' then c as int - '0' as int + 52
    else if c == '+' then 62
    else 63
  }

  lemma ValueOfCharOf(v: sextet)
    ensures ValueOf(CharOf(v)) == v
  {
  }

  /** Number of `=` characters that end the encoding of `n` bytes. */
  function PadCount(n: nat): (k: nat)
    ensures k <= 2
  {
    (3 - n % 3) % 3
  }

  // Three bytes make four characters; one or two trailing bytes make a
  // quantum completed with `=` (section 4 of RFC 4648, cases (1) to (3)).

  function EncodeTriple(a: byte, b: byte, c: byte): seq<char> {
    [CharOf(a / 4), CharOf((a % 4) * 16 + b / 16), CharOf((b % 16) * 4 + c / 64), CharOf(c % 64)]
  }

  function EncodePair(a: byte, b: byte): seq<char> {
    [CharOf(a / 4), CharOf((a % 4) * 16 + b / 16), CharOf((b % 16) * 4), '=']
  }

  function EncodeSingle(a: byte): seq<char> {
    [CharOf(a / 4), CharOf((a % 4) * 16), '=', '=']
  }

  /** The Base64 text of `data`. */
  function Encode(data: seq<byte>): (r: string)
    decreases |data|
  {
    if |data| == 0 then []
    else if |data| == 1 then EncodeSingle(data[0])
    else if |data| == 2 then EncodePair(data[0], data[1])
    else EncodeTriple(data[0], data[1], data[2]) + Encode(data[3..])
  }

  /** One 4-character quantum: four alphabet characters give three bytes, a
      quantum ending in `=` gives two, one ending in `==` gives one; anything
      else is malformed. */
  function DecodeQuantum(q: string): Option<seq<byte>>
    requires |q| == 4
  {
    if IsAlphabetChar(q[0]) && IsAlphabetChar(q[1]) then
      var v0, v1 := ValueOf(q[0]), ValueOf(q[1]);
      if IsAlphabetChar(q[2]) && IsAlphabetChar(q[3]) then
        var v2, v3 := ValueOf(q[2]), ValueOf(q[3]);
        Some([v0 * 4 + v1 / 16, (v1 % 16) * 16 + v2 / 4, (v2 % 4) * 64 + v3])
      else if IsAlphabetChar(q[2]) && q[3] == '=' then
        var v2 := ValueOf(q[2]);
        Some([v0 * 4 + v1 / 16, (v1 % 16) * 16 + v2 / 4])
      else if q[2] == '=' && q[3] == '=' then
        Some([v0 * 4 + v1 / 16])
      else None
    else None
  }

  /** Strict decoding: the length must be a multiple of 4 and `=` may only
      complete the last quantum. */
  function Decode(s: string): (r: Option<seq<byte>>)
    decreases |s|
  {
    if |s| == 0 then Some([])
    else if |s| < 4 then None
    else if |s| == 4 then DecodeQuantum(s)
    else if IsAlphabetChar(s[0]) && IsAlphabetChar(s[1]) && IsAlphabetChar(s[2]) && IsAlphabetChar(s[3]) then
      match Decode(s[4..])
      case Some(rest) => Some(DecodeQuantum(s[..4]).value + rest)
      case None => None
    else None
  }

  /** The encoding is 4 characters per started group of 3 bytes. */
  lemma {:induction false} EncodeLength(data: seq<byte>)
    ensures |Encode(data)| == 4 * ((|data| + 2) / 3)
  {
    if |data| >= 3 {
      EncodeLength(data[3..]);
      GroupStep(|data|);
    }
  }

  /** The encoding is 4 characters per started group of 3 bytes; all but the
      last PadCount characters are alphabet characters and those are `=`. */
  lemma {:induction false} EncodeShape(data: seq<byte>)
    ensures |Encode(data)| == 4 * ((|data| + 2) / 3)
    ensures forall i :: 0 <= i < |Encode(data)| - PadCount(|data|) ==> IsAlphabetChar(Encode(data)[i])
    ensures forall i :: |Encode(data)| - PadCount(|data|) <= i < |Encode(data)| ==> Encode(data)[i] == '='
  {
    EncodeLength(data);
    if |data| >= 3 {
      var rest := Encode(data[3..]);
      EncodeShape(data[3..]);
      GroupStep(|data|);
      var e := Encode(data);
      var k := PadCount(|data|);
      var t := EncodeTriple(data[0], data[1], data[2]);
      assert e == t + rest;
      assert |t| == 4 && forall j :: 0 <= j < 4 ==> IsAlphabetChar(t[j]);
      forall i | 0 <= i < |e| - k
        ensures IsAlphabetChar(e[i])
      {
        if i >= 4 {
          assert e[i] == rest[i - 4];
        }
      }
      forall i | |e| - k <= i < |e|
        ensures e[i] == '='
      {
        assert e[i] == rest[i - 4];
      }
    }
  }

  /** One more group of three bytes adds one quantum and leaves the padding
      unchanged; a padded remainder has at least one quantum. */
  lemma GroupStep(n: nat)
    requires n >= 3
    ensures (n + 2) / 3 == (n - 1) / 3 + 1
    ensures PadCount(n) == PadCount(n - 3)
    ensures PadCount(n) == 0 || (n - 1) / 3 >= 1
  {
    var q, r := (n - 1) / 3, (n - 1) % 3;
    assert n - 1 == 3 * q + r;
    assert n + 2 == 3 * (q + 1) + r;
    assert n % 3 == (n - 3) % 3;
  }

  lemma Div16(x: int, y: int)
    requires 0 <= y < 16
    ensures (x * 16 + y) / 16 == x && (x * 16 + y) % 16 == y
  {
  }

  lemma Div4(x: int, y: int)
    requires 0 <= y < 4
    ensures (x * 4 + y) / 4 == x && (x * 4 + y) % 4 == y
  {
  }

  /** The sextets of a full group reassemble into its three bytes. */
  lemma TripleArithmetic(a: byte, b: byte, c: byte)
    ensures (a / 4) * 4 + ((a % 4) * 16 + b / 16) / 16 == a
    ensures (((a % 4) * 16 + b / 16) % 16) * 16 + ((b % 16) * 4 + c / 64) / 4 == b
    ensures (((b % 16) * 4 + c / 64) % 4) * 64 + c % 64 == c
  {
    Div16(a % 4, b / 16);
    Div4(b % 16, c / 64);
  }

  lemma TripleRoundTrip(a: byte, b: byte, c: byte)
    ensures DecodeQuantum(EncodeTriple(a, b, c)) == Some([a, b, c])
  {
    var v0, v1, v2, v3 := a / 4, (a % 4) * 16 + b / 16, (b % 16) * 4 + c / 64, c % 64;
    var q := EncodeTriple(a, b, c);
    assert q == [CharOf(v0), CharOf(v1), CharOf(v2), CharOf(v3)];
    ValueOfCharOf(v0);
    ValueOfCharOf(v1);
    ValueOfCharOf(v2);
    ValueOfCharOf(v3);
    TripleArithmetic(a, b, c);
  }

  lemma PairRoundTrip(a: byte, b: byte)
    ensures DecodeQuantum(EncodePair(a, b)) == Some([a, b])
  {
    var v0, v1, v2 := a / 4, (a % 4) * 16 + b / 16, (b % 16) * 4;
    ValueOfCharOf(v0);
    ValueOfCharOf(v1);
    ValueOfCharOf(v2);
    Div16(a % 4, b / 16);
    Div4(b % 16, 0);
  }

  lemma SingleRoundTrip(a: byte)
    ensures DecodeQuantum(EncodeSingle(a)) == Some([a])
  {
    var v0, v1 := a / 4, (a % 4) * 16;
    ValueOfCharOf(v0);
    ValueOfCharOf(v1);
    Div16(a % 4, 0);
  }

  /** A byte sequence is its first bytes followed by the rest. */
  lemma Spread(data: seq<byte>)
    ensures |data| == 1 ==> data == [data[0]]
    ensures |data| == 2 ==> data == [data[0], data[1]]
    ensures |data| >= 3 ==> data == [data[0], data[1], data[2]] + data[3..]
  {
  }

  /** Decoding undoes encoding, for every byte sequence including the empty one. */
  lemma {:induction false} DecodeEncode(data: seq<byte>)
    ensures Decode(Encode(data)) == Some(data)
  {
    Spread(data);
    if |data| == 1 {
      SingleRoundTrip(data[0]);
    } else if |data| == 2 {
      PairRoundTrip(data[0], data[1]);
    } else if |data| >= 3 {
      var t := EncodeTriple(data[0], data[1], data[2]);
      var s := Encode(data);
      assert s == t + Encode(data[3..]);
      TripleRoundTrip(data[0], data[1], data[2]);
      if |data| == 3 {
        assert Encode(data[3..]) == [];
        assert s == t;
        assert Decode(s) == DecodeQuantum(t);
        assert [data[0], data[1], data[2]] == data;
      } else {
        assert |Encode(data[3..])| >= 4;
        assert s[..4] == t && s[4..] == Encode(data[3..]);
        DecodeEncode(data[3..]);
      }
    }
  }

  /** A text whose length is not a multiple of 4 never decodes. */
  lemma {:induction false} DecodeRejectsLength(s: string)
    requires |s| % 4 != 0
    ensures Decode(s) == None
  {
    if |s| > 4 {
      DecodeRejectsLength(s[4..]);
    }
  }

  // The platform decoders skip whitespace before decoding.

  /** The characters Convert.FromBase64String ignores: space, tab, carriage
      return and line feed. */
  predicate IsSkippedWhitespace(c: char) {
    c == ' ' || c == '\t' || c == '\r' || c == '\n'
  }

  /** `s` without its whitespace; every other character is kept, in order. */
  function StripWhitespace(s: string): (r: string)
    ensures forall i :: 0 <= i < |r| ==> !IsSkippedWhitespace(r[i])
    ensures forall c :: !IsSkippedWhitespace(c) ==> multiset(r)[c] == multiset(s)[c]
    ensures (forall i :: 0 <= i < |s| ==> !IsSkippedWhitespace(s[i])) ==> r == s
    ensures (forall i :: 0 <= i < |s| ==> IsSkippedWhitespace(s[i])) ==> r == []
  {
    if s == [] then []
    else
      assert s == [s[0]] + s[1..];
      if IsSkippedWhitespace(s[0]) then StripWhitespace(s[1..])
      else [s[0]] + StripWhitespace(s[1..])
  }

  /** Stripping whitespace distributes over concatenation. */
  lemma {:induction false} StripWhitespaceAppend(s: string, t: string)
    ensures StripWhitespace(s + t) == StripWhitespace(s) + StripWhitespace(t)
  {
    if s == [] {
      assert s + t == t;
    } else {
      assert (s + t)[1..] == s[1..] + t;
      StripWhitespaceAppend(s[1..], t);
    }
  }

  /** Convert.FromBase64String: whitespace anywhere is skipped, and what is
      left must be strict Base64. */
  function DecodeSkippingWhitespace(s: string): Option<seq<byte>> {
    Decode(StripWhitespace(s))
  }

  /** The encoder writes no whitespace, so the whitespace-skipping decoder
      also inverts it. */
  lemma DecodeSkippingWhitespaceEncode(data: seq<byte>)
    ensures DecodeSkippingWhitespace(Encode(data)) == Some(data)
  {
    var e := Encode(data);
    EncodeShape(data);
    forall i | 0 <= i < |e| ensures !IsSkippedWhitespace(e[i]) {
      if i < |e| - PadCount(|data|) {
        assert IsAlphabetChar(e[i]);
      }
    }
    DecodeEncode(data);
  }

  /** Whitespace after the encoded text is skipped as well. */
  lemma DecodeSkippingTrailingWhitespace(data: seq<byte>, w: string)
    requires forall i :: 0 <= i < |w| ==> IsSkippedWhitespace(w[i])
    ensures DecodeSkippingWhitespace(Encode(data) + w) == Some(data)
  {
    var e := Encode(data);
    DecodeSkippingWhitespaceEncode(data);
    StripWhitespaceAppend(e, w);
    assert StripWhitespace(w) == [];
    assert StripWhitespace(e + w) == StripWhitespace(e) + [];
    assert StripWhitespace(e) + [] == StripWhitespace(e);
  }
}
