/** The string operations the codecs chain together: .NET's
    String.Replace(char, char) and String.TrimEnd(char), and JavaScript's
    replace with a global regular expression that matches one character. */
module Strings {

  /** Every occurrence of `from` replaced by `to` (String.Replace(char, char),
      and JavaScript's replace with a global one-character pattern). */
  function Replace(s: string, from: char, to: char): (r: string)
    ensures |r| == |s|
    ensures forall i :: 0 <= i < |s| ==> r[i] == (if s[i] == from then to else s[i])
    ensures from != to ==> from !in r
    ensures from !in s ==> r == s
  {
    seq(|s|, i requires 0 <= i < |s| => if s[i] == from then to else s[i])
  }

  /** Every occurrence of `c` deleted (JavaScript's global replace by the
      empty string): every other character is kept, as often as it occurs;
      RemoveAllAppend shows that their order is kept too. */
  function RemoveAll(s: string, c: char): (r: string)
    ensures c !in r
    ensures forall x :: x != c ==> multiset(r)[x] == multiset(s)[x]
    ensures |r| == |s| - multiset(s)[c]
    ensures c !in s ==> r == s
  {
    if s == [] then []
    else
      assert s == [s[0]] + s[1..];
      if s[0] == c then RemoveAll(s[1..], c)
      else [s[0]] + RemoveAll(s[1..], c)
  }

  /** String.TrimEnd(char): the longest prefix of `s` not ending in `c`. */
  function TrimEnd(s: string, c: char): (r: string)
    ensures |r| <= |s| && r == s[..|r|]
    ensures r == [] || r[|r| - 1] != c
    ensures forall i :: |r| <= i < |s| ==> s[i] == c
  {
    if s != [] && s[|s| - 1] == c then TrimEnd(s[..|s| - 1], c) else s
  }

  /** `n` copies of `c`. */
  function Repeat(c: char, n: nat): (r: string)
    ensures |r| == n
    ensures forall i :: 0 <= i < n ==> r[i] == c
  {
    if n == 0 then [] else [c] + Repeat(c, n - 1)
  }

  /** RemoveAll distributes over concatenation. */
  lemma {:induction false} RemoveAllAppend(s: string, t: string, c: char)
    ensures RemoveAll(s + t, c) == RemoveAll(s, c) + RemoveAll(t, c)
  {
    if s == [] {
      assert s + t == t;
    } else {
      assert (s + t)[1..] == s[1..] + t;
      RemoveAllAppend(s[1..], t, c);
    }
  }

  /** Replace works character by character, so it distributes over
      concatenation. */
  lemma ReplaceAppend(s: string, t: string, from: char, to: char)
    ensures Replace(s + t, from, to) == Replace(s, from, to) + Replace(t, from, to)
  {
    var r, q := Replace(s + t, from, to), Replace(s, from, to) + Replace(t, from, to);
    forall i | 0 <= i < |r| ensures r[i] == q[i] {
      if i >= |s| {
        assert (s + t)[i] == t[i - |s|];
      }
    }
  }

  /** TrimEnd removes exactly a run of trailing `c` and stops at anything else. */
  lemma {:induction false} TrimEndPadding(s: string, c: char, n: nat)
    requires s == [] || s[|s| - 1] != c
    ensures TrimEnd(s + Repeat(c, n), c) == s
  {
    if n > 0 {
      assert (s + Repeat(c, n))[..|s| + n - 1] == s + Repeat(c, n - 1);
      TrimEndPadding(s, c, n - 1);
    } else {
      assert s + Repeat(c, 0) == s;
    }
  }

  /** Substituting `to` for `from` and then `from` for `to` gives the text
      back when `to` did not occur in it. */
  lemma ReplaceUndone(s: string, from: char, to: char)
    requires to !in s
    ensures Replace(Replace(s, from, to), to, from) == s
  {
    var r := Replace(Replace(s, from, to), to, from);
    forall i | 0 <= i < |s| ensures r[i] == s[i] {
      assert s[i] != to;
    }
  }
}
