/**
 * The .NET string operations the core relies on: `char.IsWhiteSpace`,
 * `string.IsNullOrEmpty`, `string.IsNullOrWhiteSpace`, `Trim`, `TrimStart(c)`,
 * `StartsWith`, `Replace` of one character, and case mapping. Case mapping
 * covers the ASCII letters only.
 */
module Text {
  import opened Wrappers

  /** `char.IsWhiteSpace`: the Unicode space separators, line and paragraph
      separators, and the control characters U+0009..U+000D and U+0085. */
  predicate IsWhiteSpace(c: char) {
    c == ' ' || ('\t' <= c <= '\r') || c == '\U{0085}' || c == '\U{00A0}' || c == '\U{1680}'
    || ('\U{2000}' <= c <= '\U{200A}') || c == '\U{2028}' || c == '\U{2029}'
    || c == '\U{202F}' || c == '\U{205F}' || c == '\U{3000}'
  }

  predicate AllWhiteSpace(s: string) {
    forall i :: 0 <= i < |s| ==> IsWhiteSpace(s[i])
  }

  /** `string.IsNullOrEmpty`. */
  predicate IsNullOrEmpty(s: Option<string>) {
    s.None? || s.value == ""
  }

  /** `string.IsNullOrWhiteSpace`. */
  predicate IsNullOrWhiteSpace(s: Option<string>) {
    s.None? || AllWhiteSpace(s.value)
  }

  /** Drops leading white space. */
  function TrimStartSpace(s: string): (r: string)
    ensures |r| <= |s| && r == s[|s| - |r|..]
    ensures r == [] || !IsWhiteSpace(r[0])
    ensures AllWhiteSpace(s[..|s| - |r|])
  {
    if s != [] && IsWhiteSpace(s[0]) then
      var r := TrimStartSpace(s[1..]);
      assert s[..|s| - |r|] == [s[0]] + s[1..][..|s| - 1 - |r|];
      r
    else s
  }

  /** Drops trailing white space. */
  function TrimEndSpace(s: string): (r: string)
    ensures |r| <= |s| && r == s[..|r|]
    ensures r == [] || !IsWhiteSpace(r[|r| - 1])
    ensures AllWhiteSpace(s[|r|..])
  {
    if s != [] && IsWhiteSpace(s[|s| - 1]) then
      var r := TrimEndSpace(s[..|s| - 1]);
      assert s[|r|..] == s[..|s| - 1][|r|..] + [s[|s| - 1]];
      r
    else s
  }

  /** `string.Trim()`: the longest infix with no white space at either end. */
  function Trim(s: string): (r: string)
    ensures |r| <= |s|
    ensures r == [] <==> AllWhiteSpace(s)
    ensures r != [] ==> !IsWhiteSpace(r[0]) && !IsWhiteSpace(r[|r| - 1])
  {
    var t := TrimStartSpace(s);
    var r := TrimEndSpace(t);
    assert r == [] ==> AllWhiteSpace(s) by {
      if r == [] {
        assert s == s[..|s| - |t|] + t;
        assert t == t[|r|..];
      }
    }
    assert AllWhiteSpace(s) ==> r == [] by {
      if AllWhiteSpace(s) {
        TrimStartAllWhiteSpace(s);
      }
    }
    r
  }

  lemma {:induction false} TrimStartAllWhiteSpace(s: string)
    requires AllWhiteSpace(s)
    ensures TrimStartSpace(s) == []
    decreases |s|
  {
    if s != [] {
      TrimStartAllWhiteSpace(s[1..]);
    }
  }

  /** `string.TrimStart(c)`: drops leading copies of `c`. */
  function TrimStartChar(s: string, c: char): (r: string)
    ensures |r| <= |s| && r == s[|s| - |r|..]
    ensures r == [] || r[0] != c
    ensures forall i :: 0 <= i < |s| - |r| ==> s[i] == c
  {
    if s != [] && s[0] == c then TrimStartChar(s[1..], c) else s
  }

  /** An ordinal prefix test (`s.StartsWith(prefix, StringComparison.Ordinal)`). */
  predicate StartsWith(s: string, prefix: string) {
    |prefix| <= |s| && s[..|prefix|] == prefix
  }

  /** Lower-cases an ASCII letter; every other character, non-ASCII letters included, is kept. */
  function ToLowerChar(c: char): char {
    if 'A' <= c <= 'Z' then (c as int + 32) as char else c
  }

  /** Upper-cases an ASCII letter, as `char.ToUpper` does under an invariant-like culture; other characters are kept. */
  function ToUpperChar(c: char): char {
    if 'a' <= c <= 'z' then (c as int - 32) as char else c
  }

  /** `ToLowerInvariant` / `ToLower` restricted to ASCII letters; other characters are kept. */
  function ToLower(s: string): (r: string)
    ensures |r| == |s|
    ensures forall i :: 0 <= i < |s| ==> r[i] == ToLowerChar(s[i])
  {
    seq(|s|, i requires 0 <= i < |s| => ToLowerChar(s[i]))
  }

  /** `s.Replace(from, to)` for one-character strings. */
  function ReplaceChar(s: string, from: char, to: char): (r: string)
    ensures |r| == |s|
    ensures forall i :: 0 <= i < |s| ==> r[i] == if s[i] == from then to else s[i]
  {
    seq(|s|, i requires 0 <= i < |s| => if s[i] == from then to else s[i])
  }

  lemma LowerKeepsWhiteSpace(c: char)
    ensures IsWhiteSpace(ToLowerChar(c)) <==> IsWhiteSpace(c)
    ensures IsWhiteSpace(c) ==> ToLowerChar(c) == c
  {
  }

  lemma ToLowerIdempotent(s: string)
    ensures ToLower(ToLower(s)) == ToLower(s)
  {
  }

  /** Trimming then lower-casing is lower-casing then trimming: no white-space
      character is an ASCII letter. */
  lemma {:induction false} TrimToLowerCommute(s: string)
    ensures Trim(ToLower(s)) == ToLower(Trim(s))
  {
    TrimStartToLower(s);
    TrimEndToLower(TrimStartSpace(s));
  }

  lemma {:induction false} TrimStartToLower(s: string)
    ensures TrimStartSpace(ToLower(s)) == ToLower(TrimStartSpace(s))
    decreases |s|
  {
    if s != [] {
      var l := ToLower(s);
      LowerKeepsWhiteSpace(s[0]);
      assert l[0] == ToLowerChar(s[0]);
      if IsWhiteSpace(s[0]) {
        assert l[1..] == ToLower(s[1..]);
        TrimStartToLower(s[1..]);
      }
    }
  }

  lemma {:induction false} TrimEndToLower(s: string)
    ensures TrimEndSpace(ToLower(s)) == ToLower(TrimEndSpace(s))
    decreases |s|
  {
    if s != [] {
      var l := ToLower(s);
      LowerKeepsWhiteSpace(s[|s| - 1]);
      assert l[|s| - 1] == ToLowerChar(s[|s| - 1]);
      if IsWhiteSpace(s[|s| - 1]) {
        assert l[..|s| - 1] == ToLower(s[..|s| - 1]);
        TrimEndToLower(s[..|s| - 1]);
      }
    }
  }

  /** White space around `s` does not change what Trim gives. */
  lemma {:induction false} TrimIgnoresPadding(pre: string, s: string, post: string)
    requires AllWhiteSpace(pre) && AllWhiteSpace(post)
    ensures Trim(pre + s + post) == Trim(s)
  {
    var x := pre + s + post;
    assert x == pre + (s + post);
    TrimStartPadding(pre, s + post);
    assert TrimStartSpace(x) == TrimStartSpace(s + post);
    TrimStartKeepsPost(s, post);
    TrimEndPadding(TrimStartSpace(s), post);
    calc {
      Trim(x);
      TrimEndSpace(TrimStartSpace(x));
      TrimEndSpace(TrimStartSpace(s + post));
      TrimEndSpace(TrimStartSpace(s) + post);
      TrimEndSpace(TrimStartSpace(s));
      Trim(s);
    }
  }

  lemma {:induction false} TrimStartPadding(pre: string, s: string)
    requires AllWhiteSpace(pre)
    ensures TrimStartSpace(pre + s) == TrimStartSpace(s)
    decreases |pre|
  {
    if pre != [] {
      assert (pre + s)[1..] == pre[1..] + s;
      TrimStartPadding(pre[1..], s);
    } else {
      assert pre + s == s;
    }
  }

  /** Leading trim of `s + post` is leading trim of `s` followed by `post`,
      unless `s` is all white space, where Trim yields nothing either way. */
  lemma {:induction false} TrimStartKeepsPost(s: string, post: string)
    requires AllWhiteSpace(post)
    ensures TrimEndSpace(TrimStartSpace(s + post)) == TrimEndSpace(TrimStartSpace(s) + post)
    decreases |s|
  {
    if s == [] {
      assert s + post == post;
      assert TrimStartSpace(s) + post == post;
    } else if IsWhiteSpace(s[0]) {
      assert (s + post)[1..] == s[1..] + post;
      TrimStartKeepsPost(s[1..], post);
    } else {
      assert (s + post)[0] == s[0];
    }
  }

  lemma {:induction false} TrimEndPadding(s: string, post: string)
    requires AllWhiteSpace(post)
    ensures TrimEndSpace(s + post) == TrimEndSpace(s)
    decreases |post|
  {
    if post != [] {
      assert (s + post)[..|s + post| - 1] == s + post[..|post| - 1];
      TrimEndPadding(s, post[..|post| - 1]);
    } else {
      assert s + post == s;
    }
  }
}
