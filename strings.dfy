/**
 * Character classes and string helpers shared by the workspace code:
 * Python's whitespace stripping, `rstrip`/`strip` with a character,
 * `split("/")[-1]`, `endswith`, ASCII lower-casing and the code-point
 * ordering Python uses to compare strings.
 */
module Strings {

  /** The characters for which Python's `str.isspace()` holds. */
  predicate IsSpace(c: char) {
    c == ' ' || ('\t' <= c <= '\r') || ('\U{1c}' <= c <= '\U{1f}')
    || c == '\U{85}' || c == '\U{a0}' || c == '\U{1680}'
    || ('\U{2000}' <= c <= '\U{200a}') || c == '\U{2028}' || c == '\U{2029}'
    || c == '\U{202f}' || c == '\U{205f}' || c == '\U{3000}'
  }

  predicate IsSlash(c: char) { c == '/' }

  /** `s.lstrip(chars)`: drops the longest prefix made of characters satisfying `p`. */
  function TrimStart(s: string, p: char -> bool): (r: string)
    ensures |r| <= |s| && r == s[|s| - |r|..]
    ensures r == [] || !p(r[0])
  {
    if s != [] && p(s[0]) then TrimStart(s[1..], p) else s
  }

  /** `s.rstrip(chars)`: drops the longest suffix made of characters satisfying `p`. */
  function TrimEnd(s: string, p: char -> bool): (r: string)
    ensures |r| <= |s| && r == s[..|r|]
    ensures r == [] || !p(r[|r| - 1])
  {
    if s != [] && p(s[|s| - 1]) then TrimEnd(s[..|s| - 1], p) else s
  }

  /** `s.strip(chars)`. */
  function Trim(s: string, p: char -> bool): string {
    TrimEnd(TrimStart(s, p), p)
  }

  predicate AllChars(s: string, p: char -> bool) {
    forall i :: 0 <= i < |s| ==> p(s[i])
  }

  lemma {:induction false} TrimStartPrefix(pre: string, s: string, p: char -> bool)
    requires AllChars(pre, p)
    ensures TrimStart(pre + s, p) == TrimStart(s, p)
  {
    if pre != [] {
      assert (pre + s)[1..] == pre[1..] + s;
      TrimStartPrefix(pre[1..], s, p);
    } else {
      assert pre + s == s;
    }
  }

  lemma {:induction false} TrimEndSuffix(s: string, post: string, p: char -> bool)
    requires AllChars(post, p)
    ensures TrimEnd(s + post, p) == TrimEnd(s, p)
  {
    if post != [] {
      var shorter := post[..|post| - 1];
      assert (s + post)[..|s + post| - 1] == s + shorter;
      TrimEndSuffix(s, shorter, p);
    } else {
      assert s + post == s;
    }
  }

  /** Stripping never looks past a character outside the stripped class. */
  lemma TrimEndAppend(s: string, c: char, p: char -> bool)
    requires !p(c)
    ensures TrimEnd(s + [c], p) == s + [c]
  {
  }

  lemma {:induction false} TrimStartAppend(s: string, t: string, p: char -> bool)
    requires t != [] && !p(t[0])
    ensures TrimStart(s + t, p) == TrimStart(s, p) + t
  {
    if s == [] {
      assert s + t == t;
    } else if p(s[0]) {
      assert (s + t)[1..] == s[1..] + t;
      TrimStartAppend(s[1..], t, p);
    }
  }

  /** Whitespace around `s` does not change `s.strip()`. */
  lemma TrimSurrounding(pre: string, s: string, post: string, p: char -> bool)
    requires AllChars(pre, p) && AllChars(post, p)
    ensures Trim(pre + s + post, p) == Trim(s, p)
  {
    assert pre + s + post == pre + (s + post);
    TrimStartPrefix(pre, s + post, p);
    if TrimStart(s, p) == [] {
      TrimStartEmpty(s, p);
      assert AllChars(s + post, p) by {
        forall i | 0 <= i < |s + post| ensures p((s + post)[i]) {
          if i >= |s| { assert (s + post)[i] == post[i - |s|]; }
        }
      }
      TrimStartAll(s + post, p);
    } else {
      TrimStartAppendGeneral(s, post, p);
      TrimEndSuffix(TrimStart(s, p), post, p);
    }
  }

  lemma {:induction false} TrimStartEmpty(s: string, p: char -> bool)
    requires TrimStart(s, p) == []
    ensures AllChars(s, p)
  {
    if s != [] {
      TrimStartEmpty(s[1..], p);
      assert forall i :: 1 <= i < |s| ==> s[i] == s[1..][i - 1];
    }
  }

  lemma TrimStartAll(s: string, p: char -> bool)
    requires AllChars(s, p)
    ensures TrimStart(s, p) == []
  {
  }

  lemma {:induction false} TrimStartAppendGeneral(s: string, post: string, p: char -> bool)
    requires TrimStart(s, p) != []
    ensures TrimStart(s + post, p) == TrimStart(s, p) + post
  {
    if p(s[0]) {
      assert (s + post)[1..] == s[1..] + post;
      TrimStartAppendGeneral(s[1..], post, p);
    }
  }

  /** `s.split("/")[-1]`: what follows the last slash, or `s` itself. */
  function LastSegment(s: string): (r: string)
    ensures '/' !in r
    ensures |r| <= |s| && r == s[|s| - |r|..]
    ensures |r| < |s| ==> s[|s| - |r| - 1] == '/'
  {
    if s == [] then []
    else if s[|s| - 1] == '/' then []
    else LastSegment(s[..|s| - 1]) + [s[|s| - 1]]
  }

  lemma {:induction false} LastSegmentAfterSlash(pre: string, name: string)
    requires '/' !in name
    ensures LastSegment(pre + "/" + name) == name
  {
    if name == [] {
      assert (pre + "/" + name) == pre + "/";
    } else {
      var init := name[..|name| - 1];
      assert '/' !in init by {
        forall i | 0 <= i < |init| ensures init[i] != '/' { assert init[i] == name[i]; }
      }
      assert (pre + "/" + name)[..|pre + "/" + name| - 1] == pre + "/" + init;
      LastSegmentAfterSlash(pre, init);
      assert init + [name[|name| - 1]] == name;
    }
  }

  predicate StartsWith(s: string, prefix: string) {
    |prefix| <= |s| && s[..|prefix|] == prefix
  }

  predicate EndsWith(s: string, suffix: string) {
    |suffix| <= |s| && s[|s| - |suffix|..] == suffix
  }

  /** ASCII lower-casing of one character. */
  function LowerChar(c: char): char {
    if 'A' <= c <= 'Z' then (c as int + 32) as char else c
  }

  /** `s.lower()`, restricted to ASCII letters. */
  function Lower(s: string): (r: string)
    ensures |r| == |s|
    ensures forall i :: 0 <= i < |s| ==> r[i] == LowerChar(s[i])
  {
    seq(|s|, i requires 0 <= i < |s| => LowerChar(s[i]))
  }

  /** Replaces every occurrence of `a` by `b` (`str.replace` for one character). */
  function ReplaceChar(s: string, a: char, b: char): (r: string)
    ensures |r| == |s|
    ensures forall i :: 0 <= i < |s| ==> r[i] == if s[i] == a then b else s[i]
  {
    seq(|s|, i requires 0 <= i < |s| => if s[i] == a then b else s[i])
  }

  /** Python's `a < b` on strings: lexicographic by code point. */
  predicate Less(a: string, b: string) {
    if a == [] then b != []
    else if b == [] then false
    else a[0] < b[0] || (a[0] == b[0] && Less(a[1..], b[1..]))
  }

  /** Python's `a <= b` on strings. */
  predicate LessEq(a: string, b: string) {
    a == b || Less(a, b)
  }

  lemma {:induction false} LessIrreflexive(a: string)
    ensures !Less(a, a)
  {
    if a != [] { LessIrreflexive(a[1..]); }
  }

  lemma {:induction false} LessTransitive(a: string, b: string, c: string)
    requires Less(a, b) && Less(b, c)
    ensures Less(a, c)
  {
    if a != [] && b != [] && c != [] && a[0] == b[0] && b[0] == c[0] {
      LessTransitive(a[1..], b[1..], c[1..]);
    }
  }

  lemma {:induction false} LessTotal(a: string, b: string)
    ensures a == b || Less(a, b) || Less(b, a)
  {
    if a != [] && b != [] && a[0] == b[0] {
      LessTotal(a[1..], b[1..]);
      if a[1..] == b[1..] {
        assert a == [a[0]] + a[1..] && b == [b[0]] + b[1..];
      }
    }
  }

  lemma LessAsymmetric(a: string, b: string)
    requires Less(a, b)
    ensures !Less(b, a)
  {
    if Less(b, a) {
      LessTransitive(a, b, a);
      LessIrreflexive(a);
    }
  }

  lemma LessEqTransitive(a: string, b: string, c: string)
    requires LessEq(a, b) && LessEq(b, c)
    ensures LessEq(a, c)
  {
    if a != b && b != c { LessTransitive(a, b, c); }
  }

  /** Strings that share a prefix compare as their remainders do. */
  lemma {:induction false} LessCommonPrefix(pre: string, a: string, b: string)
    ensures Less(pre + a, pre + b) == Less(a, b)
  {
    if pre != [] {
      assert (pre + a)[1..] == pre[1..] + a;
      assert (pre + b)[1..] == pre[1..] + b;
      LessCommonPrefix(pre[1..], a, b);
    } else {
      assert pre + a == a && pre + b == b;
    }
  }

  lemma AppendAssoc<T>(a: seq<T>, b: seq<T>, c: seq<T>)
    ensures a + (b + c) == a + b + c
  {
  }

  /** `"/".join(parts)`. */
  function JoinSlash(parts: seq<string>): string {
    if parts == [] then ""
    else if |parts| == 1 then parts[0]
    else parts[0] + "/" + JoinSlash(parts[1..])
  }
}
