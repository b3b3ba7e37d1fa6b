/** The few operations on Rust `str` and `HashMap` the modelled code relies on:
    `split_whitespace`, `replace`, the first part of `split('=')`, and
    `HashMap::extend`. Strings are sequences of characters. */
module Text {

  /** Rust's `char::is_whitespace`: the Unicode White_Space property. */
  predicate IsWhitespace(c: char) {
    var n := c as int;
    || (9 <= n <= 13) || n == 32 || n == 0x85 || n == 0xA0 || n == 0x1680
    || (0x2000 <= n <= 0x200A) || n == 0x2028 || n == 0x2029
    || n == 0x202F || n == 0x205F || n == 0x3000
  }

  /** Every character is white space (true of the empty string). */
  predicate IsBlank(s: string) {
    forall i :: 0 <= i < |s| ==> IsWhitespace(s[i])
  }

  /** A token `split_whitespace` can yield: non-empty, no white space. */
  predicate IsWord(s: string) {
    s != [] && forall i :: 0 <= i < |s| ==> !IsWhitespace(s[i])
  }

  /** Length of the leading run of non-white-space characters. */
  function WordLength(s: string): (n: nat)
    ensures n <= |s|
    ensures forall i :: 0 <= i < n ==> !IsWhitespace(s[i])
    ensures n < |s| ==> IsWhitespace(s[n])
  {
    if s == [] || IsWhitespace(s[0]) then 0 else 1 + WordLength(s[1..])
  }

  /** Rust's `str::split_whitespace`: the maximal non-white-space runs, in order. */
  function SplitWhitespace(s: string): (words: seq<string>)
    decreases |s|
  {
    if s == [] then []
    else if IsWhitespace(s[0]) then SplitWhitespace(s[1..])
    else
      var n := WordLength(s);
      [s[..n]] + SplitWhitespace(s[n..])
  }

  /** Every piece `SplitWhitespace` yields is a word, and it yields none
      exactly when the string is blank. */
  lemma {:induction false} SplitWhitespaceWords(s: string)
    ensures forall i :: 0 <= i < |SplitWhitespace(s)| ==> IsWord(SplitWhitespace(s)[i])
    ensures SplitWhitespace(s) == [] <==> IsBlank(s)
    decreases |s|
  {
    if s == [] {
    } else if IsWhitespace(s[0]) {
      SplitWhitespaceWords(s[1..]);
      assert IsBlank(s) <==> IsBlank(s[1..]) by {
        if IsBlank(s[1..]) {
          forall i | 0 <= i < |s| ensures IsWhitespace(s[i]) {
            if i > 0 { assert s[i] == s[1..][i - 1]; }
          }
        }
      }
    } else {
      var n := WordLength(s);
      SplitWhitespaceWords(s[n..]);
      var rest := SplitWhitespace(s[n..]);
      assert forall i :: 1 <= i < |[s[..n]] + rest| ==> ([s[..n]] + rest)[i] == rest[i - 1];
    }
  }

  /** Words separated by single spaces: the inverse of `SplitWhitespace`. */
  function JoinWords(words: seq<string>): string {
    if words == [] then []
    else if |words| == 1 then words[0]
    else words[0] + " " + JoinWords(words[1..])
  }

  lemma {:induction false} WordLengthOfWord(w: string, t: string)
    requires IsWord(w)
    requires t == [] || IsWhitespace(t[0])
    ensures WordLength(w + t) == |w|
    decreases |w|
  {
    if |w| == 1 {
      assert (w + t)[1..] == t;
    } else {
      assert (w + t)[1..] == w[1..] + t;
      WordLengthOfWord(w[1..], t);
    }
  }

  /** A word followed by white space (or nothing) is split off first. */
  lemma SplitWordThen(w: string, t: string)
    requires IsWord(w)
    requires t == [] || IsWhitespace(t[0])
    ensures SplitWhitespace(w + t) == [w] + SplitWhitespace(t)
  {
    var s := w + t;
    WordLengthOfWord(w, t);
    assert s[0] == w[0];
    assert s[..|w|] == w;
    assert s[|w|..] == t;
  }

  /** Splitting words joined by single spaces gives the words back. */
  lemma {:induction false} SplitJoin(words: seq<string>)
    requires forall i :: 0 <= i < |words| ==> IsWord(words[i])
    ensures SplitWhitespace(JoinWords(words)) == words
    decreases |words|
  {
    if words == [] {
    } else if |words| == 1 {
      SplitWordThen(words[0], []);
      assert words[0] + [] == words[0];
    } else {
      var w := words[0];
      var rest := JoinWords(words[1..]);
      assert JoinWords(words) == w + (" " + rest);
      SplitWordThen(w, " " + rest);
      assert SplitWhitespace(" " + rest) == SplitWhitespace(rest) by {
        assert (" " + rest)[1..] == rest;
      }
      SplitJoin(words[1..]);
      assert words == [w] + words[1..];
    }
  }

  /** A single word splits into itself. */
  lemma SplitWord(w: string)
    requires IsWord(w)
    ensures SplitWhitespace(w) == [w]
  {
    SplitJoin([w]);
  }

  /** `p` is a prefix of `s`. */
  predicate StartsWith(s: string, p: string) {
    |p| <= |s| && s[..|p|] == p
  }

  /** `p` occurs somewhere in `s`. */
  predicate Contains(s: string, p: string)
    decreases |s|
  {
    StartsWith(s, p) || (s != [] && Contains(s[1..], p))
  }

  /** An occurrence of a longer pattern is an occurrence of each of its prefixes. */
  lemma {:induction false} ContainsPrefixOf(s: string, p: string, q: string)
    requires StartsWith(p, q)
    requires Contains(s, p)
    ensures Contains(s, q)
    decreases |s|
  {
    if StartsWith(s, p) {
      assert s[..|q|] == p[..|q|];
    } else {
      ContainsPrefixOf(s[1..], p, q);
    }
  }

  /** Rust's `str::replace` for a non-empty pattern: scanning left to right,
      every non-overlapping occurrence of `pat` becomes `v`. */
  function ReplaceAll(s: string, pat: string, v: string): (r: string)
    requires pat != []
    ensures !Contains(s, pat) ==> r == s
    decreases |s|
  {
    if s == [] then []
    else if StartsWith(s, pat) then v + ReplaceAll(s[|pat|..], pat, v)
    else [s[0]] + ReplaceAll(s[1..], pat, v)
  }

  /** A prefix in which no occurrence of the pattern starts is copied unchanged. */
  lemma {:induction false} ReplaceAllSkipsPrefix(a: string, b: string, pat: string, v: string)
    requires pat != []
    requires forall i :: 0 <= i < |a| ==> !StartsWith((a + b)[i..], pat)
    ensures ReplaceAll(a + b, pat, v) == a + ReplaceAll(b, pat, v)
    decreases |a|
  {
    if a != [] {
      var s := a + b;
      assert s[0..] == s;
      assert s[1..] == a[1..] + b;
      forall i | 0 <= i < |a[1..]|
        ensures !StartsWith((a[1..] + b)[i..], pat)
      {
        assert (a[1..] + b)[i..] == s[i + 1..];
      }
      ReplaceAllSkipsPrefix(a[1..], b, pat, v);
      assert a == [a[0]] + a[1..];
    } else {
      assert a + b == b;
    }
  }

  /** An occurrence at the front is replaced and scanning resumes after it. */
  lemma ReplaceAllAtMatch(b: string, pat: string, v: string)
    requires pat != []
    ensures ReplaceAll(pat + b, pat, v) == v + ReplaceAll(b, pat, v)
  {
    assert (pat + b)[..|pat|] == pat;
    assert (pat + b)[|pat|..] == b;
  }

  /** Replacing a pattern by itself changes nothing. */
  lemma {:induction false} ReplaceAllSelf(s: string, pat: string)
    requires pat != []
    ensures ReplaceAll(s, pat, pat) == s
    decreases |s|
  {
    if s == [] {
    } else if StartsWith(s, pat) {
      ReplaceAllSelf(s[|pat|..], pat);
      assert s == s[..|pat|] + s[|pat|..];
    } else {
      ReplaceAllSelf(s[1..], pat);
      assert s == [s[0]] + s[1..];
    }
  }

  /** The part of `s` before the first `c` (all of `s` when there is none):
      the first item of Rust's `s.split(c)`. */
  function Before(s: string, c: char): (r: string)
    ensures StartsWith(s, r)
    ensures c !in r
    ensures c in s ==> |r| < |s| && s[|r|] == c
  {
    if s == [] || s[0] == c then [] else [s[0]] + Before(s[1..], c)
  }

  /** No element occurs twice. */
  predicate NoDuplicates<T(==)>(xs: seq<T>) {
    forall i, j :: 0 <= i < j < |xs| ==> xs[i] != xs[j]
  }

  /** `r` is `top` laid over `base`: what `base.extend(top)` leaves in a HashMap.
      Keys of `top` take `top`'s value; other keys of `base` keep theirs. */
  ghost predicate Overlays<V>(r: map<string, V>, base: map<string, V>, top: map<string, V>) {
    && r.Keys == base.Keys + top.Keys
    && (forall k :: k in top ==> r[k] == top[k])
    && (forall k :: k in base && k !in top ==> r[k] == base[k])
  }

  /** Overlaying determines the result. */
  lemma OverlaysUnique<V>(r: map<string, V>, base: map<string, V>, top: map<string, V>)
    requires Overlays(r, base, top)
    ensures r == base + top
  {
  }
}
