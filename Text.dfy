/**
 Shared vocabulary for the string passes of the Reddit summarizer: prefixes,
 suffixes, substring containment (Python's `in`) and the whitespace predicate
 that Python 3 uses both for the regular-expression class `\S` and for
 `str.split()` with no argument.
 */
module Text {

  /** `s.startswith(p)` */
  predicate StartsWith(s: seq<char>, p: seq<char>) {
    |p| <= |s| && s[..|p|] == p
  }

  /** `s.endswith(p)` */
  predicate EndsWith(s: seq<char>, p: seq<char>) {
    |p| <= |s| && s[|s| - |p|..] == p
  }

  /** `pat in s`: some suffix of `s` starts with `pat`. */
  predicate Contains(s: seq<char>, pat: seq<char>) {
    exists k | 0 <= k <= |s| :: StartsWith(s[k..], pat)
  }

  /**
   Exactly the characters for which Python's `str.isspace()` holds; `re`
   (for `\s`/`\S` on `str` patterns) and `str.split()` use the same table.
   */
  predicate IsWs(c: char) {
    || ('\U{9}' <= c <= '\U{D}')
    || ('\U{1C}' <= c <= '\U{20}')
    || c == '\U{85}' || c == '\U{A0}' || c == '\U{1680}'
    || ('\U{2000}' <= c <= '\U{200A}')
    || c == '\U{2028}' || c == '\U{2029}' || c == '\U{202F}' || c == '\U{205F}' || c == '\U{3000}'
  }

  /** No character of `s` is whitespace. */
  predicate NoWs(s: seq<char>) {
    forall i | 0 <= i < |s| :: !IsWs(s[i])
  }

  /** A prefix is preserved by extending the string on the right. */
  lemma StartsWithAppend(s: seq<char>, t: seq<char>, p: seq<char>)
    requires StartsWith(s, p)
    ensures StartsWith(s + t, p)
  {
    assert (s + t)[..|p|] == s[..|p|];
  }

  /** `[c] + s` starts with `p` exactly when `p` starts with `c` and the rest of `p` prefixes `s`. */
  lemma StartsWithCons(c: char, s: seq<char>, p: seq<char>)
    requires |p| > 0
    ensures StartsWith([c] + s, p) <==> p[0] == c && StartsWith(s, p[1..])
  {
    if StartsWith([c] + s, p) {
      assert p[1..] == ([c] + s)[1..|p|];
      assert ([c] + s)[1..|p|] == s[..|p| - 1];
    }
    if p[0] == c && StartsWith(s, p[1..]) {
      assert ([c] + s)[..|p|] == [c] + s[..|p| - 1];
      assert p == [p[0]] + p[1..];
    }
  }

  /** An occurrence in `s` is still an occurrence after appending `t`. */
  lemma ContainsAppendRight(s: seq<char>, t: seq<char>, pat: seq<char>)
    requires Contains(s, pat)
    ensures Contains(s + t, pat)
  {
    var k :| 0 <= k <= |s| && StartsWith(s[k..], pat);
    assert (s + t)[k..] == s[k..] + t;
    StartsWithAppend(s[k..], t, pat);
  }

  /** An occurrence in `s` is still an occurrence after prepending `t`. */
  lemma ContainsPrependLeft(t: seq<char>, s: seq<char>, pat: seq<char>)
    requires Contains(s, pat)
    ensures Contains(t + s, pat)
  {
    var k :| 0 <= k <= |s| && StartsWith(s[k..], pat);
    assert (t + s)[|t| + k..] == s[k..];
  }

  /**
   `a` is a subsequence of `b`: `a` is what is left of `b` after deleting
   some of its characters, the rest kept in order.
   */
  predicate IsSubseq(a: seq<char>, b: seq<char>)
    decreases |b|
  {
    if a == [] then true
    else if b == [] then false
    else (a[0] == b[0] && IsSubseq(a[1..], b[1..])) || IsSubseq(a, b[1..])
  }

  /** A subsequence is never longer than the sequence it is taken from. */
  lemma {:induction false} SubseqLength(a: seq<char>, b: seq<char>)
    requires IsSubseq(a, b)
    ensures |a| <= |b|
    decreases |b|
  {
    if a != [] {
      if a[0] == b[0] && IsSubseq(a[1..], b[1..]) {
        SubseqLength(a[1..], b[1..]);
      } else {
        SubseqLength(a, b[1..]);
      }
    }
  }

  /** Every character of a subsequence occurs in the sequence. */
  lemma {:induction false} SubseqChars(a: seq<char>, b: seq<char>)
    requires IsSubseq(a, b)
    ensures forall c :: c in a ==> c in b
    decreases |b|
  {
    if a != [] {
      assert b == [b[0]] + b[1..];
      if a[0] == b[0] && IsSubseq(a[1..], b[1..]) {
        SubseqChars(a[1..], b[1..]);
        assert a == [a[0]] + a[1..];
      } else {
        SubseqChars(a, b[1..]);
      }
    }
  }

  /** Keeping the same head character on both sides keeps a subsequence. */
  lemma SubseqCons(c: char, a: seq<char>, b: seq<char>)
    requires IsSubseq(a, b)
    ensures IsSubseq([c] + a, [c] + b)
  {
    assert ([c] + a)[1..] == a && ([c] + b)[1..] == b;
  }

  /** A subsequence of a suffix is a subsequence of the whole. */
  lemma {:induction false} SubseqOfSuffix(a: seq<char>, b: seq<char>, j: int)
    requires 0 <= j <= |b| && IsSubseq(a, b[j..])
    ensures IsSubseq(a, b)
    decreases j
  {
    if j > 0 && a != [] {
      assert b[j..] == b[1..][j - 1..];
      SubseqOfSuffix(a, b[1..], j - 1);
    }
  }

  /** Duplicating a character is not deleting: `aa` is not a subsequence of `a`. */
  lemma NotSubseqDuplicate(c: char)
    ensures !IsSubseq([c, c], [c])
  {
    assert [c][1..] == [];
    assert !IsSubseq([c, c][1..], []);
    assert !IsSubseq([c, c], []);
  }
}
