/**
 `RedditSummarizer.clean_text`: three passes over the post body.

 1. `re.sub(r'http\S+', '', text)` deletes every `http` that is followed by
    at least one non-whitespace character, together with the whole run of
    non-whitespace after it (the `+` is greedy).
 2. `re.sub(r'<D>.*?<D>|<D>.*?<D>', '', text)`, where `<D>` is the
    private-use character U+E001 written literally in the pattern, deletes
    each span from a `<D>` to the nearest following `<D>` on the same line
    (`.` does not match a line feed). The two alternatives are the same.
 3. `' '.join(text.split())` splits on runs of whitespace and joins the
    words with single spaces.
 */
module TextCleaner {
  import opened Text

  /** The markup delimiter of pass 2, U+E001. */
  const Delim: char := '\U{E001}'
  const Scheme: seq<char> := "http"

  // ---------------------------------------------------------------------
  // Pass 1: links

  /** Length of the longest prefix of `s` without whitespace (what `\S+` or a word takes). */
  function NonWsRun(s: seq<char>): (n: nat)
    ensures n <= |s| && NoWs(s[..n])
    ensures n < |s| ==> IsWs(s[n])
  {
    if s == [] || IsWs(s[0]) then 0 else 1 + NonWsRun(s[1..])
  }

  /** `http\S+` matches at the start of `s`: the four letters of `Scheme`, then a non-whitespace character. */
  predicate UrlAt(s: seq<char>) {
    |s| > |Scheme| && s[0] == 'h' && s[1] == 't' && s[2] == 't' && s[3] == 'p' && !IsWs(s[|Scheme|])
  }

  /** No position of `s` starts a match of `http\S+`. */
  predicate NoUrl(s: seq<char>) {
    forall k | 0 <= k < |s| :: !UrlAt(s[k..])
  }

  /** Line 40 of app.py: `re.sub(r'http\S+', '', text)`. */
  function StripUrls(s: seq<char>): (r: seq<char>)
    ensures |r| <= |s|
    decreases |s|
  {
    if s == [] then []
    else if UrlAt(s) then StripUrls(s[|Scheme| + NonWsRun(s[|Scheme|..])..])
    else [s[0]] + StripUrls(s[1..])
  }

  /** A match deletes everything up to the next whitespace, so what follows starts with whitespace, if anything. */
  lemma StripUrlsAfterMatch(s: seq<char>)
    requires UrlAt(s)
    ensures var t := s[|Scheme| + NonWsRun(s[|Scheme|..])..];
            StripUrls(s) == StripUrls(t) && (t == [] || IsWs(t[0]))
  {
  }

  /** Text that starts with whitespace keeps that character at its head (no link starts there). */
  lemma StripUrlsKeepsWsHead(t: seq<char>)
    requires t == [] || IsWs(t[0])
    ensures StripUrls(t) == [] || IsWs(StripUrls(t)[0])
  {
    if t != [] && |t| > |Scheme| {
      assert t[..|Scheme|][0] == t[0];
    }
  }

  /** A whitespace-free prefix of the output was copied unchanged from the input. */
  lemma {:induction false} StripUrlsPrefixCopied(t: seq<char>, q: seq<char>)
    requires NoWs(q)
    ensures StartsWith(StripUrls(t), q) ==> StartsWith(t, q)
    decreases |t|
  {
    if q != [] && t != [] {
      if UrlAt(t) {
        var rest := t[|Scheme| + NonWsRun(t[|Scheme|..])..];
        StripUrlsAfterMatch(t);
        StripUrlsKeepsWsHead(rest);
      } else {
        var tail := StripUrls(t[1..]);
        StartsWithCons(t[0], tail, q);
        StripUrlsPrefixCopied(t[1..], q[1..]);
        StartsWithCons(t[0], t[1..], q);
        assert [t[0]] + t[1..] == t;
      }
    }
  }

  /** Pass 1 only deletes: its output is a subsequence of its input. */
  lemma {:induction false} StripUrlsDeletesOnly(s: seq<char>)
    ensures IsSubseq(StripUrls(s), s)
    decreases |s|
  {
    if s != [] {
      if UrlAt(s) {
        var j := |Scheme| + NonWsRun(s[|Scheme|..]);
        StripUrlsDeletesOnly(s[j..]);
        SubseqOfSuffix(StripUrls(s), s, j);
      } else {
        StripUrlsDeletesOnly(s[1..]);
        SubseqCons(s[0], StripUrls(s[1..]), s[1..]);
        assert s == [s[0]] + s[1..];
      }
    }
  }

  /** Every character of the output of pass 1 occurs in its input. */
  lemma StripUrlsChars(s: seq<char>)
    ensures forall c :: c in StripUrls(s) ==> c in s
  {
    StripUrlsDeletesOnly(s);
    SubseqChars(StripUrls(s), s);
  }

  /** A link at the head of the output, when the input's head was kept, was already in the input. */
  lemma StripUrlsHeadCopied(s: seq<char>)
    requires s != []
    ensures UrlAt([s[0]] + StripUrls(s[1..])) ==> UrlAt(s)
  {
    var tail := StripUrls(s[1..]);
    var out := [s[0]] + tail;
    if UrlAt(out) {
      var q := out[1..|Scheme| + 1];
      forall i | 0 <= i < |q| ensures !IsWs(q[i]) {
        UrlAtNoWs(out, i + 1);
      }
      assert out[1..] == tail;
      assert StartsWith(tail, q) by { assert tail[..|q|] == q; }
      StripUrlsPrefixCopied(s[1..], q);
      assert s[1..][..|q|] == q;
      assert s[..|Scheme| + 1] == out[..|Scheme| + 1] by {
        assert s == [s[0]] + s[1..];
        assert out[..|Scheme| + 1] == [s[0]] + q;
        assert s[..|Scheme| + 1] == [s[0]] + s[1..][..|q|];
      }
      assert s[..|Scheme|] == out[..|Scheme|];
      assert s[|Scheme|] == out[|Scheme|];
    }
  }

  /** No text left by pass 1 contains a link: deletion never glues a new `http\S` together. */
  lemma {:induction false} StripUrlsNoUrl(s: seq<char>)
    ensures NoUrl(StripUrls(s))
    decreases |s|
  {
    if s == [] {
    } else if UrlAt(s) {
      StripUrlsNoUrl(s[|Scheme| + NonWsRun(s[|Scheme|..])..]);
    } else {
      var tail := StripUrls(s[1..]);
      StripUrlsNoUrl(s[1..]);
      var out := [s[0]] + tail;
      forall k | 0 <= k < |out| ensures !UrlAt(out[k..]) {
        if k == 0 {
          assert out[0..] == out;
          StripUrlsHeadCopied(s);
        } else {
          assert out[k..] == tail[k - 1..];
        }
      }
    }
  }

  /** A non-empty text none of whose characters is whitespace is a word. */
  lemma WordOfChars(w: seq<char>)
    requires w != [] && forall c | c in w :: !IsWs(c)
    ensures IsWord(w)
  {
    assert forall i | 0 <= i < |w| :: w[i] in w;
  }

  /** A text all of whose characters are whitespace is blank. */
  lemma BlankOfChars(g: seq<char>)
    requires forall c | c in g :: IsWs(c)
    ensures forall i | 0 <= i < |g| :: IsWs(g[i])
  {
    assert forall i | 0 <= i < |g| :: g[i] in g;
  }

  /** A head character that starts no link is kept. */
  lemma StripUrlsKeepHead(c: char, b: seq<char>)
    requires !UrlAt([c] + b)
    ensures StripUrls([c] + b) == [c] + StripUrls(b)
  {
    assert ([c] + b)[1..] == b;
  }

  /** A head character other than `h` starts no link and is kept. */
  lemma StripUrlsKeepOther(c: char, b: seq<char>)
    requires c != 'h'
    ensures StripUrls([c] + b) == [c] + StripUrls(b)
  {
    if |[c] + b| > |Scheme| {
      NotUrlAtByChar([c] + b, 0);
    }
    StripUrlsKeepHead(c, b);
  }

  /** Reassembles a sequence as its head followed by the rest. */
  lemma ConsJoin(a: seq<char>, x: seq<char>, y: seq<char>, r: seq<char>)
    requires a != [] && x == [a[0]] + y && y == a[1..] + r
    ensures x == a + r
  {
    assert a == [a[0]] + a[1..];
  }

  /** One step of `StripUrlsKeepNoH`: the head of text without `h` is kept. */
  lemma StripUrlsKeepNoHStep(a: seq<char>, b: seq<char>)
    requires a != [] && 'h' !in a
    ensures 'h' !in a[1..] && StripUrls(a + b) == [a[0]] + StripUrls(a[1..] + b)
  {
    assert a[0] in a;
    assert a + b == [a[0]] + (a[1..] + b);
    StripUrlsKeepOther(a[0], a[1..] + b);
  }

  /** Text without an `h` starts no link, so it is kept as it is. */
  lemma {:induction false} StripUrlsKeepNoH(a: seq<char>, b: seq<char>)
    requires 'h' !in a
    ensures StripUrls(a + b) == a + StripUrls(b)
    decreases |a|
  {
    if a == [] {
      assert a + b == b;
    } else {
      StripUrlsKeepNoHStep(a, b);
      StripUrlsKeepNoH(a[1..], b);
      ConsJoin(a, StripUrls(a + b), StripUrls(a[1..] + b), StripUrls(b));
    }
  }

  /** `http` followed by a non-whitespace character starts a link. */
  lemma UrlAtScheme(w: seq<char>, b: seq<char>)
    requires |w| > 0 && !IsWs(w[0])
    ensures UrlAt(Scheme + (w + b))
  {
    var s := Scheme + (w + b);
    assert s[0] == 'h' && s[1] == 't' && s[2] == 't' && s[3] == 'p' && s[4] == w[0];
  }

  /** The link `http` + `w` ends where `b` begins. */
  lemma SchemeRunEnd(w: seq<char>, b: seq<char>)
    requires NoWs(w) && (b == [] || IsWs(b[0]))
    ensures var s := Scheme + (w + b);
            s[|Scheme| + NonWsRun(s[|Scheme|..])..] == b
  {
    var s := Scheme + (w + b);
    assert s[|Scheme|..] == w + b;
    NonWsRunOfWord(w, b);
    assert s[|Scheme| + |w|..] == b;
  }

  /** `http`, a run without whitespace, then whitespace or the end: the link goes. */
  lemma StripUrlsDropLink(w: seq<char>, b: seq<char>)
    requires |w| > 0 && NoWs(w) && (b == [] || IsWs(b[0]))
    ensures StripUrls(Scheme + w + b) == StripUrls(b)
  {
    assert Scheme + w + b == Scheme + (w + b);
    UrlAtScheme(w, b);
    StripUrlsAfterMatch(Scheme + (w + b));
    SchemeRunEnd(w, b);
  }

  /** Between text without `h`, pass 1 deletes exactly the one link. */
  lemma StripUrlsDropsOneLink(a: seq<char>, w: seq<char>, c: seq<char>)
    requires 'h' !in a && 'h' !in c
    requires |w| > 0 && NoWs(w) && (c == [] || IsWs(c[0]))
    ensures StripUrls(a + (Scheme + w + c)) == a + c
  {
    StripUrlsKeepNoH(a, Scheme + w + c);
    StripUrlsDropLink(w, c);
    StripUrlsKeepNoH(c, []);
    assert c + [] == c;
  }

  /** A character that differs from `http` at the head rules out a link there. */
  lemma NotUrlAtByChar(s: seq<char>, i: nat)
    requires i < |Scheme| < |s| && s[i] != Scheme[i]
    ensures !UrlAt(s)
  {
    assert s[..|Scheme|][i] == s[i];
  }

  /** Text without links passes through pass 1 unchanged. */
  lemma {:induction false} StripUrlsKeepsClean(s: seq<char>)
    requires NoUrl(s)
    ensures StripUrls(s) == s
    decreases |s|
  {
    if s != [] {
      assert s[0..] == s;
      assert NoUrl(s[1..]) by {
        forall k | 0 <= k < |s[1..]| ensures !UrlAt(s[1..][k..]) {
          assert s[1..][k..] == s[k + 1..];
        }
      }
      StripUrlsKeepsClean(s[1..]);
      assert s == [s[0]] + s[1..];
    }
  }

  /** Pass 1 is idempotent. */
  lemma StripUrlsIdempotent(s: seq<char>)
    ensures StripUrls(StripUrls(s)) == StripUrls(s)
  {
    StripUrlsNoUrl(s);
    StripUrlsKeepsClean(StripUrls(s));
  }

  // ---------------------------------------------------------------------
  // Pass 2: U+E001 ... U+E001 markup spans

  /** `.*?<D>` matches at the start of `s`: a delimiter comes before any line feed. */
  predicate HasClose(s: seq<char>)
    decreases |s|
  {
    s != [] && s[0] != '\n' && (s[0] == Delim || HasClose(s[1..]))
  }

  /** Where the lazy `.*?` stops: the first delimiter, with no line feed before it. */
  function CloseIndex(s: seq<char>): (j: nat)
    requires HasClose(s)
    ensures j < |s| && s[j] == Delim
    ensures forall i | 0 <= i < j :: s[i] != Delim && s[i] != '\n'
    decreases |s|
  {
    if s[0] == Delim then 0 else 1 + CloseIndex(s[1..])
  }

  /** Without a match, the line ends (or the text does) before any delimiter. */
  lemma {:induction false} NoCloseMeansLineEnds(s: seq<char>, j: nat)
    requires !HasClose(s) && j < |s| && s[j] == Delim
    ensures exists i :: 0 <= i < j && s[i] == '\n'
    decreases |s|
  {
    if s[0] != '\n' {
      assert j > 0;
      NoCloseMeansLineEnds(s[1..], j - 1);
      var i :| 0 <= i < j - 1 && s[1..][i] == '\n';
      assert s[i + 1] == '\n';
    } else {
      assert j != 0;
    }
  }

  /** Line 42 of app.py: delete every delimited span, scanning left to right. */
  function StripMarkup(s: seq<char>): (r: seq<char>)
    ensures |r| <= |s|
    decreases |s|
  {
    if s == [] then []
    else if s[0] == Delim && HasClose(s[1..]) then StripMarkup(s[CloseIndex(s[1..]) + 2..])
    else [s[0]] + StripMarkup(s[1..])
  }

  /** No delimiter in `s`. */
  predicate NoDelim(s: seq<char>) {
    Delim !in s
  }

  /** No delimiter of `s` opens a span that pass 2 would delete. */
  predicate NoSpan(s: seq<char>) {
    forall i | 0 <= i < |s| :: s[i] == Delim ==> !HasClose(s[i + 1..])
  }

  /** Pass 2 only deletes: its output is a subsequence of its input. */
  lemma {:induction false} StripMarkupDeletesOnly(s: seq<char>)
    ensures IsSubseq(StripMarkup(s), s)
    decreases |s|
  {
    if s != [] {
      if s[0] == Delim && HasClose(s[1..]) {
        var j := CloseIndex(s[1..]) + 2;
        StripMarkupDeletesOnly(s[j..]);
        SubseqOfSuffix(StripMarkup(s), s, j);
      } else {
        StripMarkupDeletesOnly(s[1..]);
        SubseqCons(s[0], StripMarkup(s[1..]), s[1..]);
        assert s == [s[0]] + s[1..];
      }
    }
  }

  /** Every character of the output of pass 2 occurs in its input. */
  lemma StripMarkupChars(s: seq<char>)
    ensures forall c :: c in StripMarkup(s) ==> c in s
  {
    StripMarkupDeletesOnly(s);
    SubseqChars(StripMarkup(s), s);
  }

  /** A delimiter left open stays open: no span is deleted before the line ends. */
  lemma {:induction false} StripMarkupKeepsUnclosed(t: seq<char>)
    requires !HasClose(t)
    ensures !HasClose(StripMarkup(t))
    decreases |t|
  {
    if t != [] && t[0] != '\n' {
      assert t[0] != Delim;
      StripMarkupKeepsUnclosed(t[1..]);
    }
  }

  /** After pass 2 no delimited span is left. */
  lemma {:induction false} StripMarkupNoSpan(s: seq<char>)
    ensures NoSpan(StripMarkup(s))
    decreases |s|
  {
    if s == [] {
    } else if s[0] == Delim && HasClose(s[1..]) {
      StripMarkupNoSpan(s[CloseIndex(s[1..]) + 2..]);
    } else {
      var tail := StripMarkup(s[1..]);
      StripMarkupNoSpan(s[1..]);
      var out := [s[0]] + tail;
      forall i | 0 <= i < |out| && out[i] == Delim ensures !HasClose(out[i + 1..]) {
        if i == 0 {
          assert out[1..] == tail;
          StripMarkupKeepsUnclosed(s[1..]);
        } else {
          assert out[i + 1..] == tail[i..];
          assert tail[i - 1] == out[i];
        }
      }
    }
  }

  /** Text without delimited spans passes through pass 2 unchanged. */
  lemma {:induction false} StripMarkupKeepsClean(s: seq<char>)
    requires NoSpan(s)
    ensures StripMarkup(s) == s
    decreases |s|
  {
    if s != [] {
      assert NoSpan(s[1..]) by {
        forall i | 0 <= i < |s[1..]| && s[1..][i] == Delim ensures !HasClose(s[1..][i + 1..]) {
          assert s[1..][i + 1..] == s[i + 2..];
        }
      }
      StripMarkupKeepsClean(s[1..]);
      assert s == [s[0]] + s[1..];
    }
  }

  /** Text without a delimiter opens no span, so it is kept as it is. */
  lemma {:induction false} StripMarkupKeepNoDelim(a: seq<char>, b: seq<char>)
    requires Delim !in a
    ensures StripMarkup(a + b) == a + StripMarkup(b)
    decreases |a|
  {
    if a == [] {
      assert a + b == b;
    } else {
      var s := a + b;
      assert s[0] == a[0] && s[1..] == a[1..] + b;
      StripMarkupKeepNoDelim(a[1..], b);
      assert a == [a[0]] + a[1..];
    }
  }

  /** Pass 2 is the identity on text without U+E001. */
  lemma StripMarkupWithoutDelim(s: seq<char>)
    requires NoDelim(s)
    ensures StripMarkup(s) == s
  {
    StripMarkupKeepsClean(s);
  }

  /** Pass 2 is idempotent. */
  lemma StripMarkupIdempotent(s: seq<char>)
    ensures StripMarkup(StripMarkup(s)) == StripMarkup(s)
  {
    StripMarkupNoSpan(s);
    StripMarkupKeepsClean(StripMarkup(s));
  }

  // ---------------------------------------------------------------------
  // Pass 3: whitespace

  /** Number of leading whitespace characters of `s`. */
  function LeadingWs(s: seq<char>): (d: nat)
    ensures d <= |s| && (d < |s| ==> !IsWs(s[d]))
    ensures forall i | 0 <= i < d :: IsWs(s[i])
  {
    if s == [] || !IsWs(s[0]) then 0 else 1 + LeadingWs(s[1..])
  }

  /** A word of `str.split()`: non-empty, no whitespace. */
  predicate IsWord(w: seq<char>) {
    |w| > 0 && NoWs(w)
  }

  predicate AllWords(ws: seq<seq<char>>) {
    forall i | 0 <= i < |ws| :: IsWord(ws[i])
  }

  /** Python's `text.split()` with no argument. */
  function Split(s: seq<char>): (ws: seq<seq<char>>)
    ensures AllWords(ws)
    decreases |s|
  {
    var d := LeadingWs(s);
    if d == |s| then []
    else
      var t := s[d..];
      var n := NonWsRun(t);
      [t[..n]] + Split(t[n..])
  }

  /** Python's `' '.join(ws)`. */
  function Join(ws: seq<seq<char>>): (r: seq<char>)
  {
    if ws == [] then [] else if |ws| == 1 then ws[0] else ws[0] + " " + Join(ws[1..])
  }

  /**
   Line 44 of app.py: `' '.join(text.split())`. The result is in collapsed
   shape and keeps the non-whitespace characters of `s`, in order.
   */
  function Collapse(s: seq<char>): (r: seq<char>)
    ensures Collapsed(r)
    ensures NonWsChars(r) == NonWsChars(s)
  {
    JoinCollapsed(Split(s));
    SplitConcat(s);
    JoinNonWs(Split(s));
    Join(Split(s))
  }

  /**
   The shape pass 3 promises: no leading or trailing whitespace, no
   whitespace other than the space, and no two spaces in a row.
   */
  predicate Collapsed(s: seq<char>) {
    && (s != [] ==> !IsWs(s[0]) && !IsWs(s[|s| - 1]))
    && (forall i | 0 <= i < |s| :: IsWs(s[i]) ==> s[i] == ' ')
    && (forall i | 0 <= i < |s| - 1 :: s[i] == ' ' ==> s[i + 1] != ' ')
  }

  /** The non-whitespace characters of `s`, in order. */
  function NonWsChars(s: seq<char>): (r: seq<char>)
    ensures |r| <= |s|
  {
    if s == [] then [] else (if IsWs(s[0]) then [] else [s[0]]) + NonWsChars(s[1..])
  }

  /** The words of `ws` written one after another. */
  function Concat(ws: seq<seq<char>>): (r: seq<char>) {
    if ws == [] then [] else ws[0] + Concat(ws[1..])
  }

  /** A join is as long as its words together plus one space between each two. */
  lemma {:induction false} JoinLength(ws: seq<seq<char>>)
    ensures |Join(ws)| == |Concat(ws)| + (if ws == [] then 0 else |ws| - 1)
    decreases |ws|
  {
    if |ws| > 1 {
      JoinLength(ws[1..]);
    }
  }

  lemma {:induction false} NonWsCharsAppend(a: seq<char>, b: seq<char>)
    ensures NonWsChars(a + b) == NonWsChars(a) + NonWsChars(b)
    decreases |a|
  {
    if a == [] {
      assert a + b == b;
    } else {
      assert (a + b)[0] == a[0];
      assert (a + b)[1..] == a[1..] + b;
      NonWsCharsAppend(a[1..], b);
      var h := if IsWs(a[0]) then [] else [a[0]];
      assert NonWsChars(a + b) == h + NonWsChars(a[1..] + b);
      assert NonWsChars(a) == h + NonWsChars(a[1..]);
    }
  }

  lemma {:induction false} NonWsCharsMember(s: seq<char>, c: char)
    ensures c in NonWsChars(s) <==> c in s && !IsWs(c)
    decreases |s|
  {
    if s != [] {
      NonWsCharsMember(s[1..], c);
      assert s == [s[0]] + s[1..];
    }
  }

  /** Text without whitespace keeps all its characters. */
  lemma {:induction false} NonWsCharsOfWord(w: seq<char>)
    requires NoWs(w)
    ensures NonWsChars(w) == w
    decreases |w|
  {
    if w != [] {
      NonWsCharsOfWord(w[1..]);
      assert w == [w[0]] + w[1..];
    }
  }

  /** Text made only of whitespace keeps none of its characters. */
  lemma {:induction false} NonWsCharsOfBlank(s: seq<char>)
    requires forall i | 0 <= i < |s| :: IsWs(s[i])
    ensures NonWsChars(s) == []
    decreases |s|
  {
    if s != [] {
      NonWsCharsOfBlank(s[1..]);
    }
  }

  /** Leading whitespace carries no non-whitespace character. */
  lemma NonWsCharsSkipLeading(s: seq<char>)
    ensures NonWsChars(s) == NonWsChars(s[LeadingWs(s)..])
  {
    var d := LeadingWs(s);
    assert s == s[..d] + s[d..];
    NonWsCharsAppend(s[..d], s[d..]);
    NonWsCharsOfBlank(s[..d]);
  }

  /** The first whitespace-free run comes first among the non-whitespace characters. */
  lemma NonWsCharsFirstWord(t: seq<char>)
    ensures NonWsChars(t) == t[..NonWsRun(t)] + NonWsChars(t[NonWsRun(t)..])
  {
    var n := NonWsRun(t);
    assert t == t[..n] + t[n..];
    NonWsCharsAppend(t[..n], t[n..]);
    NonWsCharsOfWord(t[..n]);
  }

  /** The words of `s` are its non-whitespace characters, cut into pieces. */
  lemma {:induction false} SplitConcat(s: seq<char>)
    ensures Concat(Split(s)) == NonWsChars(s)
    decreases |s|
  {
    var d := LeadingWs(s);
    var t := s[d..];
    NonWsCharsSkipLeading(s);
    if d < |s| {
      var n := NonWsRun(t);
      NonWsCharsFirstWord(t);
      SplitConcat(t[n..]);
      var ws := [t[..n]] + Split(t[n..]);
      assert Split(s) == ws;
      assert ws[0] == t[..n] && ws[1..] == Split(t[n..]);
    }
  }

  /** A leading whitespace character contributes nothing. */
  lemma NonWsCharsSkipWs(c: char, j: seq<char>)
    requires IsWs(c)
    ensures NonWsChars([c] + j) == NonWsChars(j)
  {
    var g := [c] + j;
    assert g[1..] == j;
    assert NonWsChars(g) == [] + NonWsChars(j);
  }

  /** The space a join inserts after a word carries no character of its own. */
  lemma NonWsCharsJoinStep(w: seq<char>, j: seq<char>)
    requires NoWs(w)
    ensures NonWsChars(w + " " + j) == w + NonWsChars(j)
  {
    var g := [' '] + j;
    assert w + " " + j == w + g;
    NonWsCharsAppend(w, g);
    NonWsCharsOfWord(w);
    NonWsCharsSkipWs(' ', j);
  }

  /** Joining words with spaces keeps exactly their characters. */
  lemma {:induction false} JoinNonWs(ws: seq<seq<char>>)
    requires AllWords(ws)
    ensures NonWsChars(Join(ws)) == Concat(ws)
    decreases |ws|
  {
    if ws != [] {
      var w := ws[0];
      assert IsWord(w);
      if |ws| == 1 {
        NonWsCharsOfWord(w);
        assert Concat(ws) == w + Concat([]);
      } else {
        JoinNonWs(ws[1..]);
        NonWsCharsJoinStep(w, Join(ws[1..]));
        assert Concat(ws) == w + Concat(ws[1..]);
      }
    }
  }

  /** `w + rest`, with `rest` empty or starting with whitespace, has the word `w` as its first run. */
  lemma {:induction false} NonWsRunOfWord(w: seq<char>, rest: seq<char>)
    requires NoWs(w) && (rest == [] || IsWs(rest[0]))
    ensures NonWsRun(w + rest) == |w|
    decreases |w|
  {
    if w != [] {
      assert (w + rest)[1..] == w[1..] + rest;
      NonWsRunOfWord(w[1..], rest);
    } else {
      assert w + rest == rest;
    }
  }

  /** A whitespace character at the head is skipped by `split()`. */
  lemma SplitWsHead(s: seq<char>)
    requires |s| > 0 && IsWs(s[0])
    ensures Split(s) == Split(s[1..])
  {
    var d, d1 := LeadingWs(s), LeadingWs(s[1..]);
    assert d == 1 + d1;
    assert s[d..] == s[1..][d1..];
    assert d == |s| <==> d1 == |s[1..]|;
  }

  /** Leading whitespace is skipped by `split()`. */
  lemma {:induction false} SplitSkipsWs(gap: seq<char>, rest: seq<char>)
    requires forall i | 0 <= i < |gap| :: IsWs(gap[i])
    ensures Split(gap + rest) == Split(rest)
    decreases |gap|
  {
    if gap == [] {
      assert gap + rest == rest;
    } else {
      var s := gap + rest;
      assert s[0] == gap[0] && s[1..] == gap[1..] + rest;
      SplitWsHead(s);
      SplitSkipsWs(gap[1..], rest);
    }
  }

  /** A word followed by whitespace is the first word of `split()`. */
  lemma SplitWordGap(w: seq<char>, gap: seq<char>, rest: seq<char>)
    requires IsWord(w) && gap != [] && forall i | 0 <= i < |gap| :: IsWs(gap[i])
    ensures Split(w + gap + rest) == [w] + Split(rest)
  {
    var s := w + gap + rest;
    assert s == w + (gap + rest);
    NonWsRunOfWord(w, gap + rest);
    assert LeadingWs(s) == 0;
    assert s[0..] == s;
    assert s[..|w|] == w;
    assert s[|w|..] == gap + rest;
    SplitSkipsWs(gap, rest);
  }

  /** A single word splits into itself. */
  lemma SplitWord(w: seq<char>)
    requires IsWord(w)
    ensures Split(w) == [w]
  {
    NonWsRunOfWord(w, []);
    assert w + [] == w;
    assert w[0..] == w && w[..|w|] == w && w[|w|..] == [];
  }

  /** A word followed by the single space of a join is the first word of `split()`. */
  lemma SplitWordSpace(w: seq<char>, rest: seq<char>)
    requires IsWord(w)
    ensures Split(w + " " + rest) == [w] + Split(rest)
  {
    var g := [' '];
    assert IsWs(g[0]);
    SplitWordGap(w, g, rest);
  }

  /** The join of words starts and ends with a word character. */
  lemma {:induction false} JoinEnds(ws: seq<seq<char>>)
    requires AllWords(ws) && ws != []
    ensures Join(ws) != [] && !IsWs(Join(ws)[0]) && !IsWs(Join(ws)[|Join(ws)| - 1])
    decreases |ws|
  {
    if |ws| > 1 {
      JoinEnds(ws[1..]);
      var j := Join(ws[1..]);
      assert Join(ws) == ws[0] + (" " + j);
      assert Join(ws)[0] == ws[0][0];
      assert Join(ws)[|Join(ws)| - 1] == j[|j| - 1];
    }
  }

  /** Splitting joined words gives the words back. */
  lemma {:induction false} SplitJoin(ws: seq<seq<char>>)
    requires AllWords(ws)
    ensures Split(Join(ws)) == ws
    decreases |ws|
  {
    if |ws| == 1 {
      SplitWord(ws[0]);
    } else if |ws| > 1 {
      var tail := ws[1..];
      assert IsWord(ws[0]);
      assert AllWords(tail) by {
        forall i | 0 <= i < |tail| ensures IsWord(tail[i]) {
          assert tail[i] == ws[i + 1];
        }
      }
      SplitJoin(tail);
      assert Split(Join(ws)) == [ws[0]] + Split(Join(tail)) by {
        assert Join(ws) == ws[0] + " " + Join(tail);
        SplitWordSpace(ws[0], Join(tail));
      }
      assert ws == [ws[0]] + tail;
    }
  }

  /** Joined words are in collapsed shape. */
  lemma {:induction false} JoinCollapsed(ws: seq<seq<char>>)
    requires AllWords(ws)
    ensures Collapsed(Join(ws))
    decreases |ws|
  {
    if |ws| == 1 {
      assert Join(ws) == ws[0];
    } else if |ws| > 1 {
      var w, j := ws[0], Join(ws[1..]);
      JoinCollapsed(ws[1..]);
      JoinEnds(ws[1..]);
      JoinEnds(ws);
      var s := w + " " + j;
      assert Join(ws) == s;
      forall i | 0 <= i < |s| ensures IsWs(s[i]) ==> s[i] == ' ' {
        if i < |w| {
          assert s[i] == w[i];
        } else if i > |w| {
          assert s[i] == j[i - |w| - 1];
        }
      }
      forall i | 0 <= i < |s| - 1 ensures s[i] == ' ' ==> s[i + 1] != ' ' {
        if i < |w| {
          assert s[i] == w[i];
        } else if i == |w| {
          assert s[i + 1] == j[0];
        } else {
          assert s[i] == j[i - |w| - 1] && s[i + 1] == j[i - |w|];
        }
      }
    }
  }

  /** The part of collapsed text after its first word and space is collapsed too. */
  lemma CollapsedTail(s: seq<char>, n: nat)
    requires Collapsed(s) && n < |s| && s[n] == ' '
    ensures n + 1 < |s| && Collapsed(s[n + 1..]) && !IsWs(s[n + 1])
  {
    var rest := s[n + 1..];
    forall i | 0 <= i < |rest| ensures IsWs(rest[i]) ==> rest[i] == ' ' {
      assert rest[i] == s[n + 1 + i];
    }
    forall i | 0 <= i < |rest| - 1 ensures rest[i] == ' ' ==> rest[i + 1] != ' ' {
      assert rest[i] == s[n + 1 + i] && rest[i + 1] == s[n + 2 + i];
    }
  }

  /** Text already in collapsed shape passes through pass 3 unchanged. */
  lemma {:induction false} CollapseKeepsCollapsed(s: seq<char>)
    requires Collapsed(s)
    ensures Collapse(s) == s
    decreases |s|
  {
    if s != [] {
      var n := NonWsRun(s);
      var w := s[..n];
      assert IsWord(w);
      if n == |s| {
        assert w == s;
        SplitWord(w);
      } else {
        assert s[n] == ' ';
        CollapsedTail(s, n);
        var rest := s[n + 1..];
        assert s == w + " " + rest;
        SplitWordGap(w, " ", rest);
        CollapseKeepsCollapsed(rest);
        assert Split(rest) != [] by {
          assert LeadingWs(rest) == 0;
        }
        assert Join([w] + Split(rest)) == w + " " + Join(Split(rest));
      }
    }
  }

  /** Pass 3 is idempotent, and re-splitting its output gives the same words. */
  lemma CollapseIdempotent(s: seq<char>)
    ensures Collapse(Collapse(s)) == Collapse(s)
    ensures Split(Collapse(s)) == Split(s)
  {
    SplitJoin(Split(s));
  }

  // ---------------------------------------------------------------------
  // Links and pass 3

  lemma NoUrlSuffix(s: seq<char>, d: nat)
    requires NoUrl(s) && d <= |s|
    ensures NoUrl(s[d..])
  {
    forall k | 0 <= k < |s[d..]| ensures !UrlAt(s[d..][k..]) {
      assert s[d..][k..] == s[d + k..];
    }
  }

  lemma NoUrlPrefix(s: seq<char>, n: nat)
    requires NoUrl(s) && n <= |s|
    ensures NoUrl(s[..n])
  {
    forall k | 0 <= k < n ensures !UrlAt(s[..n][k..]) {
      var p := s[..n][k..];
      if |p| > |Scheme| {
        assert p[..|Scheme|] == s[k..][..|Scheme|];
        assert p[|Scheme|] == s[k..][|Scheme|];
      }
    }
  }

  /** A link-free word in front of link-free words keeps the list link-free. */
  lemma NoUrlWordsCons(w: seq<char>, ws: seq<seq<char>>, all: seq<seq<char>>)
    requires all == [w] + ws && NoUrl(w)
    requires forall i | 0 <= i < |ws| :: NoUrl(ws[i])
    ensures forall i | 0 <= i < |all| :: NoUrl(all[i])
  {
    forall i | 0 <= i < |all| ensures NoUrl(all[i]) {
      if i > 0 {
        assert all[i] == ws[i - 1];
      }
    }
  }

  /** Cutting text into words creates no link. */
  lemma {:induction false} SplitNoUrl(s: seq<char>)
    requires NoUrl(s)
    ensures forall i | 0 <= i < |Split(s)| :: NoUrl(Split(s)[i])
    decreases |s|
  {
    var d := LeadingWs(s);
    if d < |s| {
      var t := s[d..];
      var n := NonWsRun(t);
      NoUrlSuffix(s, d);
      NoUrlPrefix(t, n);
      NoUrlSuffix(t, n);
      SplitNoUrl(t[n..]);
      NoUrlWordsCons(t[..n], Split(t[n..]), Split(s));
    }
  }

  /** Whether a link match starts at the head depends on the first five characters only. */
  lemma UrlAtSamePrefix(x: seq<char>, y: seq<char>)
    requires |x| > |Scheme| && |y| > |Scheme| && x[..|Scheme| + 1] == y[..|Scheme| + 1]
    ensures UrlAt(x) == UrlAt(y)
  {
    assert x[..|Scheme|] == x[..|Scheme| + 1][..|Scheme|];
    assert y[..|Scheme|] == y[..|Scheme| + 1][..|Scheme|];
    assert x[|Scheme|] == x[..|Scheme| + 1][|Scheme|];
    assert y[|Scheme|] == y[..|Scheme| + 1][|Scheme|];
  }

  /** A link match covers five characters that are not whitespace. */
  lemma UrlAtWordChars(x: seq<char>)
    ensures UrlAt(x) ==> forall i | 0 <= i <= |Scheme| :: !IsWs(x[i])
  {
    if UrlAt(x) {
      forall i | 0 <= i <= |Scheme| ensures !IsWs(x[i]) {
        UrlAtNoWs(x, i);
      }
    }
  }

  /** A link match covers five characters without whitespace. */
  lemma UrlAtNoWs(s: seq<char>, i: nat)
    requires UrlAt(s) && i <= |Scheme|
    ensures !IsWs(s[i])
  {
    if i < |Scheme| {
      assert s[i] == s[..|Scheme|][i] == Scheme[i];
    }
  }

  /** Joining link-free words with spaces creates no link: a match cannot span a space. */
  lemma {:induction false} JoinNoUrl(ws: seq<seq<char>>)
    requires AllWords(ws) && forall i | 0 <= i < |ws| :: NoUrl(ws[i])
    ensures NoUrl(Join(ws))
    decreases |ws|
  {
    if |ws| == 1 {
      assert Join(ws) == ws[0];
    } else if |ws| > 1 {
      var w, j := ws[0], Join(ws[1..]);
      JoinNoUrl(ws[1..]);
      var s := w + " " + j;
      assert Join(ws) == s;
      forall k | 0 <= k < |s| ensures !UrlAt(s[k..]) {
        if k + |Scheme| < |w| {
          UrlAtSamePrefix(s[k..], w[k..]);
        } else if k <= |w| {
          UrlAtWordChars(s[k..]);
          assert s[k..][|w| - k] == ' ';
        } else {
          assert s[k..] == j[k - |w| - 1..];
        }
      }
    }
  }

  /** Pass 3 creates no link. */
  lemma CollapseNoUrl(s: seq<char>)
    requires NoUrl(s)
    ensures NoUrl(Collapse(s))
  {
    SplitNoUrl(s);
    JoinNoUrl(Split(s));
  }

  // ---------------------------------------------------------------------
  // clean_text

  /** `clean_text` (lines 37-45 of app.py). */
  function CleanText(text: seq<char>): (r: seq<char>)
    ensures Collapsed(r)
  {
    Collapse(StripMarkup(StripUrls(text)))
  }

  /**
   The output of `clean_text` is in collapsed shape, and its words are
   exactly the words of the text after passes 1 and 2, in order.
   */
  lemma CleanTextShape(text: seq<char>)
    ensures Collapsed(CleanText(text))
    ensures Split(CleanText(text)) == Split(StripMarkup(StripUrls(text)))
    ensures NonWsChars(CleanText(text)) == NonWsChars(StripMarkup(StripUrls(text)))
  {
    var t := StripMarkup(StripUrls(text));
    CollapseIdempotent(t);
  }

  /** On text without U+E001, pass 2 changes nothing, so `clean_text` is passes 1 and 3. */
  lemma CleanTextWithoutDelim(text: seq<char>)
    requires NoDelim(text)
    ensures NoDelim(StripUrls(text))
    ensures CleanText(text) == Collapse(StripUrls(text))
    ensures NoDelim(CleanText(text))
  {
    StripUrlsChars(text);
    StripMarkupWithoutDelim(StripUrls(text));
    NonWsCharsMember(StripUrls(text), Delim);
    NonWsCharsMember(CleanText(text), Delim);
  }

  /** On text without U+E001, the output of `clean_text` contains no link. */
  lemma CleanTextNoUrl(text: seq<char>)
    requires NoDelim(text)
    ensures NoUrl(CleanText(text))
  {
    CleanTextWithoutDelim(text);
    StripUrlsNoUrl(text);
    CollapseNoUrl(StripUrls(text));
  }

  /** On text without U+E001, `clean_text` is idempotent. */
  lemma CleanTextIdempotent(text: seq<char>)
    requires NoDelim(text)
    ensures CleanText(CleanText(text)) == CleanText(text)
  {
    var c := CleanText(text);
    CleanTextWithoutDelim(text);
    CleanTextNoUrl(text);
    CleanTextShape(text);
    StripUrlsKeepsClean(c);
    StripMarkupWithoutDelim(c);
    CollapseKeepsCollapsed(c);
  }

  /** A delimiter that has no partner later on its line is kept. */
  lemma StripMarkupUnclosedHead(b: seq<char>)
    requires !HasClose(b)
    ensures StripMarkup([Delim] + b) == [Delim] + StripMarkup(b)
  {
    assert ([Delim] + b)[1..] == b;
  }

  /** The lazy `.*?` of pass 2 stops at the first delimiter after plain text. */
  lemma {:induction false} CloseAfterPlain(w: seq<char>, b: seq<char>)
    requires Delim !in w && '\n' !in w
    ensures HasClose(w + [Delim] + b) && CloseIndex(w + [Delim] + b) == |w|
    decreases |w|
  {
    if w != [] {
      assert (w + [Delim] + b)[1..] == w[1..] + [Delim] + b;
      CloseAfterPlain(w[1..], b);
    }
  }

  /** Pass 2 deletes a delimited span of one line, both delimiters included. */
  lemma StripMarkupDropSpan(w: seq<char>, b: seq<char>)
    requires Delim !in w && '\n' !in w
    ensures StripMarkup([Delim] + w + [Delim] + b) == StripMarkup(b)
  {
    var s := [Delim] + w + [Delim] + b;
    assert s[1..] == w + [Delim] + b;
    CloseAfterPlain(w, b);
    assert s[|w| + 2..] == b;
  }

  /** Between text without delimiters, pass 2 deletes exactly the one span. */
  lemma StripMarkupDropsOneSpan(a: seq<char>, w: seq<char>, b: seq<char>)
    requires Delim !in a && Delim !in w && '\n' !in w && Delim !in b
    ensures StripMarkup(a + ([Delim] + w + [Delim] + b)) == a + b
  {
    StripMarkupKeepNoDelim(a, [Delim] + w + [Delim] + b);
    StripMarkupDropSpan(w, b);
    StripMarkupWithoutDelim(b);
  }

  /** A single word comes out of pass 3 unchanged. */
  lemma CollapseWord(w: seq<char>)
    requires IsWord(w)
    ensures Collapse(w) == w
  {
    SplitWord(w);
  }

  /** Three words separated by runs of whitespace come out separated by single spaces. */
  lemma CollapseThreeWords(a: seq<char>, g1: seq<char>, b: seq<char>, g2: seq<char>, c: seq<char>)
    requires IsWord(a) && IsWord(b) && IsWord(c)
    requires g1 != [] && (forall i | 0 <= i < |g1| :: IsWs(g1[i]))
    requires g2 != [] && (forall i | 0 <= i < |g2| :: IsWs(g2[i]))
    ensures Collapse(a + g1 + (b + g2 + c)) == a + " " + (b + " " + c)
  {
    SplitWordGap(a, g1, b + g2 + c);
    SplitWordGap(b, g2, c);
    SplitWord(c);
    var ws := [a] + ([b] + [c]);
    assert Split(a + g1 + (b + g2 + c)) == ws;
    assert ws[1..] == [b] + [c];
    assert ([b] + [c])[1..] == [c];
    assert Join([c]) == c;
    assert Join([b] + [c]) == b + " " + c;
    assert Join(ws) == a + " " + (b + " " + c);
  }
}
