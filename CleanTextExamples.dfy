/**
 `clean_text` on concrete inputs: `Check this http://example.com/path now`,
 where a link is removed, and the request body it yields; text that is
 already clean; and the two inputs containing U+E001 that show why
 idempotence and the absence of links are stated only for text without
 that character. Each literal is first cut into the pieces the general
 lemmas of `TextCleaner` talk about.
 */
module CleanTextExamples {
  import opened Text
  import opened TextCleaner
  import opened Summarizer

  /** Pass 1 and pass 2 leave two delimiters on separate lines alone. */
  lemma NotIdempotentFirstPasses(text: seq<char>)
    requires text == [Delim] + ['\n'] + [Delim]
    ensures StripMarkup(StripUrls(text)) == text
  {
    StripUrlsKeepNoH(text, []);
    assert text + [] == text;
    assert StripUrls(text) == text;
    var b := ['\n'] + [Delim];
    assert text == [Delim] + b;
    assert !HasClose(b);
    StripMarkupUnclosedHead(b);
    StripMarkupKeepNoDelim(['\n'], [Delim]);
    assert [Delim] == [Delim] + [];
    StripMarkupUnclosedHead([]);
  }

  /** Pass 3 turns the line feed into a space. */
  lemma NotIdempotentCollapse(text: seq<char>)
    requires text == [Delim] + ['\n'] + [Delim]
    ensures Collapse(text) == [Delim] + " " + [Delim]
  {
    var w := [Delim];
    var g := ['\n'];
    assert IsWord(w) && IsWs(g[0]);
    SplitWordGap(w, g, w);
    SplitWord(w);
    var ws := [w] + [w];
    assert Split(text) == ws;
    assert ws[0] == w && ws[1..] == [w];
    assert Join([w]) == w;
    assert Join(ws) == w + " " + w;
  }

  /** On the second run, pass 2 finds the span and deletes it. */
  lemma NotIdempotentSecondRun(once: seq<char>)
    requires once == [Delim] + " " + [Delim]
    ensures CleanText(once) == []
  {
    StripUrlsKeepNoH(once, []);
    assert once + [] == once;
    assert Delim !in " " && '\n' !in " ";
    StripMarkupDropSpan(" ", []);
    assert StripMarkup(StripUrls(once)) == [];
  }

  /**
   With U+E001 in the input, `clean_text` is not idempotent: pass 3 turns
   the line feed between two delimiters into a space, and a second run of
   pass 2 then deletes the span.
   */
  lemma CleanTextNotIdempotent(text: seq<char>)
    requires text == [Delim] + ['\n'] + [Delim]
    ensures CleanText(text) == [Delim] + " " + [Delim]
    ensures CleanText(CleanText(text)) == []
  {
    NotIdempotentFirstPasses(text);
    NotIdempotentCollapse(text);
    NotIdempotentSecondRun(CleanText(text));
  }

  /** The input of the reddit-link example, cut where the passes act. */
  lemma LinkExamplePieces()
    ensures "ht" + [Delim, 'x', Delim] + "tp://x" == "h" + ("t" + ([Delim] + "x" + [Delim] + "tp://x"))
    ensures "ht" + [Delim, 'x', Delim] + "tp://x" == "ht" + ([Delim] + "x" + [Delim] + "tp://x")
  {
  }

  /** Pass 1 finds no link in `ht`, a delimited `x`, then `tp://x`. */
  lemma LinkExampleStripUrls(text: seq<char>)
    requires text == "h" + ("t" + ([Delim] + "x" + [Delim] + "tp://x"))
    ensures StripUrls(text) == text
  {
    var rest := "t" + ([Delim] + "x" + [Delim] + "tp://x");
    NotUrlAtByChar(text, 2);
    StripUrlsKeepHead('h', rest);
    StripUrlsKeepNoH(rest, []);
    assert rest + [] == rest;
  }

  /** Pass 2 then deletes the delimited `x` and joins `ht` to `tp://x`. */
  lemma LinkExampleStripMarkup(text: seq<char>)
    requires text == "ht" + ([Delim] + "x" + [Delim] + "tp://x")
    ensures StripMarkup(text) == "ht" + "tp://x"
  {
    StripMarkupDropsOneSpan("ht", "x", "tp://x");
  }

  /** The joined pieces spell a link. */
  lemma LinkExampleJoined()
    ensures "ht" + "tp://x" == "http://x"
  {
  }

  /**
   With U+E001 in the input, a link can reappear: pass 2 deletes the span
   between `ht` and `tp:`, after pass 1 has already run.
   */
  lemma CleanTextLinkReappears(text: seq<char>)
    requires text == "ht" + [Delim, 'x', Delim] + "tp://x"
    ensures CleanText(text) == "http://x" && UrlAt(CleanText(text))
  {
    LinkExamplePieces();
    LinkExampleStripUrls(text);
    LinkExampleStripMarkup(text);
    LinkExampleJoined();
    WordOfChars("http://x");
    CollapseWord("http://x");
  }

  /** The input `Check this http://example.com/path now`, cut where the passes act. */
  lemma ExamplePieces()
    ensures "Check this " + "http://example.com/path" + " now"
         == "C" + ("h" + ("eck t" + ("h" + ("is " + (Scheme + "://example.com/path" + " now")))))
  {
  }

  /** Pass 1 on `is `, the link and ` now`: the link goes, both spaces stay. */
  lemma ExampleStripLink(rest: seq<char>)
    requires rest == "is " + (Scheme + "://example.com/path" + " now")
    ensures StripUrls(rest) == "is " + " now"
  {
    WordOfChars("://example.com/path");
    StripUrlsDropsOneLink("is ", "://example.com/path", " now");
  }

  /** Pass 1 keeps `Check th`: neither `h` in it starts `http`. */
  lemma ExampleStripHead(text: seq<char>, rest: seq<char>)
    requires |rest| > 0 && rest[0] == 'i'
    requires text == "C" + ("h" + ("eck t" + ("h" + rest)))
    ensures StripUrls(text) == "C" + ("h" + ("eck t" + ("h" + StripUrls(rest))))
  {
    var l4 := "h" + rest;
    if |l4| > |Scheme| {
      NotUrlAtByChar(l4, 1);
    }
    StripUrlsKeepHead('h', rest);
    var l5 := "eck t" + l4;
    StripUrlsKeepNoH("eck t", l4);
    NotUrlAtByChar("h" + l5, 1);
    StripUrlsKeepHead('h', l5);
    StripUrlsKeepNoH("C", "h" + l5);
  }

  /** Pass 1 removes the link and keeps the spaces on both sides of it. */
  lemma ExampleStripUrls(text: seq<char>)
    requires text == "C" + ("h" + ("eck t" + ("h" + ("is " + (Scheme + "://example.com/path" + " now")))))
    ensures StripUrls(text) == "C" + ("h" + ("eck t" + ("h" + ("is " + " now"))))
  {
    var rest := "is " + (Scheme + "://example.com/path" + " now");
    ExampleStripLink(rest);
    ExampleStripHead(text, rest);
  }

  /** What pass 1 leaves, as three words and two gaps. */
  lemma ExampleStripped()
    ensures "C" + ("h" + ("eck t" + ("h" + ("is " + " now")))) == "Check" + " " + ("this" + "  " + "now")
  {
  }

  /** The three words joined by single spaces. */
  lemma ExampleJoined()
    ensures "Check" + " " + ("this" + " " + "now") == "Check this now"
  {
  }

  /** `Check this http://example.com/path now` is cleaned to `Check this now`: the link and one of the spaces around it disappear. */
  lemma CleanTextExample(text: seq<char>)
    requires text == "Check this " + "http://example.com/path" + " now"
    ensures CleanText(text) == "Check this now"
  {
    ExamplePieces();
    ExampleStripUrls(text);
    var stripped := "Check" + " " + ("this" + "  " + "now");
    ExampleStripped();
    StripMarkupWithoutDelim(stripped);
    WordOfChars("Check");
    WordOfChars("this");
    WordOfChars("now");
    BlankOfChars(" ");
    BlankOfChars("  ");
    CollapseThreeWords("Check", " ", "this", "  ", "now");
    ExampleJoined();
  }

  /** Two words without `h` or U+E001, one space apart, are already clean. */
  lemma CleanTextTwoPlainWords(a: seq<char>, b: seq<char>)
    requires IsWord(a) && IsWord(b)
    requires 'h' !in a && 'h' !in b && Delim !in a && Delim !in b
    ensures CleanText(a + " " + b) == a + " " + b
  {
    var text := a + " " + b;
    assert 'h' !in text && Delim !in text;
    assert StripMarkup(StripUrls(text)) == text by {
      StripUrlsKeepNoH(text, []);
      assert text + [] == text;
      StripMarkupKeepNoDelim(text, []);
    }
    assert Collapse(text) == text by {
      SplitWordSpace(a, b);
      SplitWord(b);
      var ws := [a] + [b];
      assert Split(text) == ws;
      assert ws[0] == a && ws[1..] == [b];
      assert Join(ws) == a + " " + b;
    }
  }

  /** Already clean text comes back unchanged. */
  lemma CleanTextKeepsCleanText(text: seq<char>)
    requires text == "Hello" + " " + "world"
    ensures CleanText(text) == text
  {
    WordOfChars("Hello");
    WordOfChars("world");
    CleanTextTwoPlainWords("Hello", "world");
  }

  /** The payload `summarize_text` would send for `Check this http://example.com/path now`. */
  lemma PayloadExample(text: seq<char>)
    requires text == "Check this " + "http://example.com/path" + " now"
    ensures BuildPayload(text) == Payload("Check this now", 150, 50)
  {
    CleanTextExample(text);
  }
}
