# Reddit summarizer: URL normalization and text cleaning

`RedditSummarizer` in `app.py` reads a Reddit post through Reddit's JSON
read API and asks a summarization service for a summary. This project
models the parts of it that are pure string processing and proves their
properties:

- **URL normalization** (`extract_reddit_content`, lines 18-23). If the
  URL mentions `www.reddit.com`, every occurrence is replaced by
  `api.reddit.com` (Python's `str.replace`). Then `.json` is appended unless
  the URL already ends with it. Module `UrlNormalizer`.
- **Text cleaning** (`clean_text`, lines 37-45), three passes in module
  `TextCleaner`:
  1. `re.sub(r'http\S+', '', text)`: every `http` followed by at least one
     non-whitespace character is deleted, together with the rest of that
     non-whitespace run (`StripUrls`).
  2. The markup pass on line 42 (`StripMarkup`, described below).
  3. `' '.join(text.split())`: whitespace runs become single spaces, and
     leading and trailing whitespace is dropped (`Split`, `Join`,
     `Collapse`). `Join` carries no contract of its own; what it does is
     stated by `JoinNonWs`, `JoinLength`, `JoinEnds`, `JoinCollapsed` and
     `SplitJoin`.
- **The request body of `summarize_text`** (lines 47-55): the cleaned text
  plus `max_length` and `min_length`, which default to 150 and 50. Module
  `Summarizer`.

Whitespace (`IsWs` in module `Text`) is exactly the set of characters for
which Python's `str.isspace()` holds. Python uses that same table for `\S`
in a `str` pattern and for `str.split()` with no argument.

### The markup pass on line 42

Rendered as text, the pattern on line 42 looks like `.*?|.*?`. That pattern
matches only the empty string, so the pass would change nothing. The bytes
of the line are different: each `.*?` has the private-use character U+E001
on both sides. So the pattern is really `D.*?D|D.*?D` with D = U+E001. The
model follows the code as written. Pass 2 deletes each span that starts
with U+E001 and ends at the next U+E001 on the same line (`.` does not match
a line feed), scanning from left to right. Both alternatives are the same,
so one of them is enough.

Text that contains no U+E001 passes through pass 2 unchanged
(`StripMarkupWithoutDelim`), which is the behaviour one would read off the
rendered pattern. When U+E001 does occur, the passes interact:

- `clean_text` is not idempotent. On D, line feed, D, pass 3 produces
  D, space, D, and a second run of pass 2 deletes that whole span
  (`CleanTextNotIdempotent`).
- A link can come back after pass 1 has run. Pass 2 can join `ht` and
  `tp://x` across a deleted span (`CleanTextLinkReappears`).

So the "no link left" and idempotence results are proved for text without
U+E001.

## Model

| member | source | states |
|---|---|---|
| UrlNormalizer.ReplaceAll | app.py:19 | with a non-empty pattern, a replacement of the same length keeps the string's length, and replacing the pattern by itself returns the string unchanged |
| UrlNormalizer.RewriteHost | app.py:18-19 | the host rewrite keeps the URL's length, since both host names have 14 characters |
| UrlNormalizer.NormalizeUrl | app.py:18-23 | the normalized URL starts with the rewritten URL and ends with `.json` |
| UrlNormalizer.RewriteHostIsReplace | app.py:18-19 | the `in` test before the rewrite is redundant: the guarded rewrite equals an unconditional `str.replace` |
| UrlNormalizer.ReplaceAllAbsent | app.py:19 | replacing a pattern that does not occur returns the string unchanged |
| UrlNormalizer.ReplaceAllPrefixCopied | app.py:19 | a prefix of the rewritten string that cannot contain the first replacement character is a prefix of the original |
| UrlNormalizer.ReplaceAllRemovesPattern | app.py:19 | if the replacement cannot start or end an occurrence, no occurrence of the pattern is left after the rewrite |
| UrlNormalizer.ReplaceAllInsertsRep | app.py:19 | a string that contains the pattern comes out containing the replacement |
| UrlNormalizer.ReplaceAllRoundTrip | app.py:19 | for a non-empty pattern and a non-empty replacement whose first character does not occur again in it (true of `api.reddit.com`), replacing the replacement back by the pattern restores a string that did not already contain the replacement |
| UrlNormalizer.NormalizeUrlCases | app.py:18-23 | the result is the rewritten URL if it ends with `.json`, and the rewritten URL plus `.json` otherwise |
| UrlNormalizer.NoWebHostAfterSuffix | app.py:22-23 | appending `.json` cannot create an occurrence of `www.reddit.com` |
| UrlNormalizer.NormalizeUrlNoWebHost | app.py:18-23 | the normalized URL does not contain `www.reddit.com` |
| UrlNormalizer.NormalizeUrlShape | app.py:18-23 | the normalized URL contains no `www.reddit.com` and ends with `.json`; it is the rewritten URL when that already ends with `.json`, and otherwise the rewritten URL with `.json` appended once |
| UrlNormalizer.NormalizeUrlUsesApiHost | app.py:18-19 | a URL that mentions `www.reddit.com` comes out mentioning `api.reddit.com` |
| UrlNormalizer.NormalizeUrlKeepsApiUrl | app.py:18-23 | a URL without `www.reddit.com` that already ends with `.json` is returned unchanged |
| UrlNormalizer.NormalizeUrlIdempotent | app.py:18-23 | normalizing a normalized URL changes nothing |
| UrlNormalizer.NormalizeUrlHostRewriteInvertible | app.py:18-19 | for a URL without `api.reddit.com`, the host rewrite can be undone, so the original URL is recoverable |
| TextCleaner.NonWsRun | app.py:40 | the greedy `\S+` run: a whitespace-free prefix, stopped only by whitespace or the end |
| TextCleaner.StripUrlsKeepsWsHead | app.py:40 | text that is empty or starts with whitespace comes out empty or starting with whitespace |
| TextCleaner.StripUrls | app.py:40 | pass 1 never makes the text longer |
| TextCleaner.StripUrlsDeletesOnly | app.py:40 | pass 1 only deletes: its output is a subsequence of its input (characters kept in order, none added or repeated) |
| TextCleaner.StripUrlsChars | app.py:40 | every character of the output of pass 1 occurs in its input |
| TextCleaner.StripUrlsPrefixCopied | app.py:40 | a whitespace-free prefix of the output is a prefix of the input |
| TextCleaner.StripUrlsHeadCopied | app.py:40 | a character kept at the head cannot start a link unless it started one in the input |
| TextCleaner.StripUrlsNoUrl | app.py:40 | no position of the output starts `http` followed by a non-whitespace character |
| TextCleaner.StripUrlsKeepOther | app.py:40 | a head character other than `h` is kept and scanning moves on by one |
| TextCleaner.StripUrlsKeepNoH | app.py:40 | a prefix without `h` is copied unchanged, and the rest is processed on its own |
| TextCleaner.SchemeRunEnd | app.py:40 | the greedy run after `http` ends exactly at the next whitespace or the end of the text |
| TextCleaner.StripUrlsDropLink | app.py:40 | `http` and a whitespace-free run before whitespace or the end are deleted completely |
| TextCleaner.StripUrlsDropsOneLink | app.py:40 | between two texts without `h`, exactly the one link is deleted; the whitespace after it stays |
| TextCleaner.StripUrlsKeepsClean | app.py:40 | text that contains no link passes through pass 1 unchanged |
| TextCleaner.StripUrlsIdempotent | app.py:40 | running pass 1 twice gives the same result as running it once |
| TextCleaner.CloseIndex | app.py:42 | the lazy `.*?` stops at the first U+E001, and no line feed comes before it |
| TextCleaner.NoCloseMeansLineEnds | app.py:42 | if no span closes, a line feed comes before every later U+E001 |
| TextCleaner.StripMarkup | app.py:42 | pass 2 never makes the text longer |
| TextCleaner.StripMarkupDeletesOnly | app.py:42 | pass 2 only deletes: its output is a subsequence of its input (characters kept in order, none added or repeated) |
| TextCleaner.StripMarkupChars | app.py:42 | every character of the output of pass 2 occurs in its input |
| TextCleaner.StripMarkupKeepsUnclosed | app.py:42 | if the text has no U+E001 before its first line feed, the output of pass 2 has none either |
| TextCleaner.StripMarkupNoSpan | app.py:42 | no U+E001 in the output of pass 2 opens a span that pass 2 would delete |
| TextCleaner.StripMarkupKeepsClean | app.py:42 | text without a deletable span passes through pass 2 unchanged |
| TextCleaner.StripMarkupKeepNoDelim | app.py:42 | a prefix without U+E001 is copied unchanged, and the rest is processed on its own |
| TextCleaner.StripMarkupWithoutDelim | app.py:42 | text without U+E001 passes through pass 2 unchanged |
| TextCleaner.StripMarkupIdempotent | app.py:42 | running pass 2 twice gives the same result as running it once |
| TextCleaner.CloseAfterPlain | app.py:42 | after text without U+E001 or line feed, the span closes at the first U+E001 |
| TextCleaner.StripMarkupDropSpan | app.py:42 | a one-line span, both U+E001 included, is deleted, and scanning resumes after it |
| TextCleaner.StripMarkupDropsOneSpan | app.py:42 | between texts without U+E001, exactly the one span is deleted |
| TextCleaner.LeadingWs | app.py:44 | counts the leading whitespace characters: all of them are whitespace, and the next one is not |
| TextCleaner.Split | app.py:44 | `split()` yields only non-empty words without whitespace |
| TextCleaner.NonWsCharsAppend | app.py:44 | the non-whitespace characters of a concatenation are the concatenation of the parts' non-whitespace characters |
| TextCleaner.NonWsCharsMember | app.py:44 | a character is among the non-whitespace characters exactly when it occurs in the text and is not whitespace |
| TextCleaner.NonWsCharsOfWord | app.py:44 | a text without whitespace is its own non-whitespace characters |
| TextCleaner.NonWsCharsOfBlank | app.py:44 | a text made only of whitespace has no non-whitespace characters |
| TextCleaner.SplitConcat | app.py:44 | the words of `split()`, concatenated, are exactly the text's non-whitespace characters, in order |
| TextCleaner.JoinNonWs | app.py:44 | joining words with spaces keeps exactly their characters |
| TextCleaner.JoinLength | app.py:44 | a join is as long as its words together plus one space between each two |
| TextCleaner.Collapse | app.py:44 | the output of pass 3 has collapsed shape and keeps every non-whitespace character of the input, in order |
| TextCleaner.SplitSkipsWs | app.py:44 | leading whitespace does not change the words |
| TextCleaner.SplitWsHead | app.py:44 | one whitespace character at the head does not change the words |
| TextCleaner.NonWsRunOfWord | app.py:44 | the run of non-whitespace characters at the head of a word followed by whitespace or the end is that whole word |
| TextCleaner.SplitWordGap | app.py:44 | a word followed by whitespace is the first word of `split()` |
| TextCleaner.SplitWord | app.py:44 | a single word splits into itself |
| TextCleaner.SplitWordSpace | app.py:44 | a word followed by one space is the first word of `split()` |
| TextCleaner.JoinEnds | app.py:44 | a join of words starts and ends with a non-whitespace character |
| TextCleaner.SplitJoin | app.py:44 | splitting a join of words gives the words back |
| TextCleaner.JoinCollapsed | app.py:44 | a join of words has collapsed shape: no leading or trailing whitespace, only spaces as whitespace, never two spaces in a row |
| TextCleaner.CollapseKeepsCollapsed | app.py:44 | text already in collapsed shape passes through pass 3 unchanged |
| TextCleaner.CollapseIdempotent | app.py:44 | running pass 3 twice gives the same result as running it once; the collapsed text has the same words as the input |
| TextCleaner.CollapseWord | app.py:44 | a single word passes through pass 3 unchanged |
| TextCleaner.CollapseThreeWords | app.py:44 | three words separated by whitespace runs come out separated by single spaces |
| TextCleaner.SplitNoUrl | app.py:44 | the words of a text without links contain no link |
| TextCleaner.JoinNoUrl | app.py:44 | joining link-free words with spaces creates no link |
| TextCleaner.CollapseNoUrl | app.py:44 | pass 3 creates no link |
| TextCleaner.CleanText | app.py:37-45 | the output of `clean_text` has collapsed shape |
| TextCleaner.CleanTextShape | app.py:37-45 | the output of `clean_text` has collapsed shape; its words and its non-whitespace characters are those of the text after passes 1 and 2 |
| TextCleaner.CleanTextWithoutDelim | app.py:37-45 | for text without U+E001, pass 2 does nothing, so `clean_text` is pass 3 applied to pass 1, and the output has no U+E001 |
| TextCleaner.CleanTextNoUrl | app.py:37-45 | for text without U+E001, the output contains no link |
| TextCleaner.CleanTextIdempotent | app.py:37-45 | for text without U+E001, cleaning the output again changes nothing |
| CleanTextExamples.CleanTextNotIdempotent | app.py:42-44 | D, line feed, D is cleaned to D, space, D, and that output is cleaned to the empty string |
| CleanTextExamples.CleanTextLinkReappears | app.py:40-42 | `ht`, a one-line span, then `tp://x` is cleaned to `http://x`, which is a link |
| CleanTextExamples.CleanTextExample | app.py:37-45 | `Check this http://example.com/path now` is cleaned to `Check this now` |
| CleanTextExamples.CleanTextTwoPlainWords | app.py:37-45 | two words without `h` or U+E001, one space apart, are unchanged by cleaning |
| CleanTextExamples.CleanTextKeepsCleanText | app.py:37-45 | `Hello world` is unchanged by cleaning |
| Summarizer.BuildPayload | app.py:47-55 | the request body passes both length bounds through unchanged; its text has collapsed shape and has the words and non-whitespace characters left by passes 1 and 2 |
| Summarizer.PayloadDefaults | app.py:47-55 | called with the text alone, the body carries `clean_text` of the text, `max_length` 150 and `min_length` 50 |
| Summarizer.PayloadOfCleanedText | app.py:47-55 | for text without U+E001, the body contains no link, and a body built from that body's text is the same body |
| CleanTextExamples.PayloadExample | app.py:47-55 | the body for `Check this http://example.com/path now` with default bounds is (`Check this now`, 150, 50) |

## Left out

- The HTTP GET to Reddit and its headers (app.py:8-10, 25). The model stops at the normalized URL.
- Reading `data[0]['data']['children'][0]['data']`, `title` and `selftext` from the JSON reply (app.py:26-33): this needs the network reply, which is not modelled.
- The `except` branches that return error strings (app.py:34-35, 67-68): they catch exceptions from I/O and from JSON access, which are not modelled, and also the `TypeError` a non-string value raises (`'www.reddit.com' in None`, `re.sub` on a `None` `selftext`). Every text here has type `seq<char>`, so a non-string argument cannot occur in the model.
- The service URL and key set in `__init__` (app.py:11-12), the request headers, the POST, and the handling of the status code and reply (app.py:56-66): network I/O.
- The `streamlit` and `bs4` imports (app.py:1, 3): not used by the modelled code.
- Lone surrogates (U+D800 to U+DFFF): a Python `str` can hold one, for instance from a JSON `\ud800` escape, but a Dafny `char` cannot, so the model's input domain is narrower. The passes would treat such a character like any other non-whitespace character.
- The rest of the application outside these lines is not part of this model.
- CleanTextNoUrl: proved only for text without U+E001, because with U+E001 pass 2 can join a link back together (CleanTextLinkReappears).
- CleanTextIdempotent: proved only for text without U+E001, because with U+E001 `clean_text` is not idempotent (CleanTextNotIdempotent).
- PayloadOfCleanedText: restricted to text without U+E001 for the same two reasons.
- StripUrls and StripMarkup: their own contracts state only that the text does not grow; that they only delete, and what they delete, is stated by the lemmas about them listed above (StripUrlsDeletesOnly, StripMarkupDeletesOnly and the rest).
- BuildPayload: the body is a record of three fields; its JSON encoding is not modelled.
