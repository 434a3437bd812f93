/**
 The first step of `RedditSummarizer.extract_reddit_content`: the post URL
 a user pastes is rewritten into the form Reddit's read API answers with
 JSON. The web host `www.reddit.com` is replaced by the API host
 `api.reddit.com` (Python's `str.replace`, every non-overlapping occurrence,
 left to right) and `.json` is appended unless the URL already ends with it.
 */
module UrlNormalizer {
  import opened Text

  const WebHost: seq<char> := "www.reddit.com"
  const ApiHost: seq<char> := "api.reddit.com"
  const JsonSuffix: seq<char> := ".json"

  /**
   Python's `s.replace(pat, rep)`: scanning left to right, each occurrence
   of `pat` is replaced by `rep` and the scan resumes after it. With an
   empty `pat`, Python inserts `rep` before every character and at the end.
   */
  function ReplaceAll(s: seq<char>, pat: seq<char>, rep: seq<char>): (r: seq<char>)
    ensures |pat| > 0 && |rep| == |pat| ==> |r| == |s|
    ensures |pat| > 0 && rep == pat ==> r == s
    decreases |s|
  {
    if pat == [] then
      if s == [] then rep else rep + [s[0]] + ReplaceAll(s[1..], pat, rep)
    else if s == [] then []
    else if StartsWith(s, pat) then rep + ReplaceAll(s[|pat|..], pat, rep)
    else [s[0]] + ReplaceAll(s[1..], pat, rep)
  }

  /**
   Lines 18-19: the host is rewritten only when the URL mentions the web
   host. Both host names have 14 characters, so the URL keeps its length.
   */
  function RewriteHost(url: seq<char>): (r: seq<char>)
    ensures |r| == |url|
  {
    if Contains(url, WebHost) then ReplaceAll(url, WebHost, ApiHost) else url
  }

  /**
   Lines 18-23 of `extract_reddit_content`, the URL rewrite before the GET:
   the result extends the rewritten URL and ends with `.json`.
   */
  function NormalizeUrl(url: seq<char>): (n: seq<char>)
    ensures StartsWith(n, RewriteHost(url)) && EndsWith(n, JsonSuffix)
  {
    var r := RewriteHost(url);
    if EndsWith(r, JsonSuffix) then r
    else
      EndsWithSuffixAppended(r);
      assert (r + JsonSuffix)[..|r|] == r;
      r + JsonSuffix
  }

  /** Replacing a pattern that does not occur changes nothing. */
  lemma {:induction false} ReplaceAllAbsent(s: seq<char>, pat: seq<char>, rep: seq<char>)
    requires |pat| > 0 && !Contains(s, pat)
    ensures ReplaceAll(s, pat, rep) == s
    decreases |s|
  {
    if s != [] {
      assert StartsWith(s[0..], pat) == StartsWith(s, pat);
      assert !Contains(s[1..], pat) by {
        forall k | 0 <= k <= |s[1..]| ensures !StartsWith(s[1..][k..], pat) {
          assert s[1..][k..] == s[k + 1..];
        }
      }
      ReplaceAllAbsent(s[1..], pat, rep);
    }
  }

  /**
   A prefix of the output that never uses the first character of `rep` was
   copied from the input unchanged: a replacement would have begun with `rep[0]`.
   */
  lemma {:induction false} ReplaceAllPrefixCopied(t: seq<char>, pat: seq<char>, rep: seq<char>, q: seq<char>)
    requires |pat| > 0 && |rep| > 0 && rep[0] !in q
    ensures StartsWith(ReplaceAll(t, pat, rep), q) ==> StartsWith(t, q)
    decreases |t|
  {
    if q != [] && t != [] {
      if StartsWith(t, pat) {
        assert ReplaceAll(t, pat, rep)[0] == rep[0];
      } else {
        StartsWithCons(t[0], ReplaceAll(t[1..], pat, rep), q);
        ReplaceAllPrefixCopied(t[1..], pat, rep, q[1..]);
        StartsWithCons(t[0], t[1..], q);
        assert [t[0]] + t[1..] == t;
      }
    }
  }

  /**
   After the replacement no occurrence of `pat` is left, provided an
   occurrence can neither start inside an inserted `rep` (its first
   character does not occur in `rep`) nor run from copied text into one
   (the first character of `rep` does not occur in `pat`).
   */
  lemma {:induction false} ReplaceAllRemovesPattern(s: seq<char>, pat: seq<char>, rep: seq<char>)
    requires |pat| > 0 && |rep| > 0 && rep[0] !in pat && pat[0] !in rep
    ensures !Contains(ReplaceAll(s, pat, rep), pat)
    decreases |s|
  {
    if s == [] {
      assert !StartsWith([], pat);
    } else if StartsWith(s, pat) {
      var tail := ReplaceAll(s[|pat|..], pat, rep);
      ReplaceAllRemovesPattern(s[|pat|..], pat, rep);
      var out := rep + tail;
      forall k | 0 <= k <= |out| ensures !StartsWith(out[k..], pat) {
        if k < |rep| {
          assert out[k..][0] == rep[k];
        } else {
          assert out[k..] == tail[k - |rep|..];
        }
      }
    } else {
      var tail := ReplaceAll(s[1..], pat, rep);
      ReplaceAllRemovesPattern(s[1..], pat, rep);
      var out := [s[0]] + tail;
      forall k | 0 <= k <= |out| ensures !StartsWith(out[k..], pat) {
        if k == 0 {
          assert out[0..] == out;
          StartsWithCons(s[0], tail, pat);
          ReplaceAllPrefixCopied(s[1..], pat, rep, pat[1..]);
          StartsWithCons(s[0], s[1..], pat);
          assert [s[0]] + s[1..] == s;
        } else {
          assert out[k..] == tail[k - 1..];
        }
      }
    }
  }

  /** Every occurrence of `pat` leaves an occurrence of `rep` behind. */
  lemma {:induction false} ReplaceAllInsertsRep(s: seq<char>, pat: seq<char>, rep: seq<char>)
    requires |pat| > 0 && Contains(s, pat)
    ensures Contains(ReplaceAll(s, pat, rep), rep)
    decreases |s|
  {
    if StartsWith(s, pat) {
      var out := ReplaceAll(s, pat, rep);
      assert out[0..] == out && StartsWith(out, rep);
    } else {
      var k :| 0 <= k <= |s| && StartsWith(s[k..], pat);
      assert k != 0;
      assert s[1..][k - 1..] == s[k..];
      ReplaceAllInsertsRep(s[1..], pat, rep);
      ContainsPrependLeft([s[0]], ReplaceAll(s[1..], pat, rep), rep);
    }
  }

  /**
   The replacement loses no information when the input did not already
   contain `rep`: replacing `rep` by `pat` gives the input back.
   */
  lemma {:induction false} ReplaceAllRoundTrip(s: seq<char>, pat: seq<char>, rep: seq<char>)
    requires |pat| > 0 && |rep| > 0 && rep[0] !in rep[1..]
    requires !Contains(s, rep)
    ensures ReplaceAll(ReplaceAll(s, pat, rep), rep, pat) == s
    decreases |s|
  {
    if s == [] {
    } else if StartsWith(s, pat) {
      var rest := s[|pat|..];
      assert !Contains(rest, rep) by {
        forall k | 0 <= k <= |rest| ensures !StartsWith(rest[k..], rep) {
          assert rest[k..] == s[|pat| + k..];
        }
      }
      ReplaceAllRoundTrip(rest, pat, rep);
      var out := rep + ReplaceAll(rest, pat, rep);
      assert out[..|rep|] == rep;
      assert out[|rep|..] == ReplaceAll(rest, pat, rep);
      assert s == pat + rest;
    } else {
      var rest := s[1..];
      assert !Contains(rest, rep) by {
        forall k | 0 <= k <= |rest| ensures !StartsWith(rest[k..], rep) {
          assert rest[k..] == s[k + 1..];
        }
      }
      ReplaceAllRoundTrip(rest, pat, rep);
      var tail := ReplaceAll(rest, pat, rep);
      var out := [s[0]] + tail;
      assert s[0..] == s && [s[0]] + rest == s;
      StartsWithCons(s[0], tail, rep);
      ReplaceAllPrefixCopied(rest, pat, rep, rep[1..]);
      StartsWithCons(s[0], rest, rep);
      assert !StartsWith(out, rep);
      assert out[1..] == tail;
      assert s == [s[0]] + rest;
    }
  }

  /**
   The `in` test guarding the rewrite changes nothing: without an occurrence
   `str.replace` would have returned the URL as it is.
   */
  lemma RewriteHostIsReplace(url: seq<char>)
    ensures RewriteHost(url) == ReplaceAll(url, WebHost, ApiHost)
  {
    if !Contains(url, WebHost) {
      ReplaceAllAbsent(url, WebHost, ApiHost);
    }
  }

  /** Appending `.json` cannot create the web host: `.json` has no `m`, the host's last letter. */
  lemma NoWebHostAfterSuffix(r: seq<char>)
    requires !Contains(r, WebHost)
    ensures !Contains(r + JsonSuffix, WebHost)
  {
    var t := r + JsonSuffix;
    forall k | 0 <= k <= |t| ensures !StartsWith(t[k..], WebHost) {
      if k + |WebHost| <= |r| {
        assert t[k..][..|WebHost|] == r[k..][..|WebHost|];
      } else if k + |WebHost| <= |t| {
        var i := k + |WebHost| - 1 - |r|;
        assert t[k..][|WebHost| - 1] == JsonSuffix[i];
      }
    }
  }

  /** The two cases of the `.json` test, stated on the rewritten URL. */
  lemma NormalizeUrlCases(url: seq<char>)
    ensures var r := ReplaceAll(url, WebHost, ApiHost);
            (EndsWith(r, JsonSuffix) ==> NormalizeUrl(url) == r)
            && (!EndsWith(r, JsonSuffix) ==> NormalizeUrl(url) == r + JsonSuffix)
  {
    RewriteHostIsReplace(url);
  }

  /** Appending `.json` makes the text end with `.json`. */
  lemma EndsWithSuffixAppended(r: seq<char>)
    ensures EndsWith(r + JsonSuffix, JsonSuffix)
  {
    assert (r + JsonSuffix)[|r + JsonSuffix| - |JsonSuffix|..] == JsonSuffix;
  }

  /** Neither the rewritten URL nor the rewritten URL plus `.json` names the web host. */
  lemma NoWebHostEitherCase(r: seq<char>, n: seq<char>)
    requires !Contains(r, WebHost) && (n == r || n == r + JsonSuffix)
    ensures !Contains(n, WebHost)
  {
    if n != r {
      NoWebHostAfterSuffix(r);
    }
  }

  /** The two host names share neither first letter: `a` is not in the web host, `w` not in the API host. */
  lemma HostsApart()
    ensures |WebHost| > 0 && |ApiHost| > 0
    ensures ApiHost[0] !in WebHost && WebHost[0] !in ApiHost
  {
  }

  /** The normalized URL names no web host. */
  lemma NormalizeUrlNoWebHost(url: seq<char>)
    ensures !Contains(NormalizeUrl(url), WebHost)
  {
    var r := ReplaceAll(url, WebHost, ApiHost);
    NormalizeUrlCases(url);
    HostsApart();
    ReplaceAllRemovesPattern(url, WebHost, ApiHost);
    NoWebHostEitherCase(r, NormalizeUrl(url));
  }

  /**
   The normalized URL names no web host, ends with `.json`, and is the
   rewritten URL `r` either as it is (when `r` already ends with `.json`)
   or with `.json` appended once.
   */
  lemma NormalizeUrlShape(url: seq<char>)
    ensures !Contains(NormalizeUrl(url), WebHost)
    ensures EndsWith(NormalizeUrl(url), JsonSuffix)
    ensures var r := ReplaceAll(url, WebHost, ApiHost);
            (EndsWith(r, JsonSuffix) ==> NormalizeUrl(url) == r)
            && (!EndsWith(r, JsonSuffix) ==> NormalizeUrl(url) == r + JsonSuffix)
  {
    NormalizeUrlCases(url);
    NormalizeUrlNoWebHost(url);
  }

  /** A URL that mentions the web host comes out mentioning the API host. */
  lemma NormalizeUrlUsesApiHost(url: seq<char>)
    requires Contains(url, WebHost)
    ensures Contains(NormalizeUrl(url), ApiHost)
  {
    var r := ReplaceAll(url, WebHost, ApiHost);
    RewriteHostIsReplace(url);
    ReplaceAllInsertsRep(url, WebHost, ApiHost);
    if !EndsWith(r, JsonSuffix) {
      ContainsAppendRight(r, JsonSuffix, ApiHost);
    }
  }

  /** An API URL that already ends with `.json` passes through unchanged. */
  lemma NormalizeUrlKeepsApiUrl(url: seq<char>)
    requires !Contains(url, WebHost) && EndsWith(url, JsonSuffix)
    ensures NormalizeUrl(url) == url
  {
  }

  /** Normalizing twice is the same as normalizing once. */
  lemma NormalizeUrlIdempotent(url: seq<char>)
    ensures NormalizeUrl(NormalizeUrl(url)) == NormalizeUrl(url)
  {
    NormalizeUrlShape(url);
    NormalizeUrlKeepsApiUrl(NormalizeUrl(url));
  }

  /**
   For a URL that did not already contain the API host, the host rewrite
   can be undone, so the normalized URL still identifies the original one.
   */
  lemma NormalizeUrlHostRewriteInvertible(url: seq<char>)
    requires !Contains(url, ApiHost)
    ensures ReplaceAll(ReplaceAll(url, WebHost, ApiHost), ApiHost, WebHost) == url
  {
    ReplaceAllRoundTrip(url, WebHost, ApiHost);
  }
}
