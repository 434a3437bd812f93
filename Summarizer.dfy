/**
 The request body that `RedditSummarizer.summarize_text` posts to the
 summarization service: the cleaned text together with the two length
 bounds, which default to 150 and 50. The POST and its response are not
 part of this model.
 */
module Summarizer {
  import opened TextCleaner

  const DefaultMaxLength: int := 150
  const DefaultMinLength: int := 50

  /** The JSON object with keys `text`, `max_length` and `min_length`. */
  datatype Payload = Payload(text: seq<char>, maxLength: int, minLength: int)

  /**
   Lines 47-55 of app.py. The text is passed through `clean_text`, so it is
   in collapsed shape and holds the words the first two passes leave; the
   bounds are passed on as given, without any check between them.
   */
  function BuildPayload(text: seq<char>, maxLength: int := DefaultMaxLength, minLength: int := DefaultMinLength): (p: Payload)
    ensures p.maxLength == maxLength && p.minLength == minLength
    ensures Collapsed(p.text)
    ensures Split(p.text) == Split(StripMarkup(StripUrls(text)))
    ensures NonWsChars(p.text) == NonWsChars(StripMarkup(StripUrls(text)))
  {
    CleanTextShape(text);
    Payload(CleanText(text), maxLength, minLength)
  }

  /** Called with the text alone, the payload carries the cleaned text and the bounds 150 and 50. */
  lemma PayloadDefaults(text: seq<char>)
    ensures BuildPayload(text).text == CleanText(text)
    ensures BuildPayload(text).maxLength == 150 && BuildPayload(text).minLength == 50
  {
  }

  /**
   For text without U+E001, the payload contains no link, and building a
   payload from the text of an earlier payload sends the same text again.
   */
  lemma PayloadOfCleanedText(text: seq<char>, maxLength: int, minLength: int)
    requires NoDelim(text)
    ensures NoUrl(BuildPayload(text, maxLength, minLength).text)
    ensures var p := BuildPayload(text, maxLength, minLength);
            BuildPayload(p.text, maxLength, minLength) == p
  {
    CleanTextNoUrl(text);
    CleanTextIdempotent(text);
  }
}
