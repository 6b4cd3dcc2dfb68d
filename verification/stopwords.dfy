/** The stop-word filter (server/app.py:14-15, 131, 137-139): lower-case
    every token and drop those in `STOP_WORDS`. */
module StopFilter {
  import opened Strings

  /** `STOP_WORDS` (server/app.py:14-15): the empty string, which the
      tokenizer leaves between adjacent delimiters, and the English words. */
  const StopWords: set<string> := {""} + EnglishStopWords

  /** The words of `STOP_WORDS`, with abbreviations such as `"e.g"`. */
  const EnglishStopWords: set<string> := {
    "must", "ourselves", "hers", "between", "yourself", "but", "again", "there",
    "about", "once", "during", "out", "very", "having", "with", "they", "own", "an", "be",
    "some", "for", "do", "its", "yours", "such", "into", "of", "most", "itself", "other",
    "off", "is", "s", "am", "or", "who", "as", "from", "him", "each", "the", "themselves",
    "until", "below", "are", "we", "these", "your", "his", "through", "don", "nor", "me",
    "were", "her", "more", "himself", "this", "down", "should", "our", "their", "while",
    "above", "both", "up", "to", "ours", "had", "she", "all", "no", "when", "at", "any",
    "before", "them", "same", "and", "been", "have", "in", "will", "on", "does",
    "yourselves", "then", "that", "because", "what", "over", "why", "so", "can", "did",
    "not", "now", "under", "he", "you", "herself", "has", "just", "where", "too", "only",
    "myself", "which", "those", "i", "after", "few", "whom", "t", "being", "if", "theirs",
    "my", "against", "a", "by", "doing", "it", "how", "further", "was", "here", "than",
    "etc", "e.g", "ex"
  }

  /** `[word.lower() for word in rawWords]` (server/app.py:131). */
  function LowerAll(words: seq<string>): (r: seq<string>)
    ensures |r| == |words|
    ensures forall i :: 0 <= i < |words| ==> r[i] == Lower(words[i])
  {
    if |words| == 0 then [] else [Lower(words[0])] + LowerAll(words[1..])
  }

  /** The rows whose `isStopWord` flag is false, in their original order
      (server/app.py:137-139); `stops` is `STOP_WORDS`. */
  function RemoveStopWords(words: seq<string>, stops: set<string>): (r: seq<string>)
    ensures forall w :: w in r <==> w in words && w !in stops
    ensures forall w :: multiset(r)[w] == if w in stops then 0 else multiset(words)[w]
  {
    if |words| == 0 then []
    else
      var rest := RemoveStopWords(words[1..], stops);
      assert words == [words[0]] + words[1..];
      if words[0] in stops then rest else [words[0]] + rest
  }
}
