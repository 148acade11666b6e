/** `_is_standalone_sentence`: which sentences must be sent as a bubble of their own. */
module Standalone {
  import opened Text

  /** Lower-cased phrases that always stand alone. */
  const ShortPhrases: seq<string> := ["ok!", "great!", "awesome!", "perfect!", "got it!", "sounds good!"]

  /** The sentence, stripped, is a question, an exclamation shorter than 30
      characters, or one of the short phrases in any letter case. The phrase
      list adds nothing (PhraseIsShortExclamation), so a sentence stands
      alone exactly when its stripped form is a question or a short exclamation. */
  predicate IsStandalone(sentence: string): (r: bool)
    ensures r <==> EndsWith(Strip(sentence), '?')
                   || (EndsWith(Strip(sentence), '!') && |Strip(sentence)| < 30)
  {
    var s := Strip(sentence);
    PhraseIsShortExclamation(s);
    EndsWith(s, '?') || (EndsWith(s, '!') && |s| < 30) || Lower(s) in ShortPhrases
  }

  /** A text whose lower-cased form is one of the short phrases is itself an
      exclamation shorter than 30 characters. */
  lemma PhraseIsShortExclamation(s: string)
    ensures Lower(s) in ShortPhrases ==> EndsWith(s, '!') && |s| < 30
  {
    var l := Lower(s);
    if l in ShortPhrases {
      PhraseShape(l);
      assert l[|l| - 1] == LowerChar(s[|s| - 1]);
    }
  }

  /** Every short phrase is non-empty, ends in `!` and is shorter than 30 characters. */
  lemma PhraseShape(p: string)
    requires p in ShortPhrases
    ensures 0 < |p| < 30 && p[|p| - 1] == '!'
  {
    var k :| 0 <= k < |ShortPhrases| && ShortPhrases[k] == p;
  }
}
