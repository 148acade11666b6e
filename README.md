# Natural message splitter

This is a Dafny model of `message_splitter.py`, the utility that turns an AI-generated reply into chat
bubbles that read like human texting. It covers the five steps of the splitter and proves what each promises:

- **Trim and short-circuit.** Blank text gives no bubble. Text whose stripped form fits in `max_chars` is one bubble.
- **Sentence segmentation** (`_split_into_sentences`):
  - Five abbreviations (`Mr.`, `Mrs.`, `Dr.`, `Ms.`, `vs.`) have their period hidden behind the `<DOT>` placeholder.
  - The text is split with the capturing pattern `([.!?]+[\s]+)`, here an explicit scanner.
  - Each segment takes back the punctuation of the separator after it.
  - The placeholder is restored, and the pieces are stripped and kept when not empty.
- **Standalone classification** (`_is_standalone_sentence`). A sentence stands alone when it is a question, a short exclamation, or one of six short phrases.
- **Greedy grouping.** A single pass accumulates sentences into the bubble being built, tests four cases in a fixed order, and routes an oversized sentence to the long-sentence splitter.
- **Long-sentence fallback** (`_split_long_sentence`). It regroups on commas when there are any, otherwise it word-wraps greedily.

`format_for_bridge` then wraps each bubble in a delivery record whose timing fields are left empty for the bridge to fill in.

Modules:

- `Text` (text.dfy): the Python string operations the splitter relies on.
  - `strip`, `rstrip` and `rstrip(",")`.
  - `split()` and `split(",")`, and `" ".join`.
  - `replace` (leftmost, non-overlapping) and ASCII `lower`.
  - Whitespace is the set of characters for which `str.isspace` holds, which is also what `\s` matches in a `str` pattern.
- `Standalone` (standalone.dfy): `_is_standalone_sentence`.
- `SentenceSplit` (sentences.dfy): `_split_into_sentences`.
  - Functions `Protect`, `ReSplit` and `Sentences` specify it.
  - The method `SplitIntoSentences` follows the source line by line. Its recombination loop is in `Recombine`.
- `LongSentence` (longsentence.dfy): `_split_long_sentence`.
  - The folds `CommaFold` and `WrapFold` specify its two loops.
  - The method `SplitLongSentence` runs those loops.
- `Splitter` (splitter.dfy): `split_into_natural_messages`.
  - The grouping loop's state is `Acc`: the bubbles sent so far and the sentences of `current_bubble`.
  - `Step` is one iteration of that loop. `Bubbles` tags each bubble as `Joined` sentences or an `Oversized` sentence.
  - `Render` turns the tagged bubbles into messages.
  - The methods `SplitIntoNaturalMessages`, `GroupSentences` and `Feed` are the source's function, its loop and the loop's body.
  - Three invariants of the fold are proved: `GoodAcc`, which says each bubble is well formed, `GreedyAcc`, which says each bubble was closed for a reason, and `BypassAcc`, which says the long-sentence splitter is used exactly when the source's test fires. `MessagesContent` ties the messages back to the text.
- `Bridge` (bridge.dfy): `format_for_bridge`.

## Model

| member | source | states |
|---|---|---|
| Text.StripEmpty | message_splitter.py:40-41 | `strip()` gives the empty string exactly when every character is whitespace. |
| Text.StripSpec | message_splitter.py:43 | `strip()` leaves no whitespace at either end and removes only whitespace. It is the identity on trimmed text. |
| Text.LStripSpec | message_splitter.py:43 | Leading-whitespace removal gives a suffix and removes only whitespace. What remains starts with a non-space. |
| Text.RStripSpec | message_splitter.py:142 | `rstrip()` gives a prefix and removes only whitespace. What remains ends with a non-space. |
| Text.RStripCharSpec | message_splitter.py:200 | `rstrip(",")` gives a prefix and removes only commas. The result does not end with a comma. |
| Text.SplitOn | message_splitter.py:194 | `split(",")` gives at least one chunk. No chunk holds a comma, and joining the chunks with commas gives back the input. |
| Text.WordsVisible | message_splitter.py:207 | The words of `split()` concatenated are exactly the non-whitespace characters of the input, in order. |
| Text.WordsOfJoin | message_splitter.py:207 | Splitting words that were joined with single spaces gives back those words. |
| Text.ReplaceAbsent | message_splitter.py:143 | `replace` of a pattern that does not occur changes nothing. |
| Standalone.IsStandalone | message_splitter.py:159-174 | A sentence stands alone exactly when its stripped form ends in `?`, or ends in `!` and is shorter than 30 characters. The phrase list adds no case. |
| Standalone.PhraseIsShortExclamation | message_splitter.py:170-171 | A text whose lower-cased form is a listed phrase is an exclamation shorter than 30 characters. |
| Standalone.PhraseShape | message_splitter.py:170 | Every short phrase ends in `!` and is shorter than 30 characters. |
| SentenceSplit.ShieldThenRestore | message_splitter.py:127-143 | Restoring the placeholder after shielding one abbreviation gives what restoring alone gives. |
| SentenceSplit.ProtectRoundTrip | message_splitter.py:127-143 | Restoring the placeholder undoes the protection, for text that did not contain `<DOT>` already. |
| SentenceSplit.ShieldClear | message_splitter.py:127-131 | Shielding an abbreviation removes every occurrence of it followed by a period. It creates no occurrence of another abbreviation with a period. |
| SentenceSplit.ProtectClears | message_splitter.py:127-131 | No `Mr.`, `Mrs.`, `Dr.`, `Ms.` or `vs.` is left for the splitter, so none of these periods can end a sentence. |
| SentenceSplit.PunctEnd | message_splitter.py:134 | The scanner's run of `[.!?]` is maximal: it stops at the end or at a character that is not `.`, `!` or `?`. |
| SentenceSplit.SpaceEnd | message_splitter.py:134 | The scanner's whitespace run is maximal. |
| SentenceSplit.SeparatorShape | message_splitter.py:134-135 | Every captured separator is a non-empty run of `.!?` followed by non-empty whitespace. |
| SentenceSplit.ReSplitSpec | message_splitter.py:134-135 | The parts concatenated give the protected text back, and every odd-indexed part is a separator. The split happens at every match:<br>- no segment holds a `.`, `!` or `?` followed by whitespace;<br>- a segment before a separator does not end with punctuation;<br>- a segment after a separator does not start with whitespace. |
| SentenceSplit.Recombine | message_splitter.py:138-146 | The loop over the parts returns the non-empty candidates, in order. Each candidate is a segment plus its separator's punctuation, restored and stripped. |
| SentenceSplit.SplitIntoSentences | message_splitter.py:112-147 | Returns the specified sentences. Every sentence is non-empty and stripped, and every sentence but the last ends in `.`, `!` or `?`. The sentences are the pieces of the protected text with the placeholder restored, and no piece holds a `.`, `!` or `?` followed by whitespace. |
| SentenceSplit.SentencesTrimmed | message_splitter.py:144-145 | Every sentence is non-empty and has no whitespace at either end. |
| SentenceSplit.PieceEndsWithPunctuation | message_splitter.py:140-143 | A segment that has a separator after it ends, once restored and stripped, with that separator's punctuation. |
| SentenceSplit.SentencesKeepPunctuation | message_splitter.py:139-146 | Every sentence but the last ends with the punctuation of its boundary. |
| SentenceSplit.SentencesKeepWholeRun | message_splitter.py:134-146 | Every sentence but the last is its segment, restored and without leading whitespace, followed by the whole punctuation run of the separator after it. The segment does not end with punctuation, so no part of the run is left behind. |
| SentenceSplit.StripRestore | message_splitter.py:143-145 | Stripping and restoring the placeholder can be done in either order. |
| SentenceSplit.SentencesCutEverywhere | message_splitter.py:127-146 | The sentences are the protected sentences with the placeholder restored. No protected sentence holds a `.`, `!` or `?` followed by whitespace, so inside a sentence only a restored abbreviation period can be followed by whitespace. |
| SentenceSplit.RestoreSplit | message_splitter.py:143 | Restoring piece by piece equals restoring the whole, when the first piece cannot end inside a placeholder. |
| SentenceSplit.NonEmptyFlatten | message_splitter.py:144-145 | Dropping the empty candidates loses no character. |
| SentenceSplit.CandidatesVisible | message_splitter.py:139-145 | The candidates, in order, hold every non-whitespace character of the restored text. |
| SentenceSplit.SentencesLossless | message_splitter.py:127-146 | Sentence splitting drops only whitespace. The sentences, in order, hold every other character of the text, abbreviation periods included. |
| LongSentence.SplitLongSentence | message_splitter.py:177-223 | Returns the specified parts. A sentence that fits is returned alone. Without commas, the parts joined with spaces equal the sentence's words joined with spaces. |
| LongSentence.WrapFoldLines | message_splitter.py:211-218 | The word loop keeps every line non-empty and within the limit, unless the line is a single word. |
| LongSentence.WrapFoldJoin | message_splitter.py:211-221 | The lines joined with single spaces equal the words joined with single spaces. |
| LongSentence.WordWrapLines | message_splitter.py:206-223 | Every word-wrap part is non-empty and within the limit, unless it is a single over-long word. |
| LongSentence.WordWrapJoin | message_splitter.py:206-223 | The word-wrap parts joined with spaces equal the sentence's words joined with spaces. |
| LongSentence.WordWrapRoundTrip | message_splitter.py:206-223 | The words of the word-wrap parts are exactly the sentence's words. |
| LongSentence.WrapFoldGreedy | message_splitter.py:211-218 | The word loop closes a line only when the next word does not fit: each closed line plus a space plus the first word of the following line is longer than the limit. |
| LongSentence.WordWrapGreedy | message_splitter.py:206-223 | The word wrap is greedy: every part but the last, plus a space, plus the first word of the next part, exceeds `max_chars`. |
| LongSentence.TrimmedShorter | message_splitter.py:200 | Closing a comma group never lengthens it. |
| LongSentence.TrimmedGroup | message_splitter.py:200-203 | A closed group is shorter than the limit unless it came from a single chunk, and then it holds no comma. |
| LongSentence.CommaFoldGroups | message_splitter.py:194-201 | The comma loop keeps every closed group shorter than the limit or comma-free. The open group is short or a single chunk. |
| LongSentence.CommaGroupsBound | message_splitter.py:191-204 | Every comma-branch part is shorter than the limit or holds no comma. |
| LongSentence.CommaGroupsContent | message_splitter.py:191-204 | The comma-branch parts keep every character of the sentence in order, except whitespace and commas. |
| LongSentence.RawCommaFoldText | message_splitter.py:194-201 | The groups as the loop builds them, before trimming, are the chunks each followed by its comma, in order. |
| LongSentence.RawCommaFoldTrimmed | message_splitter.py:194-201 | Every group the loop emits is the built group stripped and with its trailing commas removed. |
| LongSentence.RawCommaFoldGreedy | message_splitter.py:194-201 | The comma loop closes a group only when the next chunk fails the strict test: the built group, plus the next chunk, plus one, is at least `max_chars`. |
| LongSentence.CommaGroupsGreedy | message_splitter.py:191-204 | Each comma-branch part is a trimmed run of consecutive chunks. The runs cover the chunks in order, and every run but the last could not take the first chunk of the next one. |
| Splitter.SplitIntoNaturalMessages | message_splitter.py:40-109 | Returns the specified messages. Blank text gives none. Text whose stripped form fits gives exactly that stripped text. On text without the placeholder, the messages hold every character of the text except whitespace and commas, in order. |
| Splitter.GroupSentences | message_splitter.py:53-109 | The grouping loop, with the final flush, renders the bubbles of the specified accumulation. |
| Splitter.Feed | message_splitter.py:58-103 | One loop pass moves the sent messages and `current_bubble` from one accumulator state to the next. |
| Splitter.OpenGood | message_splitter.py:71-77 | A sentence that opens a bubble and is standalone is sent alone. Otherwise it starts the bubble. |
| Splitter.GrowGood | message_splitter.py:78-84 | Appending keeps the bubble within `max_chars`. A question appended closes the bubble at once. |
| Splitter.StepGood | message_splitter.py:56-103 | Every iteration keeps the invariant on all four paths:<br>- every bubble sent is well formed;<br>- the open bubble holds no question;<br>- the open bubble's first sentence is not standalone. |
| Splitter.AggregateGood | message_splitter.py:56-103 | The invariant holds after any number of sentences. |
| Splitter.BubblesGood | message_splitter.py:53-107 | Every bubble is well formed:<br>- two or more joined sentences fit in `max_chars`;<br>- a standalone first sentence is alone;<br>- only the last sentence may be a question;<br>- an oversized sentence is more than 1.5 times the limit. |
| Splitter.StepGreedy | message_splitter.py:56-103 | Every iteration keeps the greedy invariant. Each bubble sent before another had to be closed or could not take the next sentence. The last one sent had to be closed, or the first sentence of the open bubble did not fit after it. |
| Splitter.BubblesGreedy | message_splitter.py:71-103 | A bubble of joined sentences is followed by another bubble only for one of three reasons:<br>- it ends with a question;<br>- it is a standalone sentence alone;<br>- the first sentence of the next bubble would have made it longer than `max_chars`. |
| Splitter.OpenNeverMustClose | message_splitter.py:71-84 | The bubble being built never ends with a question and is never a lone standalone sentence, since both are sent at once. |
| Splitter.StepBypass | message_splitter.py:56-103 | Every iteration keeps the bypass invariant. A bubble sent without having to be closed is followed by an oversized bubble exactly when the next sentence is more than 1.5 times the limit. |
| Splitter.BubblesBypass | message_splitter.py:71-103 | The long-sentence splitter is used exactly where the source uses it. It is never used for the first bubble. A later bubble is oversized exactly when the bubble before it was closed without having to be and the new sentence is more than 1.5 times `max_chars`. |
| Splitter.StepOrder | message_splitter.py:56-103 | An iteration adds the stripped sentence, when non-empty, at the end of what the bubbles hold. |
| Splitter.AggregateOrder | message_splitter.py:56-103 | The sent and open bubbles hold the non-empty stripped sentences, in order. |
| Splitter.BubblesOrder | message_splitter.py:53-107 | The bubbles hold the non-empty stripped sentences in order, each exactly once. |
| Splitter.CleanedTrimmed | message_splitter.py:58-60 | Stripping and skipping empty sentences changes nothing on sentences that are already stripped and non-empty. |
| Splitter.LongTextBubbles | message_splitter.py:50-107 | For text over the limit, the bubbles hold exactly the text's sentences, in order, and every bubble is well formed. |
| Splitter.SplitLongContent | message_splitter.py:177-223 | The long-sentence splitter keeps every character of the sentence except whitespace and commas, in order, on both branches. |
| Splitter.MessagesContent | message_splitter.py:40-109 | For text without the placeholder, the messages concatenated hold exactly the characters of the text other than whitespace and commas, in order. |
| Bridge.FormatForBridge | message_splitter.py:254-265 | The texts of the records are exactly the messages, one record per message in order, and every record leaves both delays empty. |

## Left out

- The `__main__` demonstration block (message_splitter.py:269-296): printing and JSON output.
- The timing parameters of `format_for_bridge` (`base_typing_speed`, `first_delay`, `follow_delay`): the function never reads them, so `Bridge.FormatForBridge` does not take them. The delays are `Option<real>` and always `None`.
- Python's `text` may be `None`. The model takes a string, and `not text` is the empty-string test.
- `len(sentence) > max_chars * 1.5` is a float comparison. The model uses the equivalent integer test `2 * |s| > 3 * maxChars`.
- `lower()` is modelled on ASCII letters only. This cannot change the standalone decision: any sentence whose full Unicode lower case is a listed phrase already ends in `!` and is shorter than 30 characters, which the second test accepts.
- `max_chars` is not checked. A zero or negative limit is accepted as the source accepts it.
- The docstring example of `split_into_natural_messages` is not modelled. Its 146-character input fits in the default limit of 160, so the code returns it as one bubble. The model follows the code.
- The docstring of `_split_long_sentence` also mentions conjunctions and parentheses as break points. The code breaks only at commas or between words, and the model follows the code.
- The comma branch of `_split_long_sentence` is modelled exactly, including the empty parts it can emit and the commas it drops at group ends.
  - `LongSentence.CommaGroupsContent` therefore states preservation only up to whitespace and commas.
  - `LongSentence.CommaGroupsBound` states only "shorter than the limit, or comma-free".
- A literal `<DOT>` already in the input is turned into `.` by the restore step. `SentenceSplit.ProtectRoundTrip`, `SentenceSplit.SentencesLossless` and `Splitter.MessagesContent` therefore require the input not to contain it.
- Splitter.SplitIntoNaturalMessages: the messages are stated through the bubbles they render (`Render`). No lemma gives a message-level length bound, because the first sentence of a bubble and the comma branch can exceed `max_chars`, as the source allows. Content is kept only up to whitespace and commas (`Splitter.MessagesContent`), because the comma branch drops the comma at the end of each group.
- The word-wrap path's non-emptiness and length bound are proved. Every part of the comma path is not promised to be non-empty, because the source can emit `""` there.
