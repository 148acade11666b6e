/** `split_into_natural_messages`: trims the text, returns it whole when it
    fits, and otherwise groups its sentences greedily into chat bubbles. */
module Splitter {
  import opened Text
  import opened Standalone
  import opened SentenceSplit
  import opened LongSentence

  /** A bubble of the result before it is rendered: sentences joined with
      single spaces, or one sentence too long to group, handed to the
      long-sentence splitter. */
  datatype Bubble = Joined(sentences: seq<string>) | Oversized(sentence: string)

  /** The state of the grouping loop: the bubbles already sent and the
      sentences of the bubble being built (none when `current_bubble` is empty). */
  datatype Acc = Acc(done: seq<Bubble>, current: seq<string>)

  /** A sentence opens a bubble: a standalone one is sent alone at once. */
  function Open(done: seq<Bubble>, s: string): Acc {
    if IsStandalone(s) then Acc(done + [Joined([s])], []) else Acc(done, [s])
  }

  /** The sentence too long to be grouped: more than one and a half times
      the limit (`len(sentence) > max_chars * 1.5`, in integers). */
  predicate TooLong(s: string, maxChars: int) {
    2 * |s| > 3 * maxChars
  }

  /** One iteration of the grouping loop, the four cases in the order the
      source tests them. */
  function Step(acc: Acc, raw: string, maxChars: int): Acc {
    var s := Strip(raw);
    if s == [] then acc
    else if acc.current == [] then Open(acc.done, s)
    else if |Join([' '], acc.current)| + |s| + 1 <= maxChars then
      var grown := acc.current + [s];
      if EndsWith(s, '?') then Acc(acc.done + [Joined(grown)], []) else Acc(acc.done, grown)
    else if TooLong(s, maxChars) then Acc(acc.done + [Joined(acc.current), Oversized(s)], [])
    else Open(acc.done + [Joined(acc.current)], s)
  }

  /** The state after the loop has visited `sentences`. */
  function Aggregate(sentences: seq<string>, maxChars: int): Acc {
    if sentences == [] then Acc([], [])
    else Step(Aggregate(sentences[..|sentences| - 1], maxChars), sentences[|sentences| - 1], maxChars)
  }

  /** The bubbles after the loop, the last open one included. */
  function Bubbles(sentences: seq<string>, maxChars: int): seq<Bubble> {
    var acc := Aggregate(sentences, maxChars);
    acc.done + (if acc.current != [] then [Joined(acc.current)] else [])
  }

  /** The messages one bubble turns into. */
  function Show(b: Bubble, maxChars: int): seq<string> {
    match b
    case Joined(ss) => [Join([' '], ss)]
    case Oversized(s) => SplitLong(s, maxChars)
  }

  /** The messages a list of bubbles turns into, in order. */
  function Render(bubbles: seq<Bubble>, maxChars: int): seq<string> {
    if bubbles == [] then []
    else Render(bubbles[..|bubbles| - 1], maxChars) + Show(bubbles[|bubbles| - 1], maxChars)
  }

  /** What `split_into_natural_messages(text, max_chars)` returns. */
  function NaturalMessages(text: string, maxChars: int): seq<string> {
    var t := Strip(text);
    if t == [] then []
    else if |t| <= maxChars then [t]
    else Render(Bubbles(Sentences(t), maxChars), maxChars)
  }

  predicate AllNonEmpty(ss: seq<string>) {
    forall k :: 0 <= k < |ss| ==> ss[k] != []
  }

  method SplitIntoNaturalMessages(text: string, maxChars: int) returns (messages: seq<string>)
    ensures messages == NaturalMessages(text, maxChars)
    ensures (forall i :: 0 <= i < |text| ==> IsSpace(text[i])) ==> messages == []
    ensures Strip(text) != [] && |Strip(text)| <= maxChars ==> messages == [Strip(text)]
    ensures Absent(text, Placeholder) ==> Content(Flatten(messages)) == Content(text)
  {
    if Absent(text, Placeholder) {
      MessagesContent(text, maxChars);
    }
    StripEmpty(text);
    if text == [] || Strip(text) == [] {
      return [];
    }
    var t := Strip(text);
    if |t| <= maxChars {
      return [t];
    }

    var sentences := SplitIntoSentences(t);
    messages := GroupSentences(sentences, maxChars);
  }

  /** The grouping loop of `split_into_natural_messages`. */
  method GroupSentences(sentences: seq<string>, maxChars: int) returns (messages: seq<string>)
    ensures messages == Render(Bubbles(sentences, maxChars), maxChars)
  {
    messages := [];
    var currentBubble := "";
    ghost var acc := Acc([], []);
    var k := 0;
    while k < |sentences|
      invariant k <= |sentences|
      invariant acc == Aggregate(sentences[..k], maxChars)
      invariant messages == Render(acc.done, maxChars)
      invariant currentBubble == Join([' '], acc.current)
      invariant AllNonEmpty(acc.current)
    {
      messages, currentBubble := Feed(messages, currentBubble, acc, sentences[k], maxChars);
      AggregateSnoc(sentences, k, maxChars);
      acc := Step(acc, sentences[k], maxChars);
      k := k + 1;
    }
    assert sentences[..k] == sentences;
    JoinEmpty(acc.current);
    if currentBubble != [] {
      messages := messages + [currentBubble];
      RenderSnoc(acc.done, Joined(acc.current), maxChars);
    } else {
      assert acc.done + [] == acc.done;
    }
  }

  /** One pass of the grouping loop's body on the sentence `raw`: the
      messages sent and the bubble being built move from `acc` to
      `Step(acc, raw, maxChars)`. */
  method Feed(messages: seq<string>, currentBubble: string, ghost acc: Acc, raw: string, maxChars: int)
    returns (messages': seq<string>, currentBubble': string)
    requires messages == Render(acc.done, maxChars)
    requires currentBubble == Join([' '], acc.current)
    requires AllNonEmpty(acc.current)
    ensures messages' == Render(Step(acc, raw, maxChars).done, maxChars)
    ensures currentBubble' == Join([' '], Step(acc, raw, maxChars).current)
    ensures AllNonEmpty(Step(acc, raw, maxChars).current)
  {
    messages', currentBubble' := messages, currentBubble;
    JoinEmpty(acc.current);
    StepCases(acc, raw, maxChars);
    var sentence := Strip(raw);
    if sentence == [] {
      return;
    }
    var wouldBe := |currentBubble| + |sentence| + (if currentBubble != [] then 1 else 0);
    if currentBubble == [] {
      currentBubble' := sentence;
      if IsStandalone(sentence) {
        RenderSnoc(acc.done, Joined([sentence]), maxChars);
        messages' := messages' + [currentBubble'];
        currentBubble' := "";
      }
    } else if wouldBe <= maxChars {
      JoinSnoc([' '], acc.current, sentence);
      currentBubble' := currentBubble' + " " + sentence;
      if EndsWith(sentence, '?') {
        RenderSnoc(acc.done, Joined(acc.current + [sentence]), maxChars);
        messages' := messages' + [currentBubble'];
        currentBubble' := "";
      }
    } else if 2 * |sentence| > 3 * maxChars {
      messages' := SendLong(messages', currentBubble', acc, sentence, maxChars);
      currentBubble' := "";
    } else {
      messages', currentBubble' := Reopen(messages', currentBubble', acc, sentence, maxChars);
    }
  }

  /** A sentence that does not fit and is oversized: the bubble being built
      is sent, then the parts of the long-sentence splitter. */
  method SendLong(messages: seq<string>, currentBubble: string, ghost acc: Acc, sentence: string, maxChars: int)
    returns (messages': seq<string>)
    requires messages == Render(acc.done, maxChars)
    requires currentBubble == Join([' '], acc.current) && currentBubble != []
    ensures messages' == Render(acc.done + [Joined(acc.current), Oversized(sentence)], maxChars)
  {
    RenderSnoc(acc.done, Joined(acc.current), maxChars);
    messages' := messages + [currentBubble];
    var longParts := SplitLongSentence(sentence, maxChars);
    RenderSnoc(acc.done + [Joined(acc.current)], Oversized(sentence), maxChars);
    assert acc.done + [Joined(acc.current), Oversized(sentence)] ==
           (acc.done + [Joined(acc.current)]) + [Oversized(sentence)];
    messages' := messages' + longParts;
  }

  /** A sentence that does not fit and is not oversized: the bubble being
      built is sent and the sentence opens the next one. */
  method Reopen(messages: seq<string>, currentBubble: string, ghost acc: Acc, sentence: string, maxChars: int)
    returns (messages': seq<string>, currentBubble': string)
    requires messages == Render(acc.done, maxChars)
    requires currentBubble == Join([' '], acc.current) && currentBubble != []
    requires sentence != []
    ensures var next := Open(acc.done + [Joined(acc.current)], sentence);
      messages' == Render(next.done, maxChars) && currentBubble' == Join([' '], next.current)
      && AllNonEmpty(next.current)
  {
    RenderSnoc(acc.done, Joined(acc.current), maxChars);
    messages' := messages + [currentBubble];
    currentBubble' := sentence;
    if IsStandalone(sentence) {
      RenderSnoc(acc.done + [Joined(acc.current)], Joined([sentence]), maxChars);
      messages' := messages' + [currentBubble'];
      currentBubble' := "";
    }
  }

  // The value of `Step` on each of its paths, one lemma per path.

  lemma StepSkip(acc: Acc, raw: string, maxChars: int)
    requires Strip(raw) == []
    ensures Step(acc, raw, maxChars) == acc
  {
  }

  lemma StepOpen(acc: Acc, raw: string, maxChars: int)
    requires Strip(raw) != [] && acc.current == []
    ensures Step(acc, raw, maxChars) == Open(acc.done, Strip(raw))
  {
  }

  lemma StepGrow(acc: Acc, raw: string, maxChars: int)
    requires Strip(raw) != [] && acc.current != []
    requires |Join([' '], acc.current)| + |Strip(raw)| + 1 <= maxChars
    ensures var grown := acc.current + [Strip(raw)];
      Step(acc, raw, maxChars) ==
        if EndsWith(Strip(raw), '?') then Acc(acc.done + [Joined(grown)], []) else Acc(acc.done, grown)
  {
  }

  lemma StepLong(acc: Acc, raw: string, maxChars: int)
    requires Strip(raw) != [] && acc.current != []
    requires |Join([' '], acc.current)| + |Strip(raw)| + 1 > maxChars && TooLong(Strip(raw), maxChars)
    ensures Step(acc, raw, maxChars) == Acc(acc.done + [Joined(acc.current), Oversized(Strip(raw))], [])
  {
  }

  lemma StepReopen(acc: Acc, raw: string, maxChars: int)
    requires Strip(raw) != [] && acc.current != []
    requires |Join([' '], acc.current)| + |Strip(raw)| + 1 > maxChars && !TooLong(Strip(raw), maxChars)
    ensures Step(acc, raw, maxChars) == Open(acc.done + [Joined(acc.current)], Strip(raw))
  {
  }

  /** The five paths of `Step` together. */
  lemma StepCases(acc: Acc, raw: string, maxChars: int)
    ensures Strip(raw) == [] ==> Step(acc, raw, maxChars) == acc
    ensures Strip(raw) != [] && acc.current == [] ==>
              Step(acc, raw, maxChars) == Open(acc.done, Strip(raw))
    ensures Strip(raw) != [] && acc.current != [] &&
            |Join([' '], acc.current)| + |Strip(raw)| + 1 <= maxChars ==>
              Step(acc, raw, maxChars) ==
                (if EndsWith(Strip(raw), '?') then Acc(acc.done + [Joined(acc.current + [Strip(raw)])], [])
                 else Acc(acc.done, acc.current + [Strip(raw)]))
    ensures Strip(raw) != [] && acc.current != [] &&
            |Join([' '], acc.current)| + |Strip(raw)| + 1 > maxChars && TooLong(Strip(raw), maxChars) ==>
              Step(acc, raw, maxChars) ==
                Acc(acc.done + [Joined(acc.current), Oversized(Strip(raw))], [])
    ensures Strip(raw) != [] && acc.current != [] &&
            |Join([' '], acc.current)| + |Strip(raw)| + 1 > maxChars && !TooLong(Strip(raw), maxChars) ==>
              Step(acc, raw, maxChars) == Open(acc.done + [Joined(acc.current)], Strip(raw))
  {
    var s := Strip(raw);
    if s == [] {
      StepSkip(acc, raw, maxChars);
    } else if acc.current == [] {
      StepOpen(acc, raw, maxChars);
    } else if |Join([' '], acc.current)| + |s| + 1 <= maxChars {
      StepGrow(acc, raw, maxChars);
    } else if TooLong(s, maxChars) {
      StepLong(acc, raw, maxChars);
    } else {
      StepReopen(acc, raw, maxChars);
    }
  }

  lemma AggregateSnoc(sentences: seq<string>, k: nat, maxChars: int)
    requires k < |sentences|
    ensures Aggregate(sentences[..k + 1], maxChars) ==
            Step(Aggregate(sentences[..k], maxChars), sentences[k], maxChars)
  {
    assert sentences[..k + 1][..k] == sentences[..k];
  }

  lemma RenderSnoc(bubbles: seq<Bubble>, b: Bubble, maxChars: int)
    ensures Render(bubbles + [b], maxChars) == Render(bubbles, maxChars) + Show(b, maxChars)
  {
    assert (bubbles + [b])[..|bubbles|] == bubbles;
  }

  /** Joining non-empty strings gives the empty string only for no strings. */
  lemma JoinEmpty(ss: seq<string>)
    requires AllNonEmpty(ss)
    ensures Join([' '], ss) == [] <==> ss == []
  {
    if |ss| > 1 {
      var n := |ss|;
      assert Join([' '], ss) == Join([' '], ss[..n - 1]) + [' '] + ss[n - 1];
    }
  }

  // ---------------------------------------------------------------------
  // What the grouping promises of every bubble
  // ---------------------------------------------------------------------

  /** A joined bubble holds stripped non-empty sentences; two or more of
      them fit in `maxChars` together; a standalone first sentence is alone;
      only the last sentence may be a question. A sentence handed to the
      long-sentence splitter is more than one and a half times the limit. */
  predicate GoodBubble(b: Bubble, maxChars: int) {
    match b
    case Joined(ss) =>
      ss != [] && AllTrimmed(ss)
      && (|ss| >= 2 ==> |Join([' '], ss)| <= maxChars)
      && (IsStandalone(ss[0]) ==> |ss| == 1)
      && (forall k :: 0 <= k < |ss| - 1 ==> !EndsWith(ss[k], '?'))
    case Oversized(s) => s != [] && IsTrimmed(s) && TooLong(s, maxChars)
  }

  predicate GoodBubbles(bubbles: seq<Bubble>, maxChars: int) {
    forall k :: 0 <= k < |bubbles| ==> GoodBubble(bubbles[k], maxChars)
  }

  /** The loop invariant on the grouping state: the bubble being built is
      well formed and holds no question, and its first sentence is not standalone. */
  predicate GoodAcc(acc: Acc, maxChars: int) {
    GoodBubbles(acc.done, maxChars) && AllTrimmed(acc.current)
    && (|acc.current| >= 2 ==> |Join([' '], acc.current)| <= maxChars)
    && (acc.current != [] ==> !IsStandalone(acc.current[0]))
    && (forall k :: 0 <= k < |acc.current| ==> !EndsWith(acc.current[k], '?'))
  }

  lemma GoodBubblesSnoc(bubbles: seq<Bubble>, b: Bubble, maxChars: int)
    requires GoodBubbles(bubbles, maxChars) && GoodBubble(b, maxChars)
    ensures GoodBubbles(bubbles + [b], maxChars)
  {
    assert forall k :: 0 <= k < |bubbles| ==> (bubbles + [b])[k] == bubbles[k];
  }

  /** A stripped sentence that is not standalone is no question. */
  lemma NotStandaloneNoQuestion(s: string)
    requires IsTrimmed(s) && !IsStandalone(s)
    ensures !EndsWith(s, '?')
  {
    StripSpec(s);
  }

  /** Opening a bubble with a stripped sentence keeps the invariant. */
  lemma OpenGood(done: seq<Bubble>, s: string, maxChars: int)
    requires GoodBubbles(done, maxChars) && s != [] && IsTrimmed(s)
    ensures GoodAcc(Open(done, s), maxChars)
  {
    if IsStandalone(s) {
      GoodBubblesSnoc(done, Joined([s]), maxChars);
    } else {
      NotStandaloneNoQuestion(s);
    }
  }

  /** A sentence added to the bubble being built keeps the invariant. */
  lemma GrowGood(acc: Acc, s: string, maxChars: int)
    requires GoodAcc(acc, maxChars) && acc.current != [] && s != [] && IsTrimmed(s)
    requires |Join([' '], acc.current)| + |s| + 1 <= maxChars
    ensures var grown := acc.current + [s];
      GoodAcc(if EndsWith(s, '?') then Acc(acc.done + [Joined(grown)], []) else Acc(acc.done, grown), maxChars)
  {
    var grown := acc.current + [s];
    JoinSnoc([' '], acc.current, s);
    assert grown[0] == acc.current[0];
    assert forall k :: 0 <= k < |acc.current| ==> grown[k] == acc.current[k];
    if EndsWith(s, '?') {
      assert GoodBubble(Joined(grown), maxChars);
      GoodBubblesSnoc(acc.done, Joined(grown), maxChars);
    }
  }

  /** Every iteration of the grouping loop keeps the invariant. */
  lemma StepGood(acc: Acc, raw: string, maxChars: int)
    requires GoodAcc(acc, maxChars)
    ensures GoodAcc(Step(acc, raw, maxChars), maxChars)
  {
    var s := Strip(raw);
    StripSpec(raw);
    if s == [] {
      StepSkip(acc, raw, maxChars);
    } else if acc.current == [] {
      StepOpen(acc, raw, maxChars);
      OpenGood(acc.done, s, maxChars);
    } else if |Join([' '], acc.current)| + |s| + 1 <= maxChars {
      StepGrow(acc, raw, maxChars);
      GrowGood(acc, s, maxChars);
    } else {
      assert GoodBubble(Joined(acc.current), maxChars);
      GoodBubblesSnoc(acc.done, Joined(acc.current), maxChars);
      if TooLong(s, maxChars) {
        StepLong(acc, raw, maxChars);
        GoodBubblesSnoc(acc.done + [Joined(acc.current)], Oversized(s), maxChars);
        assert acc.done + [Joined(acc.current), Oversized(s)] ==
               (acc.done + [Joined(acc.current)]) + [Oversized(s)];
      } else {
        StepReopen(acc, raw, maxChars);
        OpenGood(acc.done + [Joined(acc.current)], s, maxChars);
      }
    }
  }

  lemma {:induction false} AggregateGood(sentences: seq<string>, maxChars: int)
    ensures GoodAcc(Aggregate(sentences, maxChars), maxChars)
    decreases |sentences|
  {
    if sentences != [] {
      AggregateGood(sentences[..|sentences| - 1], maxChars);
      StepGood(Aggregate(sentences[..|sentences| - 1], maxChars), sentences[|sentences| - 1], maxChars);
    }
  }

  /** Every bubble the grouping produces, the last open one included, is well formed. */
  lemma BubblesGood(sentences: seq<string>, maxChars: int)
    ensures GoodBubbles(Bubbles(sentences, maxChars), maxChars)
  {
    var acc := Aggregate(sentences, maxChars);
    AggregateGood(sentences, maxChars);
    if acc.current != [] {
      GoodBubblesSnoc(acc.done, Joined(acc.current), maxChars);
    } else {
      assert acc.done + [] == acc.done;
    }
  }

  // ---------------------------------------------------------------------
  // The grouping closes a bubble only when it must
  // ---------------------------------------------------------------------

  /** The first sentence of a bubble. */
  function First(b: Bubble): string {
    match b
    case Joined(ss) => if ss == [] then [] else ss[0]
    case Oversized(s) => s
  }

  /** A bubble that has to be closed whatever follows: it ends with a
      question, or it is a standalone sentence alone. */
  predicate MustClose(ss: seq<string>) {
    ss != [] && (EndsWith(ss[|ss| - 1], '?') || (|ss| == 1 && IsStandalone(ss[0])))
  }

  /** The sentence `s` does not fit after the joined sentences `ss`. */
  predicate Overflows(ss: seq<string>, s: string, maxChars: int) {
    |Join([' '], ss)| + |s| + 1 > maxChars
  }

  /** A joined bubble followed by `next` was closed for a reason: it had to
      be, or the first sentence of `next` did not fit after it. */
  predicate ClosedBefore(b: Bubble, next: Bubble, maxChars: int) {
    b.Joined? ==> MustClose(b.sentences) || (b.sentences != [] && Overflows(b.sentences, First(next), maxChars))
  }

  predicate ClosedChain(bubbles: seq<Bubble>, maxChars: int) {
    forall k :: 0 <= k < |bubbles| - 1 ==> ClosedBefore(bubbles[k], bubbles[k + 1], maxChars)
  }

  /** The grouping state closes greedily: every bubble sent before another
      was closed for a reason, and the last one sent had to be closed or the
      first sentence of the bubble being built did not fit after it. */
  predicate GreedyAcc(acc: Acc, maxChars: int) {
    ClosedChain(acc.done, maxChars)
    && (acc.done != [] && acc.done[|acc.done| - 1].Joined? ==>
          var ss := acc.done[|acc.done| - 1].sentences;
          MustClose(ss) || (ss != [] && acc.current != [] && Overflows(ss, acc.current[0], maxChars)))
  }

  lemma ClosedChainSnoc(bubbles: seq<Bubble>, b: Bubble, maxChars: int)
    requires ClosedChain(bubbles, maxChars)
    requires bubbles != [] ==> ClosedBefore(bubbles[|bubbles| - 1], b, maxChars)
    ensures ClosedChain(bubbles + [b], maxChars)
  {
    var bs := bubbles + [b];
    forall k | 0 <= k < |bs| - 1
      ensures ClosedBefore(bs[k], bs[k + 1], maxChars)
    {
      if k < |bubbles| - 1 {
        assert bs[k] == bubbles[k] && bs[k + 1] == bubbles[k + 1];
      }
    }
  }

  /** A sentence opening a bubble keeps the state greedy, when the last
      bubble sent had to be closed or the sentence does not fit after it. */
  lemma OpenGreedy(done: seq<Bubble>, s: string, maxChars: int)
    requires ClosedChain(done, maxChars)
    requires done != [] && done[|done| - 1].Joined? ==>
      var ss := done[|done| - 1].sentences;
      MustClose(ss) || (ss != [] && Overflows(ss, s, maxChars))
    ensures GreedyAcc(Open(done, s), maxChars)
  {
    if IsStandalone(s) {
      ClosedChainSnoc(done, Joined([s]), maxChars);
      assert MustClose([s]);
    }
  }

  /** Closing the bubble being built keeps the chain of reasons. */
  lemma CloseGreedy(acc: Acc, maxChars: int)
    requires GreedyAcc(acc, maxChars) && acc.current != []
    ensures ClosedChain(acc.done + [Joined(acc.current)], maxChars)
  {
    ClosedChainSnoc(acc.done, Joined(acc.current), maxChars);
  }

  /** Every iteration of the grouping loop keeps the state greedy. */
  lemma StepGreedy(acc: Acc, raw: string, maxChars: int)
    requires GreedyAcc(acc, maxChars)
    ensures GreedyAcc(Step(acc, raw, maxChars), maxChars)
  {
    var s := Strip(raw);
    if s == [] {
      StepSkip(acc, raw, maxChars);
    } else if acc.current == [] {
      StepOpen(acc, raw, maxChars);
      OpenGreedy(acc.done, s, maxChars);
    } else if |Join([' '], acc.current)| + |s| + 1 <= maxChars {
      StepGrow(acc, raw, maxChars);
      var grown := acc.current + [s];
      assert grown[0] == acc.current[0];
      if EndsWith(s, '?') {
        CloseGreedy(Acc(acc.done, grown), maxChars);
        assert MustClose(grown);
      }
    } else {
      var done1 := acc.done + [Joined(acc.current)];
      CloseGreedy(acc, maxChars);
      assert Overflows(acc.current, s, maxChars);
      if TooLong(s, maxChars) {
        StepLong(acc, raw, maxChars);
        ClosedChainSnoc(done1, Oversized(s), maxChars);
        assert acc.done + [Joined(acc.current), Oversized(s)] == done1 + [Oversized(s)];
      } else {
        StepReopen(acc, raw, maxChars);
        OpenGreedy(done1, s, maxChars);
      }
    }
  }

  lemma {:induction false} AggregateGreedy(sentences: seq<string>, maxChars: int)
    ensures GreedyAcc(Aggregate(sentences, maxChars), maxChars)
    decreases |sentences|
  {
    if sentences != [] {
      AggregateGreedy(sentences[..|sentences| - 1], maxChars);
      StepGreedy(Aggregate(sentences[..|sentences| - 1], maxChars), sentences[|sentences| - 1], maxChars);
    }
  }

  /** The grouping is greedy: a bubble of joined sentences that is followed
      by another bubble ends with a question, is a standalone sentence
      alone, or could not take the first sentence of the next bubble
      without exceeding `maxChars`. */
  lemma BubblesGreedy(sentences: seq<string>, maxChars: int)
    ensures var bubbles := Bubbles(sentences, maxChars);
      forall k :: 0 <= k < |bubbles| - 1 ==> ClosedBefore(bubbles[k], bubbles[k + 1], maxChars)
  {
    var acc := Aggregate(sentences, maxChars);
    AggregateGreedy(sentences, maxChars);
    if acc.current != [] {
      CloseGreedy(acc, maxChars);
    } else {
      assert acc.done + [] == acc.done;
    }
  }

  // ---------------------------------------------------------------------
  // The long-sentence bypass fires exactly when the source's test does
  // ---------------------------------------------------------------------

  /** The bubble being built never has to be closed: a question or a
      standalone opener would have been sent at once. */
  lemma OpenNeverMustClose(acc: Acc, maxChars: int)
    requires GoodAcc(acc, maxChars)
    ensures !MustClose(acc.current)
  {
    if acc.current != [] {
      assert !EndsWith(acc.current[|acc.current| - 1], '?');
    }
  }

  /** The bubble after `b` is handed to the long-sentence splitter exactly
      when `b` was closed without having to be (so because the next sentence
      did not fit) and that next sentence is more than one and a half times
      the limit. */
  predicate BypassBefore(b: Bubble, next: Bubble, maxChars: int) {
    next.Oversized? <==> (b.Joined? && !MustClose(b.sentences) && TooLong(First(next), maxChars))
  }

  /** The first bubble is never oversized, and every later one is oversized
      exactly as `BypassBefore` says. */
  predicate BypassChain(bubbles: seq<Bubble>, maxChars: int) {
    (bubbles != [] ==> bubbles[0].Joined?)
    && forall k :: 0 <= k < |bubbles| - 1 ==> BypassBefore(bubbles[k], bubbles[k + 1], maxChars)
  }

  /** A joined bubble sent without having to be closed. */
  predicate LeftOpen(b: Bubble) {
    b.Joined? && !MustClose(b.sentences)
  }

  /** The grouping state keeps the bypass chain, and a last bubble sent
      without having to be closed is followed by the bubble being built,
      whose first sentence is not too long. */
  predicate BypassAcc(acc: Acc, maxChars: int) {
    BypassChain(acc.done, maxChars)
    && (acc.done != [] && LeftOpen(acc.done[|acc.done| - 1]) ==>
          acc.current != [] && !TooLong(acc.current[0], maxChars))
  }

  lemma BypassChainSnoc(bubbles: seq<Bubble>, b: Bubble, maxChars: int)
    requires BypassChain(bubbles, maxChars)
    requires bubbles == [] ==> b.Joined?
    requires bubbles != [] ==> BypassBefore(bubbles[|bubbles| - 1], b, maxChars)
    ensures BypassChain(bubbles + [b], maxChars)
  {
    var bs := bubbles + [b];
    forall k | 0 <= k < |bs| - 1
      ensures BypassBefore(bs[k], bs[k + 1], maxChars)
    {
      if k < |bubbles| - 1 {
        assert bs[k] == bubbles[k] && bs[k + 1] == bubbles[k + 1];
      }
    }
  }

  /** Sending the bubble being built keeps the chain: it comes after a last
      bubble left open only with a first sentence that is not too long. */
  lemma CloseBypass(acc: Acc, maxChars: int)
    requires BypassAcc(acc, maxChars) && acc.current != []
    ensures BypassChain(acc.done + [Joined(acc.current)], maxChars)
  {
    BypassChainSnoc(acc.done, Joined(acc.current), maxChars);
  }

  /** A sentence that is not too long opening a bubble keeps the state,
      when the last bubble sent is not left open or the sentence follows it. */
  lemma OpenBypass(done: seq<Bubble>, s: string, maxChars: int)
    requires BypassChain(done, maxChars)
    requires done != [] && LeftOpen(done[|done| - 1]) ==> !TooLong(s, maxChars)
    ensures BypassAcc(Open(done, s), maxChars)
  {
    if IsStandalone(s) {
      BypassChainSnoc(done, Joined([s]), maxChars);
      assert MustClose([s]);
    }
  }

  /** A sentence opening a bubble with nothing being built keeps the state. */
  lemma OpenFreshBypass(acc: Acc, raw: string, maxChars: int)
    requires BypassAcc(acc, maxChars)
    requires Strip(raw) != [] && acc.current == []
    ensures BypassAcc(Step(acc, raw, maxChars), maxChars)
  {
    StepOpen(acc, raw, maxChars);
    OpenBypass(acc.done, Strip(raw), maxChars);
  }

  /** A sentence that fits joins the bubble being built and keeps the state. */
  lemma GrowBypass(acc: Acc, raw: string, maxChars: int)
    requires BypassAcc(acc, maxChars)
    requires Strip(raw) != [] && acc.current != []
    requires |Join([' '], acc.current)| + |Strip(raw)| + 1 <= maxChars
    ensures BypassAcc(Step(acc, raw, maxChars), maxChars)
  {
    StepGrow(acc, raw, maxChars);
    var grown := acc.current + [Strip(raw)];
    assert grown[0] == acc.current[0];
    if EndsWith(Strip(raw), '?') {
      BypassChainSnoc(acc.done, Joined(grown), maxChars);
      assert MustClose(grown);
    }
  }

  /** A sentence that does not fit sends the bubble being built, which did
      not have to be closed, and is then bypassed exactly when it is too long. */
  lemma OverflowBypass(acc: Acc, raw: string, maxChars: int)
    requires BypassAcc(acc, maxChars) && GoodAcc(acc, maxChars)
    requires Strip(raw) != [] && acc.current != []
    requires |Join([' '], acc.current)| + |Strip(raw)| + 1 > maxChars
    ensures BypassAcc(Step(acc, raw, maxChars), maxChars)
  {
    var s := Strip(raw);
    var done1 := acc.done + [Joined(acc.current)];
    CloseBypass(acc, maxChars);
    OpenNeverMustClose(acc, maxChars);
    assert LeftOpen(done1[|done1| - 1]);
    if TooLong(s, maxChars) {
      StepLong(acc, raw, maxChars);
      BypassChainSnoc(done1, Oversized(s), maxChars);
      assert acc.done + [Joined(acc.current), Oversized(s)] == done1 + [Oversized(s)];
    } else {
      StepReopen(acc, raw, maxChars);
      OpenBypass(done1, s, maxChars);
    }
  }

  /** Every iteration of the grouping loop keeps the bypass state. */
  lemma StepBypass(acc: Acc, raw: string, maxChars: int)
    requires BypassAcc(acc, maxChars) && GoodAcc(acc, maxChars)
    ensures BypassAcc(Step(acc, raw, maxChars), maxChars)
  {
    var s := Strip(raw);
    if s == [] {
      StepSkip(acc, raw, maxChars);
    } else if acc.current == [] {
      OpenFreshBypass(acc, raw, maxChars);
    } else if |Join([' '], acc.current)| + |s| + 1 <= maxChars {
      GrowBypass(acc, raw, maxChars);
    } else {
      OverflowBypass(acc, raw, maxChars);
    }
  }

  lemma {:induction false} AggregateBypass(sentences: seq<string>, maxChars: int)
    ensures BypassAcc(Aggregate(sentences, maxChars), maxChars)
    decreases |sentences|
  {
    if sentences != [] {
      var init := sentences[..|sentences| - 1];
      AggregateBypass(init, maxChars);
      AggregateGood(init, maxChars);
      StepBypass(Aggregate(init, maxChars), sentences[|sentences| - 1], maxChars);
    }
  }

  /** The long-sentence splitter is used exactly where the source uses it:
      never for the first bubble, and for the bubble after another exactly
      when that one was closed without having to be (its successor did not
      fit) and the successor's sentence is more than one and a half times
      `maxChars`. */
  lemma BubblesBypass(sentences: seq<string>, maxChars: int)
    ensures BypassChain(Bubbles(sentences, maxChars), maxChars)
  {
    var acc := Aggregate(sentences, maxChars);
    AggregateBypass(sentences, maxChars);
    if acc.current != [] {
      CloseBypass(acc, maxChars);
    } else {
      assert acc.done + [] == acc.done;
    }
  }

  // ---------------------------------------------------------------------
  // The grouping keeps every sentence, in order
  // ---------------------------------------------------------------------

  /** The sentences a bubble holds. */
  function BubbleSentences(b: Bubble): seq<string> {
    match b
    case Joined(ss) => ss
    case Oversized(s) => [s]
  }

  /** The sentences of a list of bubbles, in order. */
  function Expand(bubbles: seq<Bubble>): seq<string> {
    if bubbles == [] then []
    else Expand(bubbles[..|bubbles| - 1]) + BubbleSentences(bubbles[|bubbles| - 1])
  }

  /** The input sentences, stripped, with the empty ones dropped. */
  function Cleaned(sentences: seq<string>): seq<string> {
    if sentences == [] then []
    else
      var s := Strip(sentences[|sentences| - 1]);
      Cleaned(sentences[..|sentences| - 1]) + (if s != [] then [s] else [])
  }

  lemma ExpandSnoc(bubbles: seq<Bubble>, b: Bubble)
    ensures Expand(bubbles + [b]) == Expand(bubbles) + BubbleSentences(b)
  {
    assert (bubbles + [b])[..|bubbles|] == bubbles;
  }

  /** The sentences the state holds: those of the bubbles sent, then those
      of the bubble being built. */
  function AccHeld(acc: Acc): seq<string> {
    Expand(acc.done) + acc.current
  }

  /** A sentence opening a bubble is held after everything held before. */
  lemma OpenOrder(done: seq<Bubble>, s: string)
    ensures AccHeld(Open(done, s)) == Expand(done) + [s]
  {
    if IsStandalone(s) {
      ExpandSnoc(done, Joined([s]));
      assert Expand(done + [Joined([s])]) + [] == Expand(done) + [s];
    }
  }

  /** Closing the bubble being built keeps what is held. */
  lemma CloseOrder(acc: Acc)
    ensures Expand(acc.done + [Joined(acc.current)]) == AccHeld(acc)
  {
    ExpandSnoc(acc.done, Joined(acc.current));
  }

  /** The sentences held by the state grow by the stripped sentence, if any. */
  lemma StepOrder(acc: Acc, raw: string, maxChars: int)
    ensures AccHeld(Step(acc, raw, maxChars)) ==
            AccHeld(acc) + (if Strip(raw) != [] then [Strip(raw)] else [])
  {
    var s := Strip(raw);
    if s == [] {
      StepSkip(acc, raw, maxChars);
      assert AccHeld(acc) + [] == AccHeld(acc);
    } else if acc.current == [] {
      StepOpen(acc, raw, maxChars);
      OpenOrder(acc.done, s);
      assert AccHeld(acc) == Expand(acc.done) + [];
    } else if |Join([' '], acc.current)| + |s| + 1 <= maxChars {
      StepGrow(acc, raw, maxChars);
      var grown := acc.current + [s];
      assert AccHeld(acc) + [s] == Expand(acc.done) + grown;
      if EndsWith(s, '?') {
        CloseOrder(Acc(acc.done, grown));
        assert Expand(acc.done + [Joined(grown)]) + [] == Expand(acc.done + [Joined(grown)]);
      }
    } else {
      var done1 := acc.done + [Joined(acc.current)];
      CloseOrder(acc);
      if TooLong(s, maxChars) {
        StepLong(acc, raw, maxChars);
        ExpandSnoc(done1, Oversized(s));
        assert acc.done + [Joined(acc.current), Oversized(s)] == done1 + [Oversized(s)];
        assert Expand(done1 + [Oversized(s)]) + [] == Expand(done1 + [Oversized(s)]);
      } else {
        StepReopen(acc, raw, maxChars);
        OpenOrder(done1, s);
      }
    }
  }

  lemma {:induction false} AggregateOrder(sentences: seq<string>, maxChars: int)
    ensures AccHeld(Aggregate(sentences, maxChars)) == Cleaned(sentences)
    decreases |sentences|
  {
    if sentences != [] {
      var init := sentences[..|sentences| - 1];
      AggregateOrder(init, maxChars);
      StepOrder(Aggregate(init, maxChars), sentences[|sentences| - 1], maxChars);
    }
  }

  /** The bubbles hold exactly the non-empty stripped sentences, in their order. */
  lemma BubblesOrder(sentences: seq<string>, maxChars: int)
    ensures Expand(Bubbles(sentences, maxChars)) == Cleaned(sentences)
  {
    var acc := Aggregate(sentences, maxChars);
    AggregateOrder(sentences, maxChars);
    if acc.current != [] {
      ExpandSnoc(acc.done, Joined(acc.current));
    } else {
      assert acc.done + [] == acc.done;
    }
  }

  /** Sentences already stripped and non-empty pass through unchanged. */
  lemma {:induction false} CleanedTrimmed(sentences: seq<string>)
    requires AllTrimmed(sentences)
    ensures Cleaned(sentences) == sentences
    decreases |sentences|
  {
    if sentences != [] {
      var n := |sentences|;
      assert AllTrimmed(sentences[..n - 1]);
      CleanedTrimmed(sentences[..n - 1]);
      StripSpec(sentences[n - 1]);
      assert sentences[..n - 1] + [sentences[n - 1]] == sentences;
    }
  }

  /** On a text longer than the limit, the bubbles hold the text's sentences
      in order, each exactly once, and every bubble is well formed. */
  lemma LongTextBubbles(text: string, maxChars: int)
    ensures var sentences := Sentences(Strip(text));
      var bubbles := Bubbles(sentences, maxChars);
      Expand(bubbles) == sentences && GoodBubbles(bubbles, maxChars)
  {
    var sentences := Sentences(Strip(text));
    SentencesTrimmed(Strip(text));
    CleanedTrimmed(sentences);
    BubblesOrder(sentences, maxChars);
    BubblesGood(sentences, maxChars);
  }

  // ---------------------------------------------------------------------
  // The messages keep the text
  // ---------------------------------------------------------------------

  /** Content ignores whitespace, so stripping keeps it. */
  lemma StripContent(x: string)
    ensures Content(Strip(x)) == Content(x)
  {
    StripSpec(x);
    KeepVisible(Strip(x));
    KeepVisible(x);
  }

  /** Joining with single spaces adds no content. */
  lemma {:induction false} ContentJoinSpaces(ss: seq<string>)
    ensures Content(Join([' '], ss)) == Content(Flatten(ss))
    decreases |ss|
  {
    if |ss| == 1 {
      FlattenSingle(ss[0]);
      assert [ss[0]] == ss;
    } else if |ss| > 1 {
      var init, last := ss[..|ss| - 1], ss[|ss| - 1];
      ContentJoinSpaces(init);
      assert ss == init + [last];
      FlattenSnoc(init, last);
      KeepConcat(Join([' '], init) + [' '], last, true);
      KeepConcat(Join([' '], init), [' '], true);
      assert Keep([' '], true) == [] by {
        assert [' '][1..] == [];
      }
      KeepConcat(Flatten(init), last, true);
    }
  }

  /** The word-wrap parts hold the content of the sentence. */
  lemma WordWrapContent(s: string, maxChars: int)
    ensures Content(Flatten(WordWrap(s, maxChars))) == Content(s)
  {
    WordWrapJoin(s, maxChars);
    ContentJoinSpaces(WordWrap(s, maxChars));
    ContentJoinSpaces(Words(s));
    WordsVisible(s);
    KeepVisible(s);
  }

  /** The long-sentence splitter loses nothing but whitespace and commas. */
  lemma SplitLongContent(s: string, maxChars: int)
    ensures Content(Flatten(SplitLong(s, maxChars))) == Content(s)
  {
    if |s| <= maxChars {
      FlattenSingle(s);
    } else if ',' in s {
      CommaGroupsContent(s, maxChars);
    } else {
      WordWrapContent(s, maxChars);
    }
  }

  /** A bubble's messages hold the content of its sentences. */
  lemma ShowContent(b: Bubble, maxChars: int)
    ensures Content(Flatten(Show(b, maxChars))) == Content(Flatten(BubbleSentences(b)))
  {
    match b
    case Joined(ss) =>
      FlattenSingle(Join([' '], ss));
      ContentJoinSpaces(ss);
    case Oversized(x) =>
      SplitLongContent(x, maxChars);
      FlattenSingle(x);
  }

  /** The rendered messages hold the content of the bubbles' sentences, in order. */
  lemma {:induction false} RenderContent(bubbles: seq<Bubble>, maxChars: int)
    ensures Content(Flatten(Render(bubbles, maxChars))) == Content(Flatten(Expand(bubbles)))
    decreases |bubbles|
  {
    if bubbles != [] {
      var init, b := bubbles[..|bubbles| - 1], bubbles[|bubbles| - 1];
      RenderContent(init, maxChars);
      ShowContent(b, maxChars);
      FlattenConcat(Render(init, maxChars), Show(b, maxChars));
      FlattenConcat(Expand(init), BubbleSentences(b));
      KeepConcat(Flatten(Render(init, maxChars)), Flatten(Show(b, maxChars)), true);
      KeepConcat(Flatten(Expand(init)), Flatten(BubbleSentences(b)), true);
    }
  }

  /** A pattern absent from a text is absent from any slice of it. */
  lemma AbsentSlice(s: string, w: string, a: nat, b: nat)
    requires a <= b <= |s| && Absent(s, w)
    ensures Absent(s[a..b], w)
  {
    AbsentDrop(s, w, a);
    forall i: nat
      ensures !OccursAt(s[a..b], w, i)
    {
      assert !OccursAt(s[a..], w, i);
      if i + |w| <= b - a {
        var u := s[a..b][i..i + |w|];
        var v := s[a..][i..i + |w|];
        assert |u| == |v|;
        forall k | 0 <= k < |u|
          ensures u[k] == v[k]
        {
          assert u[k] == s[a + i + k] == v[k];
        }
        assert u == v;
      }
    }
  }

  /** Stripping keeps a pattern absent. */
  lemma AbsentStrip(s: string, w: string)
    requires Absent(s, w)
    ensures Absent(Strip(s), w)
  {
    var l := LStrip(s);
    LStripSpec(s);
    RStripSpec(l);
    var a := |s| - |l|;
    assert Strip(s) == s[a..a + |RStrip(l)|];
    AbsentSlice(s, w, a, a + |RStrip(l)|);
  }

  /** The messages lose nothing of the text but whitespace and commas, and
      keep its order: together they hold every other character of the
      text, each once, in order. Commas are set aside because the comma
      branch of the long-sentence splitter drops the comma ending each
      group; a text holding the placeholder `<DOT>` is set aside because
      the restore step turns it into a period. */
  lemma MessagesContent(text: string, maxChars: int)
    requires Absent(text, Placeholder)
    ensures Content(Flatten(NaturalMessages(text, maxChars))) == Content(text)
  {
    var t := Strip(text);
    StripContent(text);
    if t == [] {
    } else if |t| <= maxChars {
      FlattenSingle(t);
    } else {
      var sentences := Sentences(t);
      LongTextBubbles(text, maxChars);
      RenderContent(Bubbles(sentences, maxChars), maxChars);
      AbsentStrip(text, Placeholder);
      SentencesLossless(t);
      KeepVisible(Flatten(sentences));
      KeepVisible(t);
    }
  }
}
