/** `_split_long_sentence`: a sentence longer than the limit is regrouped at
    its commas when it has any, and word-wrapped greedily otherwise. */
module LongSentence {
  import opened Text

  /** The state of either loop: the finished parts and the part being built. */
  datatype Fold = Fold(parts: seq<string>, current: string)

  // ---------------------------------------------------------------------
  // Regrouping at commas
  // ---------------------------------------------------------------------

  /** `current.strip().rstrip(",")`. */
  function Trimmed(current: string): string {
    RStripChar(Strip(current), ',')
  }

  /** One iteration of the comma loop. A chunk opens a new group when nothing
      is being built, joins the group when the result stays strictly under the
      limit, and otherwise closes the group and opens the next one. */
  function CommaStep(st: Fold, chunk: string, maxChars: int): Fold {
    if st.current == [] then Fold(st.parts, chunk + [','])
    else if |st.current| + |chunk| + 1 < maxChars then Fold(st.parts, st.current + chunk + [','])
    else Fold(st.parts + [Trimmed(st.current)], chunk + [','])
  }

  /** The state after the comma loop has visited `chunks`. */
  function CommaFold(chunks: seq<string>, maxChars: int): Fold {
    if chunks == [] then Fold([], [])
    else CommaStep(CommaFold(chunks[..|chunks| - 1], maxChars), chunks[|chunks| - 1], maxChars)
  }

  /** The group left open after the comma loop is closed too. */
  function CommaFlush(st: Fold): seq<string> {
    if st.current != [] then st.parts + [Trimmed(st.current)] else st.parts
  }

  /** What the comma branch returns. */
  function CommaGroups(s: string, maxChars: int): seq<string> {
    CommaFlush(CommaFold(SplitOn(s, ','), maxChars))
  }

  // ---------------------------------------------------------------------
  // Word wrapping
  // ---------------------------------------------------------------------

  /** One iteration of the word loop. A word opens a line when nothing is
      being built, joins the line when the result stays within the limit,
      and otherwise closes the line and opens the next one. */
  function WrapStep(st: Fold, word: string, maxChars: int): Fold {
    if st.current == [] then Fold(st.parts, word)
    else if |st.current| + |word| + 1 <= maxChars then Fold(st.parts, st.current + [' '] + word)
    else Fold(st.parts + [st.current], word)
  }

  /** The state after the word loop has visited `words`. */
  function WrapFold(words: seq<string>, maxChars: int): Fold {
    if words == [] then Fold([], [])
    else WrapStep(WrapFold(words[..|words| - 1], maxChars), words[|words| - 1], maxChars)
  }

  /** The line left open after the word loop is closed too. */
  function WrapFlush(st: Fold): seq<string> {
    if st.current != [] then st.parts + [st.current] else st.parts
  }

  /** What the word-wrap branch returns. */
  function WordWrap(s: string, maxChars: int): seq<string> {
    WrapFlush(WrapFold(Words(s), maxChars))
  }

  /** What `_split_long_sentence(sentence, max_chars)` returns. */
  function SplitLong(s: string, maxChars: int): seq<string> {
    if |s| <= maxChars then [s]
    else if ',' in s then CommaGroups(s, maxChars)
    else WordWrap(s, maxChars)
  }

  method SplitLongSentence(sentence: string, maxChars: int) returns (parts: seq<string>)
    ensures parts == SplitLong(sentence, maxChars)
    ensures |sentence| <= maxChars ==> parts == [sentence]
    ensures |sentence| > maxChars && ',' !in sentence ==>
              Join([' '], parts) == Join([' '], Words(sentence))
  {
    if |sentence| <= maxChars {
      return [sentence];
    }

    if ',' in sentence {
      var chunks := SplitOn(sentence, ',');
      parts := [];
      var current := "";
      var k := 0;
      while k < |chunks|
        invariant k <= |chunks|
        invariant Fold(parts, current) == CommaFold(chunks[..k], maxChars)
      {
        var chunk := chunks[k];
        if current == [] {
          current := chunk + ",";
        } else if |current| + |chunk| + 1 < maxChars {
          current := current + chunk + ",";
        } else {
          parts := parts + [Trimmed(current)];
          current := chunk + ",";
        }
        assert chunks[..k + 1][..k] == chunks[..k];
        k := k + 1;
      }
      assert chunks[..k] == chunks;
      if current != [] {
        parts := parts + [Trimmed(current)];
      }
      return;
    }

    var words := Words(sentence);
    parts := [];
    var current := "";
    var k := 0;
    while k < |words|
      invariant k <= |words|
      invariant Fold(parts, current) == WrapFold(words[..k], maxChars)
    {
      var word := words[k];
      if current == [] {
        current := word;
      } else if |current| + |word| + 1 <= maxChars {
        current := current + " " + word;
      } else {
        parts := parts + [current];
        current := word;
      }
      assert words[..k + 1][..k] == words[..k];
      k := k + 1;
    }
    assert words[..k] == words;
    if current != [] {
      parts := parts + [current];
    }
    WordWrapJoin(sentence, maxChars);
  }

  // ---------------------------------------------------------------------
  // Properties of word wrapping
  // ---------------------------------------------------------------------

  /** A line of the word-wrap branch: non-empty, and within the limit unless
      it is one word that is longer than the limit on its own. */
  predicate IsLine(line: string, maxChars: int) {
    line != [] && (|line| <= maxChars || IsWord(line))
  }

  predicate AllLines(lines: seq<string>, maxChars: int) {
    forall k :: 0 <= k < |lines| ==> IsLine(lines[k], maxChars)
  }

  predicate AllWords(words: seq<string>) {
    forall k :: 0 <= k < |words| ==> IsWord(words[k])
  }

  /** The loop keeps every closed line and the open line well formed. */
  lemma {:induction false} WrapFoldLines(words: seq<string>, maxChars: int)
    requires AllWords(words)
    ensures WrapFold(words, maxChars).current == [] <==> words == []
    ensures AllLines(WrapFold(words, maxChars).parts, maxChars)
    ensures WrapFold(words, maxChars).current != [] ==>
              IsLine(WrapFold(words, maxChars).current, maxChars)
    decreases |words|
  {
    if words != [] {
      var init := words[..|words| - 1];
      var word := words[|words| - 1];
      assert IsWord(word);
      WrapFoldLines(init, maxChars);
      var st := WrapFold(init, maxChars);
      assert forall k :: 0 <= k < |st.parts| ==> (st.parts + [st.current])[k] == st.parts[k];
    }
  }

  /** Joining with `sep` a list whose last element is `x + sep + y` is joining
      the list that ends with `x` and `y`. */
  lemma JoinSplitLast(sep: string, ss: seq<string>, x: string, y: string)
    ensures Join(sep, ss + [x + sep + y]) == Join(sep, ss + [x, y])
  {
    assert ss + [x, y] == (ss + [x]) + [y];
    JoinSnoc(sep, ss + [x], y);
    if ss == [] {
      assert Join(sep, [x]) == x;
    } else {
      JoinSnoc(sep, ss, x);
      JoinSnoc(sep, ss, x + sep + y);
    }
  }

  /** The lines, joined with single spaces, are the words joined with single spaces. */
  lemma {:induction false} WrapFoldJoin(words: seq<string>, maxChars: int)
    requires forall k :: 0 <= k < |words| ==> words[k] != []
    ensures WrapFold(words, maxChars).current == [] <==> words == []
    ensures Join([' '], WrapFlush(WrapFold(words, maxChars))) == Join([' '], words)
    decreases |words|
  {
    if words != [] {
      var init := words[..|words| - 1];
      var word := words[|words| - 1];
      assert words == init + [word];
      WrapFoldJoin(init, maxChars);
      var st := WrapFold(init, maxChars);
      if st.current == [] {
        assert Join([' '], [word]) == word;
      } else if |st.current| + |word| + 1 <= maxChars {
        JoinSplitLast([' '], st.parts, st.current, word);
        assert st.parts + [st.current, word] == (st.parts + [st.current]) + [word];
        JoinSnoc([' '], st.parts + [st.current], word);
        JoinSnoc([' '], init, word);
      } else {
        assert (st.parts + [st.current]) + [word] == st.parts + [st.current] + [word];
        JoinSnoc([' '], st.parts + [st.current], word);
        JoinSnoc([' '], init, word);
      }
    }
  }

  /** The word-wrap branch loses no word and reorders nothing: its lines joined
      with single spaces are the words of the sentence joined with single spaces. */
  lemma WordWrapJoin(s: string, maxChars: int)
    ensures Join([' '], WordWrap(s, maxChars)) == Join([' '], Words(s))
  {
    WordsAreWords(s);
    WrapFoldJoin(Words(s), maxChars);
  }

  /** Every line of the word-wrap branch is non-empty and within the limit,
      unless it is one word longer than the limit. */
  lemma WordWrapLines(s: string, maxChars: int)
    ensures AllLines(WordWrap(s, maxChars), maxChars)
  {
    WordsAreWords(s);
    var st := WrapFold(Words(s), maxChars);
    WrapFoldLines(Words(s), maxChars);
    if st.current != [] {
      assert forall k :: 0 <= k < |st.parts| ==> (st.parts + [st.current])[k] == st.parts[k];
    }
  }

  /** Splitting the words of the joined lines again gives back the words of the sentence. */
  lemma WordWrapRoundTrip(s: string, maxChars: int)
    ensures Words(Join([' '], WordWrap(s, maxChars))) == Words(s)
  {
    WordWrapJoin(s, maxChars);
    WordsAreWords(s);
    WordsOfJoin(Words(s));
  }

  // ---------------------------------------------------------------------
  // Properties of the comma regrouping
  // ---------------------------------------------------------------------

  /** A group opened by a single chunk: one trailing comma and no other. */
  predicate SingleChunk(x: string) {
    x != [] && x[|x| - 1] == ',' && ',' !in x[..|x| - 1]
  }

  /** A part of the comma branch is shorter than the limit unless it came from
      a single chunk, in which case it holds no comma at all. */
  predicate IsGroup(part: string, maxChars: int) {
    |part| < maxChars || ',' !in part
  }

  predicate AllGroups(parts: seq<string>, maxChars: int) {
    forall k :: 0 <= k < |parts| ==> IsGroup(parts[k], maxChars)
  }

  lemma {:induction false} LStripSnoc(c: string, d: char)
    requires !IsSpace(d)
    ensures LStrip(c + [d]) == LStrip(c) + [d]
    decreases |c|
  {
    if c == [] {
      assert c + [d] == [d];
    } else {
      assert (c + [d])[0] == c[0];
      assert (c + [d])[1..] == c[1..] + [d];
      LStripSnoc(c[1..], d);
    }
  }

  /** Closing a group never makes it longer. */
  lemma TrimmedShorter(x: string)
    ensures |Trimmed(x)| <= |x|
  {
    LStripSpec(x);
    RStripSpec(LStrip(x));
    RStripCharSpec(Strip(x), ',');
  }

  /** Closing a group opened by a single chunk leaves no comma. */
  lemma TrimmedSingle(x: string)
    requires SingleChunk(x)
    ensures ',' !in Trimmed(x)
  {
    var c := x[..|x| - 1];
    assert x == c + [','];
    LStripSnoc(c, ',');
    var l := LStrip(c);
    LStripSpec(c);
    assert RStrip(l + [',']) == l + [','];
    assert RStripChar(l + [','], ',') == RStripChar(l, ',');
    RStripCharSpec(l, ',');
    assert forall i :: 0 <= i < |l| ==> l[i] == c[|c| - |l| + i];
  }

  /** A closed group obeys the bound of the comma branch. */
  lemma TrimmedGroup(x: string, maxChars: int)
    requires |x| < maxChars || SingleChunk(x)
    ensures IsGroup(Trimmed(x), maxChars)
  {
    TrimmedShorter(x);
    if !(|x| < maxChars) {
      TrimmedSingle(x);
    }
  }

  /** The loop keeps every closed group and the open group within the bound. */
  lemma {:induction false} CommaFoldGroups(chunks: seq<string>, maxChars: int)
    requires forall k :: 0 <= k < |chunks| ==> ',' !in chunks[k]
    ensures CommaFold(chunks, maxChars).current == [] <==> chunks == []
    ensures AllGroups(CommaFold(chunks, maxChars).parts, maxChars)
    ensures CommaFold(chunks, maxChars).current != [] ==>
              |CommaFold(chunks, maxChars).current| < maxChars ||
              SingleChunk(CommaFold(chunks, maxChars).current)
    decreases |chunks|
  {
    if chunks != [] {
      var init := chunks[..|chunks| - 1];
      var chunk := chunks[|chunks| - 1];
      CommaFoldGroups(init, maxChars);
      var st := CommaFold(init, maxChars);
      assert (chunk + [','])[..|chunk|] == chunk;
      if st.current != [] && |st.current| + |chunk| + 1 >= maxChars {
        TrimmedGroup(st.current, maxChars);
        assert forall k :: 0 <= k < |st.parts| ==>
          (st.parts + [Trimmed(st.current)])[k] == st.parts[k];
      }
    }
  }

  /** Every part of the comma branch is shorter than the limit or holds no
      comma (a single chunk, which may itself be too long or even empty). */
  lemma CommaGroupsBound(s: string, maxChars: int)
    ensures AllGroups(CommaGroups(s, maxChars), maxChars)
  {
    var chunks := SplitOn(s, ',');
    CommaFoldGroups(chunks, maxChars);
    var st := CommaFold(chunks, maxChars);
    if st.current != [] {
      TrimmedGroup(st.current, maxChars);
      assert forall k :: 0 <= k < |st.parts| ==>
        (st.parts + [Trimmed(st.current)])[k] == st.parts[k];
    }
  }

  // ---------------------------------------------------------------------
  // Both loops close a part only when the next piece does not fit
  // ---------------------------------------------------------------------

  /** The text of `s` before the first `sep`: the first word of a line when
      `sep` is the space, the first chunk of a group when it is the comma. */
  function Before(s: string, sep: char): (r: string)
    ensures r <= s && sep !in r
    ensures |r| < |s| ==> s[|r|] == sep
  {
    if s == [] || s[0] == sep then [] else [s[0]] + Before(s[1..], sep)
  }

  /** A piece free of `sep` is its own text before `sep`. */
  lemma {:induction false} BeforeWhole(x: string, sep: char)
    requires sep !in x
    ensures Before(x, sep) == x
    decreases |x|
  {
    if x != [] {
      assert x[1..] + [] == x[1..];
      BeforeWhole(x[1..], sep);
    }
  }

  /** Appending after a separator does not change the text before the first one. */
  lemma {:induction false} BeforeAppend(x: string, sep: char, y: string)
    ensures Before(x + [sep] + y, sep) == Before(x, sep)
    decreases |x|
  {
    if x != [] {
      assert (x + [sep] + y)[0] == x[0];
      assert (x + [sep] + y)[1..] == x[1..] + [sep] + y;
      BeforeAppend(x[1..], sep, y);
    }
  }

  /** A closed line could not take the first word of the line after it. */
  predicate WrapClosed(line: string, next: string, maxChars: int) {
    |line| + |Before(next, ' ')| + 1 > maxChars
  }

  predicate WrapChain(lines: seq<string>, maxChars: int) {
    forall k :: 0 <= k < |lines| - 1 ==> WrapClosed(lines[k], lines[k + 1], maxChars)
  }

  /** The word loop closes a line only when the next word does not fit after it. */
  lemma {:induction false} WrapFoldGreedy(words: seq<string>, maxChars: int)
    requires AllWords(words)
    ensures WrapFold(words, maxChars).current == [] ==> WrapFold(words, maxChars).parts == []
    ensures WrapChain(WrapFold(words, maxChars).parts + [WrapFold(words, maxChars).current], maxChars)
    decreases |words|
  {
    if words != [] {
      var init := words[..|words| - 1];
      var word := words[|words| - 1];
      assert IsWord(word);
      assert ' ' !in word by {
        assert forall i :: 0 <= i < |word| ==> word[i] != ' ';
      }
      BeforeWhole(word, ' ');
      WrapFoldGreedy(init, maxChars);
      var st := WrapFold(init, maxChars);
      if st.current == [] {
        assert WrapStep(st, word, maxChars) == Fold([], word);
      } else if |st.current| + |word| + 1 <= maxChars {
        WrapGrowGreedy(st, word, maxChars);
      } else {
        WrapCloseGreedy(st, word, maxChars);
      }
    }
  }

  lemma WrapGrowGreedy(st: Fold, word: string, maxChars: int)
    requires WrapChain(st.parts + [st.current], maxChars)
    ensures WrapChain(st.parts + [st.current + [' '] + word], maxChars)
  {
    var old_ := st.parts + [st.current];
    var new_ := st.parts + [st.current + [' '] + word];
    BeforeAppend(st.current, ' ', word);
    forall k | 0 <= k < |new_| - 1
      ensures WrapClosed(new_[k], new_[k + 1], maxChars)
    {
      assert new_[k] == old_[k];
      assert Before(new_[k + 1], ' ') == Before(old_[k + 1], ' ');
    }
  }

  lemma WrapCloseGreedy(st: Fold, word: string, maxChars: int)
    requires WrapChain(st.parts + [st.current], maxChars)
    requires Before(word, ' ') == word
    requires |st.current| + |word| + 1 > maxChars
    ensures WrapChain(st.parts + [st.current] + [word], maxChars)
  {
    var old_ := st.parts + [st.current];
    var new_ := old_ + [word];
    forall k | 0 <= k < |new_| - 1
      ensures WrapClosed(new_[k], new_[k + 1], maxChars)
    {
      if k < |old_| - 1 {
        assert new_[k] == old_[k] && new_[k + 1] == old_[k + 1];
      }
    }
  }

  /** The word wrap is greedy: every line but the last is followed by a line
      whose first word would have pushed it past `maxChars`. */
  lemma WordWrapGreedy(s: string, maxChars: int)
    ensures WrapChain(WordWrap(s, maxChars), maxChars)
  {
    WordsAreWords(s);
    WrapFoldGreedy(Words(s), maxChars);
  }

  /** The comma loop with the groups kept as they were built, before the
      source strips them and removes their trailing commas. */
  function RawCommaFold(chunks: seq<string>, maxChars: int): Fold {
    if chunks == [] then Fold([], [])
    else
      var st := RawCommaFold(chunks[..|chunks| - 1], maxChars);
      var chunk := chunks[|chunks| - 1];
      if st.current == [] then Fold(st.parts, chunk + [','])
      else if |st.current| + |chunk| + 1 < maxChars then Fold(st.parts, st.current + chunk + [','])
      else Fold(st.parts + [st.current], chunk + [','])
  }

  /** Every chunk followed by its comma: the text the comma loop builds groups from. */
  function Commaed(chunks: seq<string>): string {
    if chunks == [] then [] else Commaed(chunks[..|chunks| - 1]) + chunks[|chunks| - 1] + [',']
  }

  /** A closed group, as built, could not take the first chunk of the next
      group under the source's strict test. */
  predicate CommaClosed(group: string, next: string, maxChars: int) {
    |group| + |Before(next, ',')| + 1 >= maxChars
  }

  predicate CommaChain(groups: seq<string>, maxChars: int) {
    forall k :: 0 <= k < |groups| - 1 ==> CommaClosed(groups[k], groups[k + 1], maxChars)
  }

  /** The groups as built, the open one last, are the chunks each followed by
      its comma, in order. */
  lemma {:induction false} RawCommaFoldText(chunks: seq<string>, maxChars: int)
    ensures var raw := RawCommaFold(chunks, maxChars);
      Flatten(raw.parts) + raw.current == Commaed(chunks)
    decreases |chunks|
  {
    if chunks != [] {
      var init := chunks[..|chunks| - 1];
      var chunk := chunks[|chunks| - 1];
      RawCommaFoldText(init, maxChars);
      var raw := RawCommaFold(init, maxChars);
      if raw.current != [] && |raw.current| + |chunk| + 1 >= maxChars {
        FlattenSnoc(raw.parts, raw.current);
      }
    }
  }

  /** The groups the source emits are the groups as built, trimmed. */
  lemma {:induction false} RawCommaFoldTrimmed(chunks: seq<string>, maxChars: int)
    ensures var raw := RawCommaFold(chunks, maxChars);
      var st := CommaFold(chunks, maxChars);
      && st.current == raw.current
      && |st.parts| == |raw.parts|
      && (forall k :: 0 <= k < |raw.parts| ==> st.parts[k] == Trimmed(raw.parts[k]))
    decreases |chunks|
  {
    if chunks != [] {
      var init := chunks[..|chunks| - 1];
      var chunk := chunks[|chunks| - 1];
      RawCommaFoldTrimmed(init, maxChars);
      var raw := RawCommaFold(init, maxChars);
      var st := CommaFold(init, maxChars);
      if raw.current != [] && |raw.current| + |chunk| + 1 >= maxChars {
        assert forall k :: 0 <= k < |raw.parts| ==> (raw.parts + [raw.current])[k] == raw.parts[k];
        assert forall k :: 0 <= k < |st.parts| ==> (st.parts + [Trimmed(st.current)])[k] == st.parts[k];
      }
    }
  }

  /** The comma loop closes a group only when the next chunk does not fit. */
  lemma {:induction false} RawCommaFoldGreedy(chunks: seq<string>, maxChars: int)
    requires forall k :: 0 <= k < |chunks| ==> ',' !in chunks[k]
    ensures var raw := RawCommaFold(chunks, maxChars);
      && (raw.current == [] ==> raw.parts == [])
      && (raw.current != [] ==> EndsWith(raw.current, ','))
      && CommaChain(raw.parts + [raw.current], maxChars)
    decreases |chunks|
  {
    if chunks != [] {
      var init := chunks[..|chunks| - 1];
      var chunk := chunks[|chunks| - 1];
      assert ',' !in chunk;
      assert forall k :: 0 <= k < |init| ==> ',' !in init[k] by {
        assert forall k :: 0 <= k < |init| ==> init[k] == chunks[k];
      }
      RawCommaFoldGreedy(init, maxChars);
      var raw := RawCommaFold(init, maxChars);
      BeforeAppend(chunk, ',', []);
      BeforeWhole(chunk, ',');
      assert chunk + [','] + [] == chunk + [','];
      if raw.current != [] && |raw.current| + |chunk| + 1 < maxChars {
        RawGrow(raw, chunk, maxChars);
      } else if raw.current != [] {
        RawClose(raw, chunk, maxChars);
      }
    }
  }

  lemma RawGrow(raw: Fold, chunk: string, maxChars: int)
    requires EndsWith(raw.current, ',')
    requires CommaChain(raw.parts + [raw.current], maxChars)
    ensures CommaChain(raw.parts + [raw.current + chunk + [',']], maxChars)
  {
    var old_ := raw.parts + [raw.current];
    var new_ := raw.parts + [raw.current + chunk + [',']];
    var x := raw.current[..|raw.current| - 1];
    assert raw.current == x + [','] + [];
    assert raw.current + chunk + [','] == x + [','] + (chunk + [',']);
    BeforeAppend(x, ',', []);
    BeforeAppend(x, ',', chunk + [',']);
    forall k | 0 <= k < |new_| - 1
      ensures CommaClosed(new_[k], new_[k + 1], maxChars)
    {
      assert new_[k] == old_[k];
      assert Before(new_[k + 1], ',') == Before(old_[k + 1], ',');
    }
  }

  lemma RawClose(raw: Fold, chunk: string, maxChars: int)
    requires CommaChain(raw.parts + [raw.current], maxChars)
    requires Before(chunk + [','], ',') == chunk
    requires |raw.current| + |chunk| + 1 >= maxChars
    ensures CommaChain(raw.parts + [raw.current] + [chunk + [',']], maxChars)
  {
    var old_ := raw.parts + [raw.current];
    var new_ := old_ + [chunk + [',']];
    forall k | 0 <= k < |new_| - 1
      ensures CommaClosed(new_[k], new_[k + 1], maxChars)
    {
      if k < |old_| - 1 {
        assert new_[k] == old_[k] && new_[k + 1] == old_[k + 1];
      }
    }
  }

  /** The comma regrouping is greedy: every group the source emits is the
      trimmed form of a run of chunks, the runs together are the chunks in
      order, and every run but the last could not take the first chunk of
      the next one under the source's strict `<` test. */
  lemma CommaGroupsGreedy(s: string, maxChars: int)
    ensures var chunks := SplitOn(s, ',');
      var raw := RawCommaFold(chunks, maxChars);
      var built := if raw.current != [] then raw.parts + [raw.current] else raw.parts;
      && Flatten(built) == Commaed(chunks)
      && |CommaGroups(s, maxChars)| == |built|
      && (forall k :: 0 <= k < |built| ==> CommaGroups(s, maxChars)[k] == Trimmed(built[k]))
      && CommaChain(built, maxChars)
  {
    var chunks := SplitOn(s, ',');
    RawCommaFoldText(chunks, maxChars);
    RawCommaFoldTrimmed(chunks, maxChars);
    RawCommaFoldGreedy(chunks, maxChars);
    var raw := RawCommaFold(chunks, maxChars);
    FlattenSnoc(raw.parts, raw.current);
  }

  lemma {:induction false} ContentOfIgnored(s: string)
    requires forall i :: 0 <= i < |s| ==> Ignored(s[i], true)
    ensures Content(s) == []
    decreases |s|
  {
    if s != [] {
      ContentOfIgnored(s[1..]);
    }
  }

  /** Closing a group removes only whitespace and commas. */
  lemma TrimmedContent(x: string)
    ensures Content(Trimmed(x)) == Content(x)
  {
    var y := Strip(x);
    StripSpec(x);
    KeepVisible(y);
    KeepVisible(x);
    RStripCharSpec(y, ',');
    var r := RStripChar(y, ',');
    assert y == r + y[|r|..];
    KeepConcat(r, y[|r|..], true);
    ContentOfIgnored(y[|r|..]);
    assert Content(y) == Content(r) + [];
  }

  lemma ContentFlattenSnoc(ss: seq<string>, x: string)
    ensures Content(Flatten(ss + [x])) == Content(Flatten(ss)) + Content(x)
  {
    FlattenSnoc(ss, x);
    KeepConcat(Flatten(ss), x, true);
  }

  lemma ContentComma(x: string)
    ensures Content(x + [',']) == Content(x)
  {
    KeepConcat(x, [','], true);
    assert Keep([','], true) == [] by {
      assert [','][1..] == [];
    }
  }

  /** The text held by a state of the comma loop: the closed groups, then the open one. */
  function FoldHeld(st: Fold): string {
    Content(Flatten(st.parts) + st.current)
  }

  lemma ContentAppend3(a: string, b: string, c: string)
    ensures Content(a + b + c) == Content(a) + Content(b) + Content(c)
  {
    KeepConcat(a + b, c, true);
    KeepConcat(a, b, true);
  }

  /** One iteration of the comma loop adds the content of its chunk and nothing else. */
  lemma CommaStepContent(st: Fold, chunk: string, maxChars: int)
    ensures FoldHeld(CommaStep(st, chunk, maxChars)) == FoldHeld(st) + Content(chunk)
  {
    if st.current == [] {
      OpenContent(st.parts, chunk);
    } else if |st.current| + |chunk| + 1 < maxChars {
      ExtendContent(st.parts, st.current, chunk);
    } else {
      CloseContent(st.parts, st.current, chunk);
    }
  }

  lemma OpenContent(parts: seq<string>, chunk: string)
    ensures FoldHeld(Fold(parts, chunk + [','])) == FoldHeld(Fold(parts, [])) + Content(chunk)
  {
    var f := Flatten(parts);
    ContentComma(chunk);
    assert f + [] == f;
    KeepConcat(f, chunk + [','], true);
  }

  lemma ExtendContent(parts: seq<string>, current: string, chunk: string)
    ensures FoldHeld(Fold(parts, current + chunk + [','])) == FoldHeld(Fold(parts, current)) + Content(chunk)
  {
    var f := Flatten(parts);
    ContentComma(chunk);
    assert f + (current + chunk + [',']) == f + current + (chunk + [',']);
    ContentAppend3(f, current, chunk + [',']);
    KeepConcat(f, current, true);
  }

  lemma CloseContent(parts: seq<string>, current: string, chunk: string)
    ensures FoldHeld(Fold(parts + [Trimmed(current)], chunk + [','])) ==
            FoldHeld(Fold(parts, current)) + Content(chunk)
  {
    var f := Flatten(parts);
    var t := Trimmed(current);
    ContentComma(chunk);
    ContentFlattenSnoc(parts, t);
    TrimmedContent(current);
    KeepConcat(Flatten(parts + [t]), chunk + [','], true);
    KeepConcat(f, current, true);
  }

  /** The loop moves text from the chunks into the groups without losing or
      reordering anything but whitespace and commas. */
  lemma {:induction false} CommaFoldContent(chunks: seq<string>, maxChars: int)
    ensures FoldHeld(CommaFold(chunks, maxChars)) == Content(Flatten(chunks))
    decreases |chunks|
  {
    if chunks == [] {
      assert Flatten(chunks) == [];
      assert Flatten([]) + [] == [];
    } else {
      var init := chunks[..|chunks| - 1];
      var chunk := chunks[|chunks| - 1];
      assert chunks == init + [chunk];
      CommaFoldContent(init, maxChars);
      CommaStepContent(CommaFold(init, maxChars), chunk, maxChars);
      ContentFlattenSnoc(init, chunk);
    }
  }

  /** Content of chunks joined back with commas is the content of the chunks. */
  lemma {:induction false} ContentJoinCommas(chunks: seq<string>)
    ensures Content(Join([','], chunks)) == Content(Flatten(chunks))
    decreases |chunks|
  {
    if |chunks| == 1 {
      assert chunks[..0] == [];
      assert Flatten(chunks) == Flatten([]) + chunks[0] == chunks[0];
      assert Join([','], chunks) == chunks[0];
    } else if |chunks| > 1 {
      var init := chunks[..|chunks| - 1];
      var last := chunks[|chunks| - 1];
      ContentJoinCommas(init);
      assert chunks == init + [last];
      JoinSnoc([','], init, last);
      ContentFlattenSnoc(init, last);
      KeepConcat(Join([','], init) + [','], last, true);
      ContentComma(Join([','], init));
    }
  }

  /** The comma branch loses nothing but whitespace and commas, and keeps the order. */
  lemma CommaGroupsContent(s: string, maxChars: int)
    ensures Content(Flatten(CommaGroups(s, maxChars))) == Content(s)
  {
    var chunks := SplitOn(s, ',');
    CommaFoldContent(chunks, maxChars);
    ContentJoinCommas(chunks);
    var st := CommaFold(chunks, maxChars);
    KeepConcat(Flatten(st.parts), st.current, true);
    if st.current != [] {
      ContentFlattenSnoc(st.parts, Trimmed(st.current));
      TrimmedContent(st.current);
    } else {
      assert Flatten(st.parts) + st.current == Flatten(st.parts);
    }
  }
}
