/** The pieces of Python's `str` behaviour the splitter relies on: the
    whitespace class, `strip`/`lstrip`/`rstrip`, `split()`, `split(",")`,
    `" ".join`, `replace` and `lower`, written over `seq<char>`. */
module Text {

  /** The characters for which Python's `str.isspace()` holds: `strip()`,
      `split()` and the regular-expression class `\s` on `str` patterns all
      use them. They are the ASCII space, tab to carriage return, the four
      separators U+001C to U+001F, U+0085, U+00A0, U+1680, U+2000 to U+200A,
      the line and paragraph separators U+2028 and U+2029, U+202F, U+205F
      and U+3000. */
  predicate IsSpace(c: char) {
    c == ' ' || '\t' <= c <= '\r' || '\U{1C}' <= c <= '\U{1F}' || c == '\U{85}' || c == '\U{A0}'
    || c == '\U{1680}' || '\U{2000}' <= c <= '\U{200A}' || c == '\U{2028}' || c == '\U{2029}'
    || c == '\U{202F}' || c == '\U{205F}' || c == '\U{3000}'
  }

  /** No whitespace at either end: what `strip()` returns. */
  predicate IsTrimmed(s: string) {
    s == [] || (!IsSpace(s[0]) && !IsSpace(s[|s| - 1]))
  }

  /** A token of `split()`: non-empty and free of whitespace. */
  predicate IsWord(w: string) {
    w != [] && forall i :: 0 <= i < |w| ==> !IsSpace(w[i])
  }

  predicate EndsWith(s: string, c: char) {
    s != [] && s[|s| - 1] == c
  }

  /** The characters content comparisons ignore: whitespace, and also commas when `commas` holds. */
  predicate Ignored(c: char, commas: bool) {
    IsSpace(c) || (commas && c == ',')
  }

  /** `s` with its ignored characters removed, order kept. */
  function Keep(s: string, commas: bool): (r: string)
    ensures |r| <= |s|
  {
    if s == [] then [] else (if Ignored(s[0], commas) then [] else [s[0]]) + Keep(s[1..], commas)
  }

  /** The non-whitespace characters of `s`, in order. */
  function Visible(s: string): string {
    Keep(s, false)
  }

  /** What survives dropping whitespace and commas. */
  function Content(s: string): string {
    Keep(s, true)
  }

  lemma {:induction false} KeepConcat(a: string, b: string, commas: bool)
    ensures Keep(a + b, commas) == Keep(a, commas) + Keep(b, commas)
    decreases |a|
  {
    if a != [] {
      var h := if Ignored(a[0], commas) then [] else [a[0]];
      assert (a + b)[0] == a[0];
      assert (a + b)[1..] == a[1..] + b;
      assert Keep(a + b, commas) == h + Keep(a[1..] + b, commas);
      KeepConcat(a[1..], b, commas);
    } else {
      assert a + b == b;
    }
  }

  /** Whitespace alone has nothing visible. */
  lemma {:induction false} VisibleSpaces(s: string)
    requires forall i :: 0 <= i < |s| ==> IsSpace(s[i])
    ensures Visible(s) == []
    decreases |s|
  {
    if s != [] {
      VisibleSpaces(s[1..]);
    }
  }

  /** Dropping whitespace first changes nothing about what survives dropping commas too. */
  lemma {:induction false} KeepVisible(s: string)
    ensures Keep(Visible(s), true) == Keep(s, true)
    decreases |s|
  {
    if s != [] {
      KeepVisible(s[1..]);
      var head := if IsSpace(s[0]) then [] else [s[0]];
      KeepConcat(head, Visible(s[1..]), true);
      assert [s[0]][1..] == [];
    }
  }

  /** Python `s.lstrip()`. */
  function LStrip(s: string): string
    decreases |s|
  {
    if s != [] && IsSpace(s[0]) then LStrip(s[1..]) else s
  }

  /** `lstrip()` gives the longest suffix of `s` that does not start with
      whitespace, and removes nothing but whitespace. */
  lemma {:induction false} LStripSpec(s: string)
    ensures |LStrip(s)| <= |s| && LStrip(s) == s[|s| - |LStrip(s)|..]
    ensures forall i :: 0 <= i < |s| - |LStrip(s)| ==> IsSpace(s[i])
    ensures LStrip(s) != [] ==> !IsSpace(LStrip(s)[0])
    ensures Visible(LStrip(s)) == Visible(s)
    decreases |s|
  {
    if s != [] && IsSpace(s[0]) {
      LStripSpec(s[1..]);
    }
  }

  /** Python `s.rstrip()`. */
  function RStrip(s: string): string
    decreases |s|
  {
    if s != [] && IsSpace(s[|s| - 1]) then RStrip(s[..|s| - 1]) else s
  }

  /** `rstrip()` gives the longest prefix of `s` that does not end with
      whitespace, and removes nothing but whitespace. */
  lemma {:induction false} RStripSpec(s: string)
    ensures |RStrip(s)| <= |s| && RStrip(s) == s[..|RStrip(s)|]
    ensures forall i :: |RStrip(s)| <= i < |s| ==> IsSpace(s[i])
    ensures RStrip(s) != [] ==> !IsSpace(RStrip(s)[|RStrip(s)| - 1])
    ensures Visible(RStrip(s)) == Visible(s)
    decreases |s|
  {
    if s != [] && IsSpace(s[|s| - 1]) {
      var front := s[..|s| - 1];
      RStripSpec(front);
      assert s == front + [s[|s| - 1]];
      VisibleSnoc(front, s[|s| - 1]);
    }
  }

  /** Python `s.strip()`. */
  function Strip(s: string): string {
    RStrip(LStrip(s))
  }

  /** `strip()` leaves no whitespace at either end, removes nothing but
      whitespace, and leaves an already trimmed string as it is. */
  lemma StripSpec(s: string)
    ensures IsTrimmed(Strip(s))
    ensures Visible(Strip(s)) == Visible(s)
    ensures IsTrimmed(s) ==> Strip(s) == s
  {
    var l := LStrip(s);
    LStripSpec(s);
    RStripSpec(l);
    var r := RStrip(l);
    if l != [] {
      assert !IsSpace(l[0]);
      assert r != [] && r[0] == l[0];
    }
    if IsTrimmed(s) && s != [] {
      assert l == s;
      assert r == l;
    }
  }

  /** `strip()` gives the empty string exactly when `s` is all whitespace. */
  lemma StripEmpty(s: string)
    ensures Strip(s) == [] <==> forall i :: 0 <= i < |s| ==> IsSpace(s[i])
  {
    var l := LStrip(s);
    LStripSpec(s);
    RStripSpec(l);
    if l != [] {
      assert l[0] == s[|s| - |l|];
      assert !IsSpace(l[0]);
      assert RStrip(l) != [];
    }
  }

  /** When `s` ends with a character that is not whitespace, `strip()` keeps it:
      the result is non-empty and ends with that same character. */
  lemma StripKeepsLast(s: string)
    requires s != [] && !IsSpace(s[|s| - 1])
    ensures Strip(s) != [] && Strip(s)[|Strip(s)| - 1] == s[|s| - 1]
  {
    var l := LStrip(s);
    LStripSpec(s);
    assert !IsSpace(s[|s| - 1]);
    assert l != [];
    assert l[|l| - 1] == s[|s| - 1];
    assert RStrip(l) == l;
  }

  /** Python `s.rstrip(c)`. */
  function RStripChar(s: string, c: char): string
    decreases |s|
  {
    if EndsWith(s, c) then RStripChar(s[..|s| - 1], c) else s
  }

  /** `rstrip(c)` gives the longest prefix of `s` that does not end with `c`. */
  lemma {:induction false} RStripCharSpec(s: string, c: char)
    ensures |RStripChar(s, c)| <= |s| && RStripChar(s, c) == s[..|RStripChar(s, c)|]
    ensures forall i :: |RStripChar(s, c)| <= i < |s| ==> s[i] == c
    ensures !EndsWith(RStripChar(s, c), c)
    decreases |s|
  {
    if EndsWith(s, c) {
      RStripCharSpec(s[..|s| - 1], c);
    }
  }

  /** The concatenation of all strings of `ss`, in order. */
  function Flatten(ss: seq<string>): string {
    if ss == [] then [] else Flatten(ss[..|ss| - 1]) + ss[|ss| - 1]
  }

  lemma {:induction false} FlattenConcat(xs: seq<string>, ys: seq<string>)
    ensures Flatten(xs + ys) == Flatten(xs) + Flatten(ys)
    decreases |ys|
  {
    if ys == [] {
      assert xs + ys == xs;
    } else {
      var n := |ys|;
      var zs := xs + ys;
      assert zs[..|zs| - 1] == xs + ys[..n - 1];
      assert zs[|zs| - 1] == ys[n - 1];
      assert Flatten(zs) == Flatten(xs + ys[..n - 1]) + ys[n - 1];
      assert Flatten(ys) == Flatten(ys[..n - 1]) + ys[n - 1];
      FlattenConcat(xs, ys[..n - 1]);
    }
  }

  /** Python `sep.join(ss)`. */
  function Join(sep: string, ss: seq<string>): string {
    if |ss| == 0 then []
    else if |ss| == 1 then ss[0]
    else Join(sep, ss[..|ss| - 1]) + sep + ss[|ss| - 1]
  }

  lemma JoinSnoc(sep: string, ss: seq<string>, s: string)
    requires ss != []
    ensures Join(sep, ss + [s]) == Join(sep, ss) + sep + s
  {
    assert (ss + [s])[..|ss|] == ss;
  }

  /** Python `s.split(sep)` for a one-character separator: the separator
      never occurs in a chunk, and joining the chunks back gives `s`. */
  function SplitOn(s: string, sep: char): (chunks: seq<string>)
    ensures |chunks| >= 1
    ensures forall k :: 0 <= k < |chunks| ==> sep !in chunks[k]
    ensures Join([sep], chunks) == s
    decreases |s|
  {
    if s == [] then [[]]
    else
      var init := SplitOn(s[..|s| - 1], sep);
      var c := s[|s| - 1];
      assert s == s[..|s| - 1] + [c];
      if c == sep then
        JoinSnoc([sep], init, []);
        init + [[]]
      else
        var n := |init|;
        var front := init[..n - 1];
        assert init == front + [init[n - 1]];
        var r := front + [init[n - 1] + [c]];
        assert r[..n - 1] == front;
        r
  }

  /** Python `s.split()`: the maximal runs of non-whitespace characters,
      for any mix and length of whitespace between and around them. A character that is not whitespace extends the last word when the
      character before it is not whitespace either, and starts a new word otherwise. */
  function Words(s: string): (ws: seq<string>)
    ensures s != [] && !IsSpace(s[|s| - 1]) ==> ws != []
    decreases |s|
  {
    if s == [] then []
    else
      var init := Words(s[..|s| - 1]);
      var c := s[|s| - 1];
      if IsSpace(c) then init
      else if |s| >= 2 && !IsSpace(s[|s| - 2]) then init[..|init| - 1] + [init[|init| - 1] + [c]]
      else init + [[c]]
  }

  lemma VisibleSnoc(s: string, c: char)
    ensures Visible(s + [c]) == Visible(s) + (if IsSpace(c) then [] else [c])
  {
    KeepConcat(s, [c], false);
    assert [c][1..] == [];
  }

  lemma FlattenSnoc(ss: seq<string>, x: string)
    ensures Flatten(ss + [x]) == Flatten(ss) + x
  {
    assert (ss + [x])[..|ss|] == ss;
  }

  /** Extending the last string by one character extends the concatenation by it. */
  lemma FlattenExtend(ss: seq<string>, c: char)
    requires ss != []
    ensures Flatten(ss[..|ss| - 1] + [ss[|ss| - 1] + [c]]) == Flatten(ss) + [c]
  {
    var n := |ss|;
    LastSplit(ss);
    FlattenSnoc(ss[..n - 1], ss[n - 1]);
    FlattenSnoc(ss[..n - 1], ss[n - 1] + [c]);
  }

  /** A visible character right after a visible one extends the last token. */
  lemma WordsSnocExtend(front: string, c: char)
    requires front != [] && !IsSpace(front[|front| - 1]) && !IsSpace(c)
    ensures Words(front) != []
    ensures Words(front + [c]) ==
            Words(front)[..|Words(front)| - 1] + [Words(front)[|Words(front)| - 1] + [c]]
  {
    var s := front + [c];
    assert s[..|s| - 1] == front && s[|s| - 1] == c && s[|s| - 2] == front[|front| - 1];
  }

  /** The step of WordsVisible for the last character of `s`. */
  lemma WordsVisibleStep(s: string)
    requires s != [] && Flatten(Words(s[..|s| - 1])) == Visible(s[..|s| - 1])
    ensures Flatten(Words(s)) == Visible(s)
  {
    var front, c := s[..|s| - 1], s[|s| - 1];
    var init := Words(front);
    LastSplit(s);
    VisibleSnoc(front, c);
    if IsSpace(c) {
      WordsSpaceSnoc(front, c);
    } else if front != [] && !IsSpace(front[|front| - 1]) {
      WordsSnocExtend(front, c);
      FlattenExtend(init, c);
    } else {
      WordsStart(front, [c]);
      FlattenSnoc(init, [c]);
    }
  }

  /** Together the tokens of `split()` hold exactly the non-whitespace
      characters of `s`, in order. */
  lemma {:induction false} WordsVisible(s: string)
    ensures Flatten(Words(s)) == Visible(s)
    decreases |s|
  {
    if s != [] {
      WordsVisible(s[..|s| - 1]);
      WordsVisibleStep(s);
    }
  }

  /** Every token of `split()` is non-empty and free of whitespace. */
  lemma {:induction false} WordsAreWords(s: string)
    ensures forall k :: 0 <= k < |Words(s)| ==> IsWord(Words(s)[k])
    decreases |s|
  {
    if s != [] {
      var front := s[..|s| - 1];
      var init := Words(front);
      var c := s[|s| - 1];
      WordsAreWords(front);
      if !IsSpace(c) {
        var r := Words(s);
        if |s| >= 2 && !IsSpace(s[|s| - 2]) {
          var n := |init|;
          assert IsWord(init[n - 1] + [c]) by {
            assert IsWord(init[n - 1]);
          }
          assert forall k :: 0 <= k < n - 1 ==> r[k] == init[k];
        } else {
          assert IsWord([c]);
          assert forall k :: 0 <= k < |init| ==> r[k] == init[k];
        }
      }
    }
  }

  /** A visible character after whitespace (or at the very start) starts a new token. */
  lemma WordsStart(x: string, w: string)
    requires |w| == 1 && !IsSpace(w[0])
    requires x == [] || IsSpace(x[|x| - 1])
    ensures Words(x + w) == Words(x) + [w]
  {
    var s := x + w;
    assert s[..|s| - 1] == x;
    assert |s| >= 2 ==> s[|s| - 2] == x[|x| - 1];
    assert w == [s[|s| - 1]];
  }

  /** A visible character right after the last token extends that token. */
  lemma WordsExtend(x: string, v: string, c: char)
    requires v != [] && !IsSpace(c) && !IsSpace(v[|v| - 1])
    requires Words(x + v) == Words(x) + [v]
    ensures Words(x + v + [c]) == Words(x) + [v + [c]]
  {
    var s := x + v + [c];
    var init := Words(x) + [v];
    assert s[..|s| - 1] == x + v;
    assert s[|s| - 2] == v[|v| - 1];
    assert init[..|init| - 1] == Words(x);
  }

  /** WordsExtend, for a word given whole. */
  lemma WordsExtendLast(x: string, w: string)
    requires |w| >= 2 && !IsSpace(w[|w| - 1]) && !IsSpace(w[|w| - 2])
    requires Words(x + w[..|w| - 1]) == Words(x) + [w[..|w| - 1]]
    ensures Words(x + w) == Words(x) + [w]
  {
    var v, c := w[..|w| - 1], w[|w| - 1];
    WordsExtend(x, v, c);
    LastSplit(w);
    AppendLast(x, w);
  }

  lemma AppendLast<T>(x: seq<T>, w: seq<T>)
    requires w != []
    ensures x + w == x + w[..|w| - 1] + [w[|w| - 1]]
  {
    LastSplit(w);
  }

  /** A word appended after whitespace (or at the very start) becomes one more token. */
  lemma {:induction false} WordsAppendWord(x: string, w: string)
    requires IsWord(w)
    requires x == [] || IsSpace(x[|x| - 1])
    ensures Words(x + w) == Words(x) + [w]
    decreases |w|
  {
    if |w| == 1 {
      WordsStart(x, w);
    } else {
      WordsAppendWord(x, w[..|w| - 1]);
      WordsExtendLast(x, w);
    }
  }

  lemma WordsSpaceSnoc(x: string, c: char)
    requires IsSpace(c)
    ensures Words(x + [c]) == Words(x)
  {
    assert (x + [c])[..|x|] == x;
  }

  /** One more word joined after a space is one more token. */
  lemma WordsOfJoinSnoc(ws: seq<string>)
    requires |ws| >= 2 && IsWord(ws[|ws| - 1])
    requires Words(Join(" ", ws[..|ws| - 1])) == ws[..|ws| - 1]
    ensures Words(Join(" ", ws)) == ws
  {
    var init, last := ws[..|ws| - 1], ws[|ws| - 1];
    var j := Join(" ", init);
    assert Join(" ", ws) == (j + [' ']) + last;
    WordsSpaceSnoc(j, ' ');
    WordsAppendWord(j + [' '], last);
    LastSplit(ws);
  }

  lemma LastSplit<T>(s: seq<T>)
    requires s != []
    ensures s[..|s| - 1] + [s[|s| - 1]] == s
  {
  }

  /** `split()` undoes `" ".join` on a list of words: the partner of Words. */
  lemma {:induction false} WordsOfJoin(ws: seq<string>)
    requires forall k :: 0 <= k < |ws| ==> IsWord(ws[k])
    ensures Words(Join(" ", ws)) == ws
    decreases |ws|
  {
    if |ws| == 1 {
      WordsAppendWord([], ws[0]);
      assert [] + ws[0] == ws[0];
      assert ws == [ws[0]];
    } else if |ws| > 1 {
      WordsOfJoin(ws[..|ws| - 1]);
      WordsOfJoinSnoc(ws);
    }
  }

  /** `w` occurs in `s` starting at index `i`. */
  predicate OccursAt(s: string, w: string, i: nat) {
    i + |w| <= |s| && s[i..i + |w|] == w
  }

  /** `w` occurs nowhere in `s`. */
  ghost predicate Absent(s: string, w: string) {
    forall i: nat :: !OccursAt(s, w, i)
  }

  /** Python `s.replace(pat, rep)`: occurrences are found from the left and do not overlap. */
  function Replace(s: string, pat: string, rep: string): string
    requires pat != []
    decreases |s|
  {
    if s == [] then []
    else if pat <= s then rep + Replace(s[|pat|..], pat, rep)
    else [s[0]] + Replace(s[1..], pat, rep)
  }

  /** Replacing a pattern that does not occur changes nothing. */
  lemma {:induction false} ReplaceAbsent(s: string, pat: string, rep: string)
    requires pat != [] && Absent(s, pat)
    ensures Replace(s, pat, rep) == s
    decreases |s|
  {
    if s != [] {
      assert !(pat <= s) by {
        assert !OccursAt(s, pat, 0);
      }
      assert Absent(s[1..], pat) by {
        forall i: nat
          ensures !OccursAt(s[1..], pat, i)
        {
          assert !OccursAt(s, pat, i + 1);
          if i + |pat| <= |s[1..]| {
            assert s[1..][i..i + |pat|] == s[i + 1..i + 1 + |pat|];
          }
        }
      }
      ReplaceAbsent(s[1..], pat, rep);
    }
  }

  /** ASCII lower-casing of one character. */
  function LowerChar(c: char): char {
    if 'A' <= c <= 'Z' then (c as int - 'A' as int + 'a' as int) as char else c
  }

  /** `s.lower()`, for the ASCII letters. */
  function Lower(s: string): (r: string)
    ensures |r| == |s|
    ensures forall i :: 0 <= i < |s| ==> r[i] == LowerChar(s[i])
  {
    seq(|s|, i requires 0 <= i < |s| => LowerChar(s[i]))
  }
}
