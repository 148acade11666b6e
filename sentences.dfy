/** `_split_into_sentences`: abbreviation protection, the regular-expression
    split at runs of `.!?` followed by whitespace, and the recombination of
    each sentence with its punctuation. */
module SentenceSplit {
  import opened Text

  /** The characters of the class `[.!?]`. */
  predicate IsTerminal(c: char) {
    c == '.' || c == '!' || c == '?'
  }

  predicate EndsWithTerminal(s: string) {
    s != [] && IsTerminal(s[|s| - 1])
  }

  // ---------------------------------------------------------------------
  // Abbreviation protection
  // ---------------------------------------------------------------------

  /** The marker that stands in for a protected period. */
  const Placeholder: string := "<DOT>"

  /** The abbreviations whose period is protected. */
  const Abbreviations: set<string> := {"Mr", "Mrs", "Dr", "Ms", "vs"}

  /** Hides the period of one abbreviation: `text.replace(a + ".", a + "<DOT>")`. */
  function Shield(text: string, a: string): string {
    Replace(text, a + ".", a + Placeholder)
  }

  /** The five replacements, in the order the source applies them. */
  function Protect(text: string): string {
    Shield(Shield(Shield(Shield(Shield(text, "Mr"), "Mrs"), "Dr"), "Ms"), "vs")
  }

  /** `sentence.replace("<DOT>", ".")`. */
  function Restore(s: string): string {
    Replace(s, Placeholder, ".")
  }

  /** Text without `<` passes through `Restore` unchanged in front of the rest. */
  lemma {:induction false} RestorePlain(x: string, y: string)
    requires '<' !in x
    ensures Restore(x + y) == x + Restore(y)
    decreases |x|
  {
    if x != [] {
      assert (x + y)[0] == x[0];
      assert !(Placeholder <= x + y);
      assert (x + y)[1..] == x[1..] + y;
      RestorePlain(x[1..], y);
    } else {
      assert x + y == y;
    }
  }

  /** No abbreviation begins like a tail of the placeholder. */
  lemma AbbreviationNotTail(a: string, k: nat)
    requires a in Abbreviations && 1 <= k < |Placeholder|
    ensures Placeholder[k] != a[0] || (k + 1 < |Placeholder| && Placeholder[k + 1] != a[1])
  {
  }

  /** Prefixes compare character by character. */
  lemma ConsPrefix(c: char, w: string, t: string)
    ensures [c] + w <= [c] + t <==> w <= t
  {
    if w <= t {
      assert ([c] + w)[..|[c] + w|] == [c] + t[..|w|];
    }
    if [c] + w <= [c] + t {
      assert w == ([c] + w)[1..];
    }
  }

  /** Where an abbreviation is shielded, neither the text nor its shielded
      form starts with a tail of the placeholder. */
  lemma TailAtMatch(x: string, a: string, k: nat)
    requires a in Abbreviations && 1 <= k < |Placeholder| && a + "." <= x
    ensures !(Placeholder[k..] <= Shield(x, a)) && !(Placeholder[k..] <= x)
  {
    var w := Placeholder[k..];
    var y := Shield(x, a);
    assert y == a + Placeholder + Shield(x[|a + "."|..], a);
    assert y[0] == a[0] == x[0] && y[1] == a[1] == x[1];
    AbbreviationNotTail(a, k);
  }

  /** The step of ShieldKeepsTail where one character is copied. */
  lemma TailAtCopy(x: string, a: string, k: nat)
    requires a in Abbreviations && 1 <= k && k + 1 < |Placeholder|
    requires x != [] && !(a + "." <= x)
    requires Placeholder[k + 1..] <= Shield(x[1..], a) <==> Placeholder[k + 1..] <= x[1..]
    requires Placeholder[k + 1..] <= x[1..] ==>
               Shield(x[1..], a) == Placeholder[k + 1..] + Shield(x[1..][|Placeholder| - (k + 1)..], a)
    ensures Placeholder[k..] <= Shield(x, a) <==> Placeholder[k..] <= x
    ensures Placeholder[k..] <= x ==>
              Shield(x, a) == Placeholder[k..] + Shield(x[|Placeholder| - k..], a)
  {
    var w := Placeholder[k..];
    var c := x[0];
    var rest := x[1..];
    assert w == [w[0]] + Placeholder[k + 1..];
    assert x == [c] + rest;
    assert Shield(x, a) == [c] + Shield(rest, a);
    if w[0] == c {
      ConsPrefix(c, Placeholder[k + 1..], Shield(rest, a));
      ConsPrefix(c, Placeholder[k + 1..], rest);
      if w <= x {
        assert rest[|Placeholder| - (k + 1)..] == x[|Placeholder| - k..];
      }
    }
  }

  /** The last character of the placeholder, `>`, is copied as it is. */
  lemma TailAtLast(x: string, a: string)
    requires a in Abbreviations && x != [] && !(a + "." <= x)
    ensures Placeholder[|Placeholder| - 1..] <= Shield(x, a) <==> Placeholder[|Placeholder| - 1..] <= x
    ensures Placeholder[|Placeholder| - 1..] <= x ==>
              Shield(x, a) == Placeholder[|Placeholder| - 1..] + Shield(x[1..], a)
  {
    assert Placeholder[|Placeholder| - 1..] == ">";
    assert Shield(x, a) == [x[0]] + Shield(x[1..], a);
  }

  /** A tail of the placeholder is a prefix of a shielded string exactly when
      it is a prefix of the string itself: no abbreviation starts like it. */
  lemma {:induction false} ShieldKeepsTail(x: string, a: string, k: nat)
    requires a in Abbreviations && 1 <= k < |Placeholder|
    ensures Placeholder[k..] <= Shield(x, a) <==> Placeholder[k..] <= x
    ensures Placeholder[k..] <= x ==>
              Shield(x, a) == Placeholder[k..] + Shield(x[|Placeholder| - k..], a)
    decreases |Placeholder| - k
  {
    if x == [] {
    } else if a + "." <= x {
      TailAtMatch(x, a, k);
    } else if k + 1 < |Placeholder| {
      ShieldKeepsTail(x[1..], a, k + 1);
      TailAtCopy(x, a, k);
    } else {
      TailAtLast(x, a);
    }
  }

  /** ShieldThenRestore where the text starts with the abbreviation and its period. */
  lemma ShieldRestoreAtMatch(s: string, a: string)
    requires a in Abbreviations && a + "." <= s
    requires Restore(Shield(s[|a| + 1..], a)) == Restore(s[|a| + 1..])
    ensures Restore(Shield(s, a)) == Restore(s)
  {
    var rest := s[|a| + 1..];
    assert s == a + "." + rest;
    assert Shield(s, a) == a + (Placeholder + Shield(rest, a));
    RestorePlain(a, Placeholder + Shield(rest, a));
    assert Restore(Placeholder + Shield(rest, a)) == "." + Restore(Shield(rest, a));
    RestorePlain(a + ".", rest);
  }

  /** ShieldThenRestore where the text starts with the placeholder itself. */
  lemma ShieldRestoreAtPlaceholder(s: string, a: string)
    requires a in Abbreviations && Placeholder <= s && !(a + "." <= s)
    requires Restore(Shield(s[|Placeholder|..], a)) == Restore(s[|Placeholder|..])
    ensures Restore(Shield(s, a)) == Restore(s)
  {
    var rest := s[|Placeholder|..];
    ShieldKeepsTail(s[1..], a, 1);
    assert s[1..][|Placeholder| - 1..] == rest;
    assert Shield(s, a) == [s[0]] + Shield(s[1..], a);
    assert Shield(s, a) == Placeholder + Shield(rest, a);
  }

  /** ShieldThenRestore where the first character is copied by both. */
  lemma ShieldRestoreAtCopy(s: string, a: string)
    requires a in Abbreviations && s != [] && !(a + "." <= s) && !(Placeholder <= s)
    requires Restore(Shield(s[1..], a)) == Restore(s[1..])
    ensures Restore(Shield(s, a)) == Restore(s)
  {
    assert Shield(s, a) == [s[0]] + Shield(s[1..], a);
    if s[0] == '<' {
      ShieldKeepsTail(s[1..], a, 1);
      ConsPrefix('<', Placeholder[1..], s[1..]);
      ConsPrefix('<', Placeholder[1..], Shield(s[1..], a));
      assert Placeholder == ['<'] + Placeholder[1..];
      assert s == ['<'] + s[1..];
      assert !(Placeholder <= Shield(s, a));
    } else {
      RestorePlain([s[0]], Shield(s[1..], a));
      RestorePlain([s[0]], s[1..]);
      assert [s[0]] + s[1..] == s;
    }
  }

  /** Shielding one abbreviation is undone by restoring the placeholder. */
  lemma {:induction false} ShieldThenRestore(s: string, a: string)
    requires a in Abbreviations
    ensures Restore(Shield(s, a)) == Restore(s)
    decreases |s|
  {
    if s == [] {
    } else if a + "." <= s {
      ShieldThenRestore(s[|a| + 1..], a);
      ShieldRestoreAtMatch(s, a);
    } else if Placeholder <= s {
      ShieldThenRestore(s[|Placeholder|..], a);
      ShieldRestoreAtPlaceholder(s, a);
    } else {
      ShieldThenRestore(s[1..], a);
      ShieldRestoreAtCopy(s, a);
    }
  }

  /** Protection loses nothing: restoring the placeholder gives back the text,
      whenever the text did not already contain the placeholder itself. */
  lemma ProtectRoundTrip(text: string)
    requires Absent(text, Placeholder)
    ensures Restore(Protect(text)) == text
  {
    var t1 := Shield(text, "Mr");
    var t2 := Shield(t1, "Mrs");
    var t3 := Shield(t2, "Dr");
    var t4 := Shield(t3, "Ms");
    ShieldThenRestore(t4, "vs");
    ShieldThenRestore(t3, "Ms");
    ShieldThenRestore(t2, "Dr");
    ShieldThenRestore(t1, "Mrs");
    ShieldThenRestore(text, "Mr");
    ReplaceAbsent(text, Placeholder, ".");
  }

  /** The characters of the abbreviations: none is punctuation or part of
      the placeholder's brackets, and no letter after the first is a first letter. */
  lemma AbbreviationChars(a: string)
    requires a in Abbreviations
    ensures 2 <= |a| && a[0] in {'M', 'D', 'v'}
    ensures forall k :: 1 <= k < |a| ==> a[k] in {'r', 's'}
  {
  }

  /** `w` does not occur in what is left of a string after dropping a prefix. */
  lemma AbsentDrop(s: string, w: string, k: nat)
    requires k <= |s| && Absent(s, w)
    ensures Absent(s[k..], w)
  {
    forall i: nat
      ensures !OccursAt(s[k..], w, i)
    {
      assert !OccursAt(s, w, i + k);
      if i + |w| <= |s[k..]| {
        assert s[k..][i..i + |w|] == s[i + k..i + k + |w|];
      }
    }
  }

  /** `w` is absent from `x + y` when it is absent from `y` and starts nowhere in `x`. */
  lemma AbsentPrepend(x: string, y: string, w: string)
    requires Absent(y, w)
    requires forall i: nat :: i < |x| ==> !OccursAt(x + y, w, i)
    ensures Absent(x + y, w)
  {
    forall i: nat | |x| <= i
      ensures !OccursAt(x + y, w, i)
    {
      assert !OccursAt(y, w, i - |x|);
      if i + |w| <= |x + y| {
        assert (x + y)[i..i + |w|] == y[i - |x|..i - |x| + |w|];
      }
    }
  }

  /** A string that avoids the abbreviation's first letter begins a shielded
      text only if it begins the text itself. */
  lemma {:induction false} PrefixThroughShield(t: string, a: string, u: string)
    requires a in Abbreviations
    requires forall k :: 0 <= k < |u| ==> u[k] != a[0]
    ensures u <= Shield(t, a) ==> u <= t
    decreases |t|
  {
    if t != [] && u != [] {
      if a + "." <= t {
        assert Shield(t, a) == a + Placeholder + Shield(t[|a| + 1..], a);
        assert Shield(t, a)[0] == a[0];
      } else {
        assert Shield(t, a) == [t[0]] + Shield(t[1..], a);
        PrefixThroughShield(t[1..], a, u[1..]);
        ConsPrefix(t[0], u[1..], Shield(t[1..], a));
        ConsPrefix(t[0], u[1..], t[1..]);
        assert u[0] == t[0] ==> u == [t[0]] + u[1..];
        assert t == [t[0]] + t[1..];
      }
    }
  }

  /** The placeholder's closing bracket keeps an abbreviation's period from
      following a shielded abbreviation. */
  lemma ClearAfterMatch(a: string, b: string, y: string)
    requires a in Abbreviations && b in Abbreviations
    requires Absent(y, b + ".")
    ensures Absent(a + Placeholder + y, b + ".")
  {
    var w := b + ".";
    var rep := a + Placeholder;
    var x := rep + y;
    AbbreviationBrackets(a, b);
    forall i: nat | i < |rep|
      ensures !OccursAt(x, w, i)
    {
      if i + |w| <= |x| {
        var seen := x[i..i + |w|];
        if i + |w| - 1 < |rep| {
          var k := |w| - 1;
          assert w[k] == '.';
          assert seen[k] == rep[i + k];
          assert rep[i + k] in rep;
          assert seen[k] != w[k];
        } else {
          var k := |rep| - 1 - i;
          assert 0 <= k < |b|;
          assert w[k] == b[k];
          assert w[k] in b;
          assert seen[k] == rep[|rep| - 1];
          assert seen[k] != w[k];
        }
      }
    }
    AbsentPrepend(rep, y, w);
  }

  /** A shielded abbreviation holds no period and ends with `>`, which no
      abbreviation holds. */
  lemma AbbreviationBrackets(a: string, b: string)
    requires a in Abbreviations && b in Abbreviations
    ensures '.' !in a + Placeholder && (a + Placeholder)[|a + Placeholder| - 1] == '>'
    ensures '>' !in b && 2 <= |b| <= 3
  {
  }

  /** A character copied by the shielding starts no abbreviation with its
      period when it started none in the text. */
  lemma ClearAfterCopy(s: string, a: string, b: string)
    requires a in Abbreviations && b in Abbreviations && s != []
    requires !(b + "." <= s)
    requires Absent(Shield(s[1..], a), b + ".")
    ensures Absent([s[0]] + Shield(s[1..], a), b + ".")
  {
    var w := b + ".";
    var y := Shield(s[1..], a);
    AbbreviationChars(a);
    AbbreviationChars(b);
    PrefixThroughShield(s[1..], a, w[1..]);
    ConsPrefix(s[0], w[1..], y);
    ConsPrefix(s[0], w[1..], s[1..]);
    assert w == [w[0]] + w[1..];
    assert s == [s[0]] + s[1..];
    assert !OccursAt([s[0]] + y, w, 0);
    AbsentPrepend([s[0]], y, w);
  }

  /** Shielding `a` leaves no abbreviation `b` followed by a period: none of
      `a` when `b` is `a`, and none that was not there before otherwise. */
  lemma {:induction false} ShieldClear(s: string, a: string, b: string)
    requires a in Abbreviations && b in Abbreviations
    requires a == b || Absent(s, b + ".")
    ensures Absent(Shield(s, a), b + ".")
    decreases |s|
  {
    var w := b + ".";
    var pat := a + ".";
    if s == [] {
      assert Shield(s, a) == [];
    } else if pat <= s {
      var rest := s[|pat|..];
      if a != b {
        AbsentDrop(s, w, |pat|);
      }
      ShieldClear(rest, a, b);
      assert Shield(s, a) == a + Placeholder + Shield(rest, a);
      ClearAfterMatch(a, b, Shield(rest, a));
    } else {
      if a != b {
        AbsentDrop(s, w, 1);
        assert !OccursAt(s, w, 0);
      }
      ShieldClear(s[1..], a, b);
      assert Shield(s, a) == [s[0]] + Shield(s[1..], a);
      ClearAfterCopy(s, a, b);
    }
  }

  /** After protection no abbreviation is followed by a period, so none of
      them can end a sentence: the splitter never sees their periods. */
  lemma ProtectClears(text: string)
    ensures Absent(Protect(text), "Mr.") && Absent(Protect(text), "Mrs.")
    ensures Absent(Protect(text), "Dr.") && Absent(Protect(text), "Ms.")
    ensures Absent(Protect(text), "vs.")
  {
    var t1 := Shield(text, "Mr");
    var t2 := Shield(t1, "Mrs");
    var t3 := Shield(t2, "Dr");
    var t4 := Shield(t3, "Ms");
    assert "Mr" + "." == "Mr." && "Mrs" + "." == "Mrs." && "Dr" + "." == "Dr.";
    assert "Ms" + "." == "Ms." && "vs" + "." == "vs.";
    ShieldClear(text, "Mr", "Mr");
    ShieldClear(t1, "Mrs", "Mr");
    ShieldClear(t1, "Mrs", "Mrs");
    ShieldClear(t2, "Dr", "Mr");
    ShieldClear(t2, "Dr", "Mrs");
    ShieldClear(t2, "Dr", "Dr");
    ShieldClear(t3, "Ms", "Mr");
    ShieldClear(t3, "Ms", "Mrs");
    ShieldClear(t3, "Ms", "Dr");
    ShieldClear(t3, "Ms", "Ms");
    ShieldClear(t4, "vs", "Mr");
    ShieldClear(t4, "vs", "Mrs");
    ShieldClear(t4, "vs", "Dr");
    ShieldClear(t4, "vs", "Ms");
    ShieldClear(t4, "vs", "vs");
  }

  // ---------------------------------------------------------------------
  // The split with the capturing pattern ([.!?]+[\s]+)
  // ---------------------------------------------------------------------

  /** End of the run of terminal punctuation that starts at `i`. */
  function PunctEnd(p: string, i: nat): (j: nat)
    requires i <= |p|
    ensures i <= j <= |p|
    ensures i < |p| && IsTerminal(p[i]) ==> i < j
    ensures j == |p| || !IsTerminal(p[j])
    decreases |p| - i
  {
    if i < |p| && IsTerminal(p[i]) then PunctEnd(p, i + 1) else i
  }

  lemma {:induction false} PunctRun(p: string, i: nat)
    requires i <= |p|
    ensures forall k :: i <= k < PunctEnd(p, i) ==> IsTerminal(p[k])
    decreases |p| - i
  {
    if i < |p| && IsTerminal(p[i]) {
      PunctRun(p, i + 1);
    }
  }

  /** End of the run of whitespace that starts at `i`. */
  function SpaceEnd(p: string, i: nat): (j: nat)
    requires i <= |p|
    ensures i <= j <= |p|
    ensures i < |p| && IsSpace(p[i]) ==> i < j
    ensures j == |p| || !IsSpace(p[j])
    decreases |p| - i
  {
    if i < |p| && IsSpace(p[i]) then SpaceEnd(p, i + 1) else i
  }

  lemma {:induction false} SpaceRun(p: string, i: nat)
    requires i <= |p|
    ensures forall k :: i <= k < SpaceEnd(p, i) ==> IsSpace(p[k])
    decreases |p| - i
  {
    if i < |p| && IsSpace(p[i]) {
      SpaceRun(p, i + 1);
    }
  }

  /** The pattern matches at `i`: the greedy run `[.!?]+` from `i` is followed
      by whitespace (backing off inside the run can never help, since the
      character after a shorter run is punctuation again). */
  predicate MatchAt(p: string, i: nat)
    requires i <= |p|
  {
    i < |p| && IsTerminal(p[i]) && PunctEnd(p, i) < |p| && IsSpace(p[PunctEnd(p, i)])
  }

  /** A captured separator: a non-empty run of terminal punctuation, then a
      non-empty run of whitespace. */
  predicate IsSeparator(x: string) {
    var m := |RStrip(x)|;
    0 < m < |x| && forall k :: 0 <= k < m ==> IsTerminal(x[k])
  }

  /** The scan of `re.split`: the segment being read runs from `start` to `i`,
      and the leftmost match is searched from `i` on. */
  function Scan(p: string, start: nat, i: nat): seq<string>
    requires start <= i <= |p|
    decreases |p| - i
  {
    if i == |p| then [p[start..]]
    else if MatchAt(p, i) then
      var e := SpaceEnd(p, PunctEnd(p, i));
      [p[start..i], p[i..e]] + Scan(p, e, e)
    else Scan(p, start, i + 1)
  }

  /** `re.split(r'([.!?]+[\s]+)', p)`: segments at even indices, the captured
      separators at odd indices, so there is always one segment more than
      there are separators. */
  function ReSplit(p: string): (parts: seq<string>)
    ensures |parts| == 2 * PieceCount(parts) - 1
  {
    ScanParity(p, 0, 0);
    Scan(p, 0, 0)
  }

  /** The number of segments, which is the number of iterations of the loop over `parts`. */
  function PieceCount(parts: seq<string>): nat {
    (|parts| + 1) / 2
  }

  lemma {:induction false} ScanParity(p: string, start: nat, i: nat)
    requires start <= i <= |p|
    ensures |Scan(p, start, i)| == 2 * PieceCount(Scan(p, start, i)) - 1
    decreases |p| - i
  {
    if i < |p| {
      if MatchAt(p, i) {
        var e := SpaceEnd(p, PunctEnd(p, i));
        ScanParity(p, e, e);
      } else {
        ScanParity(p, start, i + 1);
      }
    }
  }

  lemma {:induction false} ScanFlatten(p: string, start: nat, i: nat)
    requires start <= i <= |p|
    ensures Flatten(Scan(p, start, i)) == p[start..]
    decreases |p| - i
  {
    if i == |p| {
      assert Flatten([p[start..]]) == Flatten([]) + p[start..];
    } else if MatchAt(p, i) {
      var e := SpaceEnd(p, PunctEnd(p, i));
      ScanFlatten(p, e, e);
      FlattenConcat([p[start..i], p[i..e]], Scan(p, e, e));
      assert Flatten([p[start..i], p[i..e]]) == p[start..i] + p[i..e] by {
        assert [p[start..i], p[i..e]][..1] == [p[start..i]];
        assert Flatten([p[start..i]]) == Flatten([]) + p[start..i];
      }
      assert p[start..] == p[start..i] + p[i..e] + p[e..];
    } else {
      ScanFlatten(p, start, i + 1);
    }
  }

  /** `rstrip()` of punctuation followed by whitespace is the punctuation. */
  lemma {:induction false} RStripTrailingSpace(a: string, b: string)
    requires a != [] && !IsSpace(a[|a| - 1])
    requires forall k :: 0 <= k < |b| ==> IsSpace(b[k])
    ensures RStrip(a + b) == a
    decreases |b|
  {
    if b == [] {
      assert a + b == a;
    } else {
      var n := |b|;
      assert (a + b)[..|a + b| - 1] == a + b[..n - 1];
      RStripTrailingSpace(a, b[..n - 1]);
    }
  }

  lemma SeparatorShape(p: string, i: nat)
    requires i <= |p| && MatchAt(p, i)
    ensures IsSeparator(p[i..SpaceEnd(p, PunctEnd(p, i))])
  {
    var m := PunctEnd(p, i);
    var e := SpaceEnd(p, m);
    PunctRun(p, i);
    SpaceRun(p, m);
    var x := p[i..e];
    assert x == p[i..m] + p[m..e];
    RStripTrailingSpace(p[i..m], p[m..e]);
  }

  /** The part after the `j`-th segment, if there is one, is a separator. */
  predicate SeparatorAfter(parts: seq<string>, j: nat) {
    2 * j + 1 < |parts| ==> IsSeparator(parts[2 * j + 1])
  }

  lemma {:induction false} ScanSeparators(p: string, start: nat, i: nat)
    requires start <= i <= |p|
    ensures forall j: nat :: SeparatorAfter(Scan(p, start, i), j)
    decreases |p| - i
  {
    if i < |p| {
      if MatchAt(p, i) {
        var e := SpaceEnd(p, PunctEnd(p, i));
        var rest := Scan(p, e, e);
        var parts := [p[start..i], p[i..e]] + rest;
        ScanSeparators(p, e, e);
        SeparatorShape(p, i);
        forall j: nat
          ensures SeparatorAfter(parts, j)
        {
          if 0 < j && 2 * j + 1 < |parts| {
            assert parts[2 * j + 1] == rest[2 * (j - 1) + 1];
            assert SeparatorAfter(rest, j - 1);
          }
        }
      } else {
        ScanSeparators(p, start, i + 1);
      }
    }
  }

  /** No `.`, `!` or `?` in `s` is directly followed by whitespace, so no
      match of `[.!?]+[\s]+` lies inside `s`. */
  predicate NoBoundary(s: string) {
    forall k :: 0 < k < |s| ==> !(IsTerminal(s[k - 1]) && IsSpace(s[k]))
  }

  /** The `j`-th segment holds no boundary; when a separator follows it, it
      does not end with punctuation (the separator took the whole run); when
      a separator precedes it, it does not start with whitespace (the
      separator took the whole whitespace run). */
  predicate SegmentCut(parts: seq<string>, j: nat) {
    2 * j < |parts| ==>
      NoBoundary(parts[2 * j])
      && (2 * j + 1 < |parts| ==> !EndsWithTerminal(parts[2 * j]))
      && (0 < j && parts[2 * j] != [] ==> !IsSpace(parts[2 * j][0]))
  }

  /** Punctuation directly followed by whitespace is a match. */
  lemma BoundaryMatch(p: string, m: nat)
    requires m + 1 < |p|
    ensures IsTerminal(p[m]) && IsSpace(p[m + 1]) ==> MatchAt(p, m)
  {
    if IsTerminal(p[m]) && IsSpace(p[m + 1]) {
      assert !IsTerminal(p[m + 1]);
      assert PunctEnd(p, m + 1) == m + 1;
    }
  }

  /** A match preceded by punctuation extends back over it. */
  lemma MatchBack(p: string, i: nat)
    requires 0 < i <= |p|
    ensures MatchAt(p, i) && IsTerminal(p[i - 1]) ==> MatchAt(p, i - 1)
  {
    if IsTerminal(p[i - 1]) {
      assert PunctEnd(p, i - 1) == PunctEnd(p, i);
    }
  }

  /** A slice of `p` from `start` in which no match starts holds no boundary. */
  lemma NoMatchNoBoundary(p: string, start: nat, i: nat)
    requires start <= i <= |p|
    requires forall k :: start <= k < i ==> !MatchAt(p, k)
    ensures NoBoundary(p[start..i])
  {
    var seg := p[start..i];
    forall k | 0 < k < |seg|
      ensures !(IsTerminal(seg[k - 1]) && IsSpace(seg[k]))
    {
      assert seg[k - 1] == p[start + k - 1] && seg[k] == p[start + k];
      BoundaryMatch(p, start + k - 1);
    }
  }

  /** The scan cuts at every match: every segment it yields is cut clean,
      and its first segment starts the unread text. */
  lemma {:induction false} ScanSegments(p: string, start: nat, i: nat)
    requires start <= i <= |p|
    requires forall k :: start <= k < i ==> !MatchAt(p, k)
    ensures |Scan(p, start, i)| >= 1 && Scan(p, start, i)[0] <= p[start..]
    ensures forall j: nat :: SegmentCut(Scan(p, start, i), j)
    decreases |p| - i
  {
    ScanParity(p, start, i);
    var parts := Scan(p, start, i);
    if i == |p| {
      NoMatchNoBoundary(p, start, i);
      assert parts == [p[start..]];
    } else if MatchAt(p, i) {
      var e := SpaceEnd(p, PunctEnd(p, i));
      var rest := Scan(p, e, e);
      assert parts == [p[start..i], p[i..e]] + rest;
      ScanSegments(p, e, e);
      NoMatchNoBoundary(p, start, i);
      if start < i {
        MatchBack(p, i);
      }
      assert SegmentCut(parts, 0);
      forall j: nat | 0 < j
        ensures SegmentCut(parts, j)
      {
        assert SegmentCut(rest, j - 1);
        if 2 * j < |parts| {
          assert parts[2 * j] == rest[2 * (j - 1)];
          assert 2 * j + 1 < |parts| ==> parts[2 * j + 1] == rest[2 * (j - 1) + 1];
          if j == 1 && rest[0] != [] {
            assert rest[0][0] == p[e..][0] == p[e];
          }
        }
      }
    } else {
      ScanSegments(p, start, i + 1);
    }
  }

  /** The split alternates segments and separators, begins and ends with a
      segment, and joined back gives its input. It cuts at every match:
      no segment holds a `.`, `!` or `?` followed by whitespace, no segment
      before a separator ends with punctuation, and no segment after one
      starts with whitespace. */
  lemma ReSplitSpec(p: string)
    ensures Flatten(ReSplit(p)) == p
    ensures forall j: nat :: SeparatorAfter(ReSplit(p), j)
    ensures forall j: nat :: SegmentCut(ReSplit(p), j)
  {
    ScanFlatten(p, 0, 0);
    ScanSeparators(p, 0, 0);
    ScanSegments(p, 0, 0);
  }

  // ---------------------------------------------------------------------
  // Recombination
  // ---------------------------------------------------------------------

  /** The text the loop builds at index `i`: the segment followed by the
      punctuation of the separator after it (its whitespace dropped). */
  function Raw(parts: seq<string>, i: nat): string
    requires i < |parts|
  {
    if i + 1 < |parts| then parts[i] + RStrip(parts[i + 1]) else parts[i]
  }

  /** The candidate sentence at index `i`: periods restored, then stripped. */
  function Piece(parts: seq<string>, i: nat): string
    requires i < |parts|
  {
    Strip(Restore(Raw(parts, i)))
  }

  /** The candidate sentences, one per segment, in order: the `j`-th is built
      from the segment at index `2 * j`. */
  function Candidates(parts: seq<string>): (ps: seq<string>)
    requires |parts| == 2 * PieceCount(parts) - 1
  {
    seq(PieceCount(parts), j requires 0 <= j < PieceCount(parts) => Piece(parts, 2 * j))
  }

  /** The strings of `ps` that are not empty, in order: the `if sentence.strip()` filter. */
  function NonEmpty(ps: seq<string>): seq<string> {
    if ps == [] then []
    else
      var last := ps[|ps| - 1];
      NonEmpty(ps[..|ps| - 1]) + (if last != [] then [last] else [])
  }

  /** What `_split_into_sentences(text)` returns. */
  function Sentences(text: string): seq<string> {
    NonEmpty(Candidates(ReSplit(Protect(text))))
  }

  method SplitIntoSentences(text: string) returns (sentences: seq<string>)
    ensures sentences == Sentences(text)
    ensures AllTrimmed(sentences)
    ensures forall k :: 0 <= k < |sentences| - 1 ==> EndsWithTerminal(sentences[k])
    ensures sentences == RestoreAll(ProtectedSentences(text))
    ensures forall k :: 0 <= k < |ProtectedSentences(text)| ==> NoBoundary(ProtectedSentences(text)[k])
  {
    var t := text;
    t := Replace(t, "Mr.", "Mr<DOT>");
    t := Replace(t, "Mrs.", "Mrs<DOT>");
    t := Replace(t, "Dr.", "Dr<DOT>");
    t := Replace(t, "Ms.", "Ms<DOT>");
    t := Replace(t, "vs.", "vs<DOT>");
    ProtectLiterally(text);
    var parts := ReSplit(t);
    sentences := Recombine(parts);
    SentencesTrimmed(text);
    SentencesKeepPunctuation(text);
    SentencesCutEverywhere(text);
  }

  /** The loop of `_split_into_sentences` over the parts of the split: each
      segment takes the punctuation of the separator after it, periods are
      restored, and what is left after stripping is kept if it is not empty. */
  method Recombine(parts: seq<string>) returns (sentences: seq<string>)
    requires |parts| == 2 * PieceCount(parts) - 1
    ensures sentences == NonEmpty(Candidates(parts))
  {
    ghost var ps := Candidates(parts);
    sentences := [];
    var i := 0;
    ghost var n := 0;
    while i < |parts|
      invariant i == 2 * n && i <= |parts| + 1
      invariant sentences == NonEmpty(ps[..n])
    {
      var sentence := parts[i];
      if i + 1 < |parts| {
        sentence := sentence + RStrip(parts[i + 1]);
      }
      assert sentence == Raw(parts, i);
      sentence := Replace(sentence, "<DOT>", ".");
      assert sentence == Restore(Raw(parts, i));
      assert Strip(sentence) == ps[n];
      if Strip(sentence) != [] {
        sentences := sentences + [Strip(sentence)];
      }
      assert ps[..n + 1][..n] == ps[..n];
      i := i + 2;
      n := n + 1;
    }
    assert ps[..n] == ps;
  }

  /** The five literal replacements of the source are the five shields. */
  lemma ProtectLiterally(text: string)
    ensures Protect(text) ==
      Replace(Replace(Replace(Replace(Replace(text, "Mr.", "Mr<DOT>"), "Mrs.", "Mrs<DOT>"),
        "Dr.", "Dr<DOT>"), "Ms.", "Ms<DOT>"), "vs.", "vs<DOT>")
  {
    assert "Mr." == "Mr" + "." && "Mrs." == "Mrs" + "." && "Dr." == "Dr" + "."
      && "Ms." == "Ms" + "." && "vs." == "vs" + ".";
    assert "Mr<DOT>" == "Mr" + Placeholder && "Mrs<DOT>" == "Mrs" + Placeholder
      && "Dr<DOT>" == "Dr" + Placeholder && "Ms<DOT>" == "Ms" + Placeholder
      && "vs<DOT>" == "vs" + Placeholder;
  }

  // ---------------------------------------------------------------------
  // Properties of the sentences
  // ---------------------------------------------------------------------

  /** Every sentence is non-empty and has no whitespace at either end. */
  predicate AllTrimmed(ss: seq<string>) {
    forall k :: 0 <= k < |ss| ==> ss[k] != [] && IsTrimmed(ss[k])
  }

  predicate AllEndTerminal(ss: seq<string>) {
    forall k :: 0 <= k < |ss| ==> EndsWithTerminal(ss[k])
  }

  lemma {:induction false} NonEmptyTrimmed(ps: seq<string>)
    requires forall k :: 0 <= k < |ps| ==> IsTrimmed(ps[k])
    ensures AllTrimmed(NonEmpty(ps))
    decreases |ps|
  {
    if ps != [] {
      var init := ps[..|ps| - 1];
      NonEmptyTrimmed(init);
      var rest := NonEmpty(init);
      assert forall k :: 0 <= k < |rest| ==> (rest + [ps[|ps| - 1]])[k] == rest[k];
    }
  }

  /** Filtering strings that are all non-empty keeps them all. */
  lemma {:induction false} NonEmptyKeepsAll(ps: seq<string>)
    requires forall k :: 0 <= k < |ps| ==> ps[k] != []
    ensures NonEmpty(ps) == ps
    decreases |ps|
  {
    if ps != [] {
      NonEmptyKeepsAll(ps[..|ps| - 1]);
    }
  }

  /** When every string but the last ends with punctuation, so does every
      string but the last after filtering. */
  lemma NonEmptyTerminal(ps: seq<string>)
    requires forall k :: 0 <= k < |ps| - 1 ==> EndsWithTerminal(ps[k])
    ensures forall k :: 0 <= k < |NonEmpty(ps)| - 1 ==> EndsWithTerminal(NonEmpty(ps)[k])
  {
    if ps != [] {
      var init := ps[..|ps| - 1];
      NonEmptyKeepsAll(init);
      var last := ps[|ps| - 1];
      assert forall k :: 0 <= k < |init| ==> (init + [last])[k] == init[k];
    }
  }

  /** Every candidate sentence is stripped. */
  lemma CandidatesTrimmed(parts: seq<string>)
    requires |parts| == 2 * PieceCount(parts) - 1
    ensures forall j :: 0 <= j < |Candidates(parts)| ==> IsTrimmed(Candidates(parts)[j])
  {
    forall j | 0 <= j < |Candidates(parts)|
      ensures IsTrimmed(Candidates(parts)[j])
    {
      StripSpec(Restore(Raw(parts, 2 * j)));
    }
  }

  /** Every candidate sentence but the last ends with the punctuation of the separator after it. */
  lemma CandidatesTerminal(parts: seq<string>)
    requires |parts| == 2 * PieceCount(parts) - 1
    requires forall j: nat :: SeparatorAfter(parts, j)
    ensures forall j :: 0 <= j < |Candidates(parts)| - 1 ==> EndsWithTerminal(Candidates(parts)[j])
  {
    forall j | 0 <= j < |Candidates(parts)| - 1
      ensures EndsWithTerminal(Candidates(parts)[j])
    {
      assert SeparatorAfter(parts, j);
      PieceEndsWithPunctuation(parts, 2 * j);
    }
  }

  /** Every sentence is non-empty and has no whitespace at either end. */
  lemma SentencesTrimmed(text: string)
    ensures AllTrimmed(Sentences(text))
  {
    var parts := ReSplit(Protect(text));
    CandidatesTrimmed(parts);
    NonEmptyTrimmed(Candidates(parts));
  }

  /** Replacing a pattern whose last character is not `c` keeps a final `c`. */
  lemma {:induction false} ReplaceKeepsLast(s: string, pat: string, rep: string, c: char)
    requires pat != [] && pat[|pat| - 1] != c
    requires EndsWith(s, c)
    ensures EndsWith(Replace(s, pat, rep), c)
    decreases |s|
  {
    if pat <= s {
      var rest := s[|pat|..];
      assert |s| > |pat| by {
        assert s[|pat| - 1] == pat[|pat| - 1];
      }
      assert rest[|rest| - 1] == s[|s| - 1];
      ReplaceKeepsLast(rest, pat, rep, c);
    } else if |s| > 1 {
      assert s[1..][|s| - 2] == s[|s| - 1];
      ReplaceKeepsLast(s[1..], pat, rep, c);
    }
  }

  /** A segment followed by its separator's punctuation ends with terminal punctuation. */
  lemma RawEndsWithPunctuation(parts: seq<string>, i: nat) returns (c: char)
    requires i + 1 < |parts| && IsSeparator(parts[i + 1])
    ensures IsTerminal(c) && EndsWith(Raw(parts, i), c)
  {
    var sep := parts[i + 1];
    var punct := RStrip(sep);
    RStripSpec(sep);
    assert Raw(parts, i) == parts[i] + punct;
    c := punct[|punct| - 1];
    assert c == sep[|punct| - 1];
  }

  /** Restoring and stripping keep a final punctuation character. */
  lemma RestoreStripKeepsLast(raw: string, c: char)
    requires IsTerminal(c) && EndsWith(raw, c)
    ensures Strip(Restore(raw)) != [] && EndsWith(Strip(Restore(raw)), c)
  {
    assert !IsSpace(c);
    assert Placeholder[|Placeholder| - 1] != c;
    ReplaceKeepsLast(raw, Placeholder, ".", c);
    StripKeepsLast(Restore(raw));
  }

  /** The piece built from a segment and the separator after it ends with
      the separator's last punctuation character. */
  lemma PieceEndsWithPunctuation(parts: seq<string>, i: nat)
    requires i + 1 < |parts| && IsSeparator(parts[i + 1])
    ensures Piece(parts, i) != [] && EndsWithTerminal(Piece(parts, i))
  {
    var c := RawEndsWithPunctuation(parts, i);
    RestoreStripKeepsLast(Raw(parts, i), c);
  }

  /** The punctuation of each boundary stays on the sentence before it: every
      sentence except the last ends with `.`, `!` or `?`. */
  lemma SentencesKeepPunctuation(text: string)
    ensures forall k :: 0 <= k < |Sentences(text)| - 1 ==> EndsWithTerminal(Sentences(text)[k])
  {
    var parts := ReSplit(Protect(text));
    ReSplitSpec(Protect(text));
    CandidatesTerminal(parts);
    NonEmptyTerminal(Candidates(parts));
  }

  // ---------------------------------------------------------------------
  // Nothing but whitespace is lost
  // ---------------------------------------------------------------------

  /** Restoring can be done piece by piece when the first piece cannot end
      inside a placeholder. */
  lemma {:induction false} RestoreSplit(x: string, y: string)
    requires x == [] || x[|x| - 1] !in Placeholder
    ensures Restore(x + y) == Restore(x) + Restore(y)
    decreases |x|
  {
    if x == [] {
      assert x + y == y;
    } else if Placeholder <= x {
      assert (x + y)[..|Placeholder|] == x[..|Placeholder|];
      assert (x + y)[|Placeholder|..] == x[|Placeholder|..] + y;
      RestoreSplit(x[|Placeholder|..], y);
    } else {
      assert !(Placeholder <= x + y) by {
        if |x| >= |Placeholder| {
          assert (x + y)[..|Placeholder|] == x[..|Placeholder|];
        } else {
          assert x[|x| - 1] == (x + y)[|x| - 1];
        }
      }
      assert (x + y)[0] == x[0];
      assert (x + y)[1..] == x[1..] + y;
      RestoreSplit(x[1..], y);
    }
  }

  // ---------------------------------------------------------------------
  // The sentences are cut at every boundary of the protected text
  // ---------------------------------------------------------------------

  /** No character of `w` can be part of the placeholder. */
  predicate OutsidePlaceholder(w: string) {
    forall k :: 0 <= k < |w| ==> w[k] !in Placeholder
  }

  /** Restoring leaves the empty string empty and nothing else. */
  lemma RestoreEmpty(x: string)
    ensures Restore(x) == [] <==> x == []
  {
  }

  /** Restoring keeps a first character that is not whitespace. */
  lemma RestoreStart(y: string)
    requires y != [] && !IsSpace(y[0])
    ensures Restore(y) != [] && !IsSpace(Restore(y)[0])
  {
  }

  /** Restoring keeps a last character that is not whitespace (a restored
      placeholder ends with `.`). */
  lemma {:induction false} RestoreEnd(y: string)
    requires y != [] && !IsSpace(y[|y| - 1])
    ensures Restore(y) != [] && !IsSpace(Restore(y)[|Restore(y)| - 1])
    decreases |y|
  {
    if Placeholder <= y {
      var rest := y[|Placeholder|..];
      assert Restore(y) == "." + Restore(rest);
      if rest != [] {
        assert rest[|rest| - 1] == y[|y| - 1];
        RestoreEnd(rest);
      }
    } else {
      assert Restore(y) == [y[0]] + Restore(y[1..]);
      if |y| > 1 {
        assert y[1..][|y| - 2] == y[|y| - 1];
        RestoreEnd(y[1..]);
        var r := Restore(y[1..]);
        assert Restore(y)[|Restore(y)| - 1] == r[|r| - 1];
      }
    }
  }

  /** Text that holds no character of the placeholder passes through
      `Restore` unchanged behind the rest. */
  lemma {:induction false} RestoreAppendPlain(x: string, w: string)
    requires OutsidePlaceholder(w)
    ensures Restore(x + w) == Restore(x) + w
    decreases |x|
  {
    if w == [] {
      assert x + w == x;
    } else if x == [] {
      assert x + w == w;
      assert '<' !in w by {
        assert '<' == Placeholder[0];
      }
      RestorePlain(w, []);
      assert w + [] == w;
    } else if Placeholder <= x {
      assert (x + w)[..|Placeholder|] == x[..|Placeholder|];
      assert (x + w)[|Placeholder|..] == x[|Placeholder|..] + w;
      RestoreAppendPlain(x[|Placeholder|..], w);
    } else {
      assert !(Placeholder <= x + w) by {
        if |x| >= |Placeholder| {
          assert (x + w)[..|Placeholder|] == x[..|Placeholder|];
        } else {
          assert (x + w)[|x|] == w[0] && w[0] !in Placeholder;
        }
      }
      assert (x + w)[0] == x[0];
      assert (x + w)[1..] == x[1..] + w;
      RestoreAppendPlain(x[1..], w);
    }
  }

  /** Whitespace holds no character of the placeholder. */
  lemma SpacesOutsidePlaceholder(w: string)
    requires forall k :: 0 <= k < |w| ==> IsSpace(w[k])
    ensures OutsidePlaceholder(w)
  {
  }

  /** Leading whitespace is stripped the same before or after restoring. */
  lemma {:induction false} LStripRestore(x: string)
    ensures LStrip(Restore(x)) == Restore(LStrip(x))
    decreases |x|
  {
    if x != [] {
      if IsSpace(x[0]) {
        assert !(Placeholder <= x);
        assert Restore(x) == [x[0]] + Restore(x[1..]);
        LStripRestore(x[1..]);
      } else {
        RestoreStart(x);
      }
    }
  }

  /** Trailing whitespace is stripped the same before or after restoring. */
  lemma RStripRestore(x: string)
    ensures RStrip(Restore(x)) == Restore(RStrip(x))
  {
    var r := RStrip(x);
    RStripSpec(x);
    var ws := x[|r|..];
    assert x == r + ws;
    SpacesOutsidePlaceholder(ws);
    RestoreAppendPlain(r, ws);
    if r == [] {
      assert Restore(x) == ws;
      RStripSpaces(ws);
    } else {
      RestoreEnd(r);
      RStripTrailingSpace(Restore(r), ws);
    }
  }

  /** Whitespace alone strips to nothing. */
  lemma {:induction false} RStripSpaces(ws: string)
    requires forall k :: 0 <= k < |ws| ==> IsSpace(ws[k])
    ensures RStrip(ws) == []
    decreases |ws|
  {
    if ws != [] {
      RStripSpaces(ws[..|ws| - 1]);
    }
  }

  /** Stripping commutes with restoring the placeholder. */
  lemma StripRestore(x: string)
    ensures Strip(Restore(x)) == Restore(Strip(x))
  {
    LStripRestore(x);
    RStripRestore(LStrip(x));
  }

  /** Every string of `ss` with the placeholder restored. */
  function RestoreAll(ss: seq<string>): (rs: seq<string>)
    ensures |rs| == |ss|
  {
    seq(|ss|, k requires 0 <= k < |ss| => Restore(ss[k]))
  }

  /** The candidate at index `i` before its placeholders are restored. */
  function ProtectedPiece(parts: seq<string>, i: nat): string
    requires i < |parts|
  {
    Strip(Raw(parts, i))
  }

  function ProtectedCandidates(parts: seq<string>): (ps: seq<string>)
    requires |parts| == 2 * PieceCount(parts) - 1
  {
    seq(PieceCount(parts), j requires 0 <= j < PieceCount(parts) => ProtectedPiece(parts, 2 * j))
  }

  /** The sentences as cut from the protected text, before the abbreviation
      periods are restored. */
  function ProtectedSentences(text: string): seq<string> {
    NonEmpty(ProtectedCandidates(ReSplit(Protect(text))))
  }

  /** Filtering and restoring can be done in either order. */
  lemma {:induction false} NonEmptyRestoreAll(ps: seq<string>)
    ensures NonEmpty(RestoreAll(ps)) == RestoreAll(NonEmpty(ps))
    decreases |ps|
  {
    if ps != [] {
      var init, last := ps[..|ps| - 1], ps[|ps| - 1];
      var rs := RestoreAll(ps);
      assert rs[..|rs| - 1] == RestoreAll(init);
      NonEmptyRestoreAll(init);
      RestoreEmpty(last);
      var tail := if last != [] then [last] else [];
      assert RestoreAll(NonEmpty(init) + tail) == RestoreAll(NonEmpty(init)) + RestoreAll(tail);
    }
  }

  /** The candidates are the protected candidates, restored. */
  lemma CandidatesRestored(parts: seq<string>)
    requires |parts| == 2 * PieceCount(parts) - 1
    ensures Candidates(parts) == RestoreAll(ProtectedCandidates(parts))
  {
    forall j | 0 <= j < PieceCount(parts)
      ensures Candidates(parts)[j] == RestoreAll(ProtectedCandidates(parts))[j]
    {
      StripRestore(Raw(parts, 2 * j));
    }
  }

  /** The sentences are the protected sentences with the placeholder restored. */
  lemma SentencesRestored(text: string)
    ensures Sentences(text) == RestoreAll(ProtectedSentences(text))
  {
    var parts := ReSplit(Protect(text));
    CandidatesRestored(parts);
    NonEmptyRestoreAll(ProtectedCandidates(parts));
  }

  /** A slice of a text without boundaries has none either. */
  lemma NoBoundarySlice(x: string, a: nat, b: nat)
    requires a <= b <= |x| && NoBoundary(x)
    ensures NoBoundary(x[a..b])
  {
    forall k | 0 < k < b - a
      ensures !(IsTerminal(x[a..b][k - 1]) && IsSpace(x[a..b][k]))
    {
      assert x[a..b][k - 1] == x[a + k - 1] && x[a..b][k] == x[a + k];
    }
  }

  /** Stripping adds no boundary. */
  lemma NoBoundaryStrip(x: string)
    requires NoBoundary(x)
    ensures NoBoundary(Strip(x))
  {
    var l := LStrip(x);
    LStripSpec(x);
    RStripSpec(l);
    var a := |x| - |l|;
    var m := |RStrip(l)|;
    assert Strip(x) == x[a..a + m];
    NoBoundarySlice(x, a, a + m);
  }

  /** Punctuation appended adds no boundary. */
  lemma NoBoundaryPunct(seg: string, punct: string)
    requires NoBoundary(seg)
    requires forall k :: 0 <= k < |punct| ==> IsTerminal(punct[k])
    ensures NoBoundary(seg + punct)
  {
    var x := seg + punct;
    forall k | 0 < k < |x|
      ensures !(IsTerminal(x[k - 1]) && IsSpace(x[k]))
    {
      if k < |seg| {
        assert x[k - 1] == seg[k - 1] && x[k] == seg[k];
      } else {
        assert x[k] == punct[k - |seg|];
      }
    }
  }

  /** The punctuation of a separator is all terminal characters. */
  lemma SeparatorPunct(sep: string)
    requires IsSeparator(sep)
    ensures RStrip(sep) != [] && forall k :: 0 <= k < |RStrip(sep)| ==> IsTerminal(RStrip(sep)[k])
  {
    RStripSpec(sep);
    forall k | 0 <= k < |RStrip(sep)|
      ensures IsTerminal(RStrip(sep)[k])
    {
      assert RStrip(sep)[k] == sep[k];
    }
  }

  /** A protected candidate holds no boundary. */
  lemma ProtectedPieceCut(parts: seq<string>, j: nat)
    requires 2 * j < |parts| && SegmentCut(parts, j) && SeparatorAfter(parts, j)
    ensures NoBoundary(ProtectedPiece(parts, 2 * j))
  {
    if 2 * j + 1 < |parts| {
      SeparatorPunct(parts[2 * j + 1]);
      NoBoundaryPunct(parts[2 * j], RStrip(parts[2 * j + 1]));
    }
    NoBoundaryStrip(Raw(parts, 2 * j));
  }

  /** Every string the filter keeps was there before. */
  lemma {:induction false} NonEmptyIn(ps: seq<string>)
    ensures forall x :: x in NonEmpty(ps) ==> x in ps
    decreases |ps|
  {
    if ps != [] {
      NonEmptyIn(ps[..|ps| - 1]);
    }
  }

  /** The split cuts at every boundary of the protected text: no protected
      sentence holds a `.`, `!` or `?` followed by whitespace. Only a period
      that the restore step brings back, the period of an abbreviation, can
      be followed by whitespace inside a sentence. */
  lemma SentencesCutEverywhere(text: string)
    ensures Sentences(text) == RestoreAll(ProtectedSentences(text))
    ensures forall k :: 0 <= k < |ProtectedSentences(text)| ==> NoBoundary(ProtectedSentences(text)[k])
  {
    SentencesRestored(text);
    var parts := ReSplit(Protect(text));
    ReSplitSpec(Protect(text));
    var ps := ProtectedCandidates(parts);
    forall j | 0 <= j < |ps|
      ensures NoBoundary(ps[j])
    {
      assert SegmentCut(parts, j) && SeparatorAfter(parts, j);
      ProtectedPieceCut(parts, j);
    }
    NonEmptyIn(ps);
    forall k | 0 <= k < |ProtectedSentences(text)|
      ensures NoBoundary(ProtectedSentences(text)[k])
    {
      assert ProtectedSentences(text)[k] in ps;
    }
  }

  /** Leading whitespace of a text followed by a non-space is the leading
      whitespace of the text alone. */
  lemma {:induction false} LStripAppend(x: string, w: string)
    requires w != [] && !IsSpace(w[0])
    ensures LStrip(x + w) == LStrip(x) + w
    decreases |x|
  {
    if x == [] {
      assert x + w == w;
    } else {
      assert (x + w)[0] == x[0];
      if IsSpace(x[0]) {
        assert (x + w)[1..] == x[1..] + w;
        LStripAppend(x[1..], w);
      }
    }
  }

  /** A candidate with a separator after it is its segment, stripped of
      leading whitespace and restored, followed by the whole punctuation run. */
  lemma PieceWithRun(parts: seq<string>, i: nat)
    requires i + 1 < |parts| && IsSeparator(parts[i + 1])
    ensures Piece(parts, i) == Restore(LStrip(parts[i])) + RStrip(parts[i + 1])
  {
    var seg, punct := parts[i], RStrip(parts[i + 1]);
    SeparatorPunct(parts[i + 1]);
    LStripAppend(seg, punct);
    var y := LStrip(seg) + punct;
    assert y[|y| - 1] == punct[|punct| - 1];
    assert RStrip(y) == y;
    StripRestore(Raw(parts, i));
    RestoreAppendPlain(LStrip(seg), punct);
  }

  /** Filtering strings of which all but the last are non-empty keeps all but the last. */
  lemma NonEmptyFront(ps: seq<string>)
    requires forall k :: 0 <= k < |ps| - 1 ==> ps[k] != []
    ensures |NonEmpty(ps)| >= |ps| - 1
    ensures forall k :: 0 <= k < |ps| - 1 ==> NonEmpty(ps)[k] == ps[k]
  {
    if ps != [] {
      var init := ps[..|ps| - 1];
      NonEmptyKeepsAll(init);
    }
  }

  /** Each boundary's whole run of `.`, `!` and `?` stays on the sentence
      before it: every sentence but the last is its segment, restored,
      followed by the punctuation of the separator after the segment, and
      that segment does not end with punctuation, so the run is all of it. */
  lemma SentencesKeepWholeRun(text: string)
    ensures var parts := ReSplit(Protect(text));
      |Sentences(text)| >= PieceCount(parts) - 1
      && forall j :: 0 <= j < PieceCount(parts) - 1 ==>
           IsSeparator(parts[2 * j + 1]) && !EndsWithTerminal(parts[2 * j])
           && Sentences(text)[j] == Restore(LStrip(parts[2 * j])) + RStrip(parts[2 * j + 1])
  {
    var parts := ReSplit(Protect(text));
    ReSplitSpec(Protect(text));
    var cs := Candidates(parts);
    forall j | 0 <= j < PieceCount(parts) - 1
      ensures IsSeparator(parts[2 * j + 1]) && !EndsWithTerminal(parts[2 * j])
      ensures cs[j] != [] && cs[j] == Restore(LStrip(parts[2 * j])) + RStrip(parts[2 * j + 1])
    {
      assert SeparatorAfter(parts, j) && SegmentCut(parts, j);
      PieceWithRun(parts, 2 * j);
      SeparatorPunct(parts[2 * j + 1]);
    }
    NonEmptyFront(cs);
  }

  /** Dropping empty strings changes nothing in the concatenation. */
  lemma {:induction false} NonEmptyFlatten(ps: seq<string>)
    ensures Flatten(NonEmpty(ps)) == Flatten(ps)
    decreases |ps|
  {
    if ps != [] {
      var init := ps[..|ps| - 1];
      var last := ps[|ps| - 1];
      NonEmptyFlatten(init);
      FlattenSnoc(init, last);
      assert init + [last] == ps;
      if last != [] {
        FlattenSnoc(NonEmpty(init), last);
      } else {
        assert NonEmpty(init) + [] == NonEmpty(init);
      }
    }
  }

  /** Dropping the first segment and its separator shifts the pieces by one. */
  lemma PieceTail(parts: seq<string>, j: nat)
    requires 2 * j + 2 < |parts|
    ensures Piece(parts[2..], 2 * j) == Piece(parts, 2 * j + 2)
  {
    var rest := parts[2..];
    assert rest[2 * j] == parts[2 * j + 2];
    assert 2 * j + 1 < |rest| ==> rest[2 * j + 1] == parts[2 * j + 3];
    assert Raw(rest, 2 * j) == Raw(parts, 2 * j + 2);
  }

  /** Each candidate after the first is a candidate of the parts after the
      first segment and its separator. */
  lemma CandidatesShift(parts: seq<string>)
    requires |parts| == 2 * PieceCount(parts) - 1 && |parts| >= 3
    ensures |parts[2..]| == 2 * PieceCount(parts[2..]) - 1
    ensures |Candidates(parts)| == |Candidates(parts[2..])| + 1
    ensures forall k :: 1 <= k < |Candidates(parts)| ==>
              Candidates(parts)[k] == Candidates(parts[2..])[k - 1]
  {
    forall k | 1 <= k < |Candidates(parts)|
      ensures Candidates(parts)[k] == Candidates(parts[2..])[k - 1]
    {
      var j := k - 1;
      assert 2 * j + 2 == 2 * k;
      PieceTail(parts, j);
    }
  }

  /** The candidates after the first are the candidates of the parts after
      the first segment and its separator. */
  lemma CandidatesTail(parts: seq<string>)
    requires |parts| == 2 * PieceCount(parts) - 1 && |parts| >= 3
    ensures Candidates(parts) == [Piece(parts, 0)] + Candidates(parts[2..])
  {
    CandidatesShift(parts);
    var c, r := Candidates(parts), Candidates(parts[2..]);
    assert c[0] == Piece(parts, 0);
    SeqCons(c, r);
  }

  /** A sequence is its first element followed by the sequence of the others. */
  lemma SeqCons<T>(c: seq<T>, r: seq<T>)
    requires |c| == |r| + 1
    requires forall k :: 1 <= k < |c| ==> c[k] == r[k - 1]
    ensures c == [c[0]] + r
  {
    assert c[1..] == r;
  }

  /** The concatenation of a single string is that string. */
  lemma FlattenSingle(x: string)
    ensures Flatten([x]) == x
  {
    FlattenSnoc([], x);
    assert [] + [x] == [x];
  }

  /** Restoring a segment, the punctuation and whitespace of its separator,
      and the rest: the whitespace passes through unchanged in between. */
  lemma HeadRestore(seg: string, sep: string, f: string)
    requires IsSeparator(sep)
    ensures var punct := RStrip(sep);
      Restore(seg + sep + f) == Restore(seg + punct) + sep[|punct|..] + Restore(f)
      && forall k :: |punct| <= k < |sep| ==> IsSpace(sep[k])
  {
    var punct := RStrip(sep);
    RStripSpec(sep);
    var ws := sep[|punct|..];
    assert sep == punct + ws;
    var x := seg + punct;
    assert x[|x| - 1] == punct[|punct| - 1];
    assert IsTerminal(punct[|punct| - 1]);
    assert seg + sep + f == x + (ws + f);
    RestoreSplit(x, ws + f);
    RestorePlain(ws, f);
  }

  /** Of the restored head, only the segment and its punctuation are visible. */
  lemma HeadVisible(seg: string, sep: string, f: string)
    requires IsSeparator(sep)
    ensures Visible(Restore(seg + sep + f)) == Visible(Restore(seg + RStrip(sep))) + Visible(Restore(f))
  {
    var punct := RStrip(sep);
    var ws := sep[|punct|..];
    HeadRestore(seg, sep, f);
    VisibleSpaces(ws);
    var r := Restore(seg + punct);
    KeepConcat(r + ws, Restore(f), false);
    KeepConcat(r, ws, false);
  }

  /** The parts concatenated: the first segment, its separator, then the rest. */
  lemma FlattenFront(parts: seq<string>)
    requires |parts| >= 2
    ensures Flatten(parts) == parts[0] + parts[1] + Flatten(parts[2..])
  {
    assert parts == [parts[0], parts[1]] + parts[2..];
    FlattenConcat([parts[0], parts[1]], parts[2..]);
    FlattenSingle(parts[0]);
    FlattenSnoc([parts[0]], parts[1]);
    assert [parts[0]] + [parts[1]] == [parts[0], parts[1]];
  }

  /** What is visible in the candidates: the first candidate's characters,
      then those of the others. */
  lemma CandidatesFront(parts: seq<string>)
    requires |parts| == 2 * PieceCount(parts) - 1 && |parts| >= 3
    ensures Visible(Flatten(Candidates(parts))) ==
            Visible(Restore(Raw(parts, 0))) + Visible(Flatten(Candidates(parts[2..])))
  {
    var head := Piece(parts, 0);
    CandidatesTail(parts);
    FlattenConcat([head], Candidates(parts[2..]));
    FlattenSingle(head);
    KeepConcat(head, Flatten(Candidates(parts[2..])), false);
    StripSpec(Restore(Raw(parts, 0)));
  }

  /** What is visible in the restored parts: the first segment with its
      separator's punctuation, then the rest. */
  lemma PartsFront(parts: seq<string>)
    requires |parts| >= 3 && IsSeparator(parts[1])
    ensures Visible(Restore(Flatten(parts))) ==
            Visible(Restore(Raw(parts, 0))) + Visible(Restore(Flatten(parts[2..])))
  {
    FlattenFront(parts);
    HeadVisible(parts[0], parts[1], Flatten(parts[2..]));
  }

  /** After the first segment and its separator, the remaining parts still
      alternate segments and separators. */
  lemma SeparatorsTail(parts: seq<string>)
    requires |parts| == 2 * PieceCount(parts) - 1 && |parts| >= 3
    requires forall j: nat :: SeparatorAfter(parts, j)
    ensures |parts[2..]| == 2 * PieceCount(parts[2..]) - 1
    ensures IsSeparator(parts[1])
    ensures forall j: nat :: SeparatorAfter(parts[2..], j)
  {
    assert SeparatorAfter(parts, 0);
    forall j: nat
      ensures SeparatorAfter(parts[2..], j)
    {
      assert SeparatorAfter(parts, j + 1);
    }
  }

  /** A text without separators gives one candidate. */
  lemma CandidatesOne(parts: seq<string>)
    requires |parts| == 1
    ensures Candidates(parts) == [Strip(Restore(parts[0]))]
  {
    assert Raw(parts, 0) == parts[0];
  }

  /** A stripped string alone shows the characters of the string. */
  lemma StripSingleVisible(y: string)
    ensures Visible(Flatten([Strip(y)])) == Visible(y)
  {
    FlattenSingle(Strip(y));
    StripSpec(y);
  }

  /** A text without separators gives one candidate, its restored, stripped self. */
  lemma CandidatesVisibleOne(parts: seq<string>)
    requires |parts| == 1
    ensures Visible(Flatten(Candidates(parts))) == Visible(Restore(Flatten(parts)))
  {
    var x := parts[0];
    CandidatesOne(parts);
    StripSingleVisible(Restore(x));
    FlattenSingle(x);
    assert [x] == parts;
  }

  /** The step of CandidatesVisible for the first segment and its separator. */
  lemma CandidatesVisibleStep(parts: seq<string>)
    requires |parts| == 2 * PieceCount(parts) - 1 && |parts| >= 3
    requires IsSeparator(parts[1])
    requires Visible(Flatten(Candidates(parts[2..]))) == Visible(Restore(Flatten(parts[2..])))
    ensures Visible(Flatten(Candidates(parts))) == Visible(Restore(Flatten(parts)))
  {
    CandidatesFront(parts);
    PartsFront(parts);
  }

  /** The candidates hold every visible character of the restored parts, in order. */
  lemma {:induction false} CandidatesVisible(parts: seq<string>)
    requires |parts| == 2 * PieceCount(parts) - 1
    requires forall j: nat :: SeparatorAfter(parts, j)
    ensures Visible(Flatten(Candidates(parts))) == Visible(Restore(Flatten(parts)))
    decreases |parts|
  {
    if |parts| == 1 {
      CandidatesVisibleOne(parts);
    } else {
      SeparatorsTail(parts);
      CandidatesVisible(parts[2..]);
      CandidatesVisibleStep(parts);
    }
  }

  /** Sentence splitting loses nothing but whitespace: the sentences, in
      order, hold every other character of the text, abbreviation periods
      included (as long as the text did not contain the placeholder). */
  lemma SentencesLossless(text: string)
    requires Absent(text, Placeholder)
    ensures Visible(Flatten(Sentences(text))) == Visible(text)
  {
    var p := Protect(text);
    var parts := ReSplit(p);
    ReSplitSpec(p);
    CandidatesVisible(parts);
    NonEmptyFlatten(Candidates(parts));
    ProtectRoundTrip(text);
  }
}
