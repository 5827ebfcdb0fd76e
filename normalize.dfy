/** The matching key of a high-school name and the small classifiers beside it
    (hs_standardization/normalize.py). Every regular-expression step is written
    out as a function on ASCII strings. */
module Normalize {
  import opened Common
  import opened Text

  // ------------------------------------------------------------------
  // Suffix removal. A suffix pattern is a list of words W1 ... Wn and stands
  // for the regular expression `\s+W1\s+...\s+Wn$`; its words are non-empty
  // and hold no whitespace.

  /** The number of suffix patterns. */
  const SuffixCount: nat := 4

  /** The suffix patterns in the order the loop tries them:
      `HIGH SCHOOL`, `H.S.`, `HS`, `H.S`. */
  function SuffixPattern(i: nat): seq<string>
    requires i < SuffixCount
  {
    if i == 0 then ["HIGH", "SCHOOL"] else if i == 1 then ["H.S."] else if i == 2 then ["HS"] else ["H.S"]
  }

  /** The last character of pattern `i`. */
  function PatternEnd(i: nat): char
    requires i < SuffixCount
  {
    var w := SuffixPattern(i)[|SuffixPattern(i)| - 1];
    w[|w| - 1]
  }

  lemma PatternEnds()
    ensures PatternEnd(0) == 'L' && PatternEnd(1) == '.' && PatternEnd(2) == 'S' && PatternEnd(3) == 'S'
  {
  }

  predicate NoTrailingSpace(s: string) { s == [] || !IsSpace(s[|s| - 1]) }

  /** Words that a pattern can be made of: non-empty, ending in a non-space. */
  predicate PatternWords(words: seq<string>) {
    forall i :: 0 <= i < |words| ==> words[i] != [] && !IsSpace(words[i][|words[i]| - 1])
  }

  /** The match of `\s+W1\s+...\s+Wn` that ends exactly at the end of `s`, given
      as the text in front of it. The match starts where the whitespace run in
      front of W1 starts, the leftmost start the regex engine can use. */
  function MatchWordsAtEnd(s: string, words: seq<string>): (r: Option<string>)
    ensures r.Some? && words != [] ==>
      |r.value| < |s| && r.value == s[..|r.value|] && IsSpace(s[|r.value|]) && NoTrailingSpace(r.value)
    decreases |words|
  {
    if words == [] then Some(s)
    else
      var w := words[|words| - 1];
      if EndsWith(s, w) && |s| > |w| && IsSpace(s[|s| - |w| - 1]) then
        var t := s[..|s| - |w|];
        var u := RStrip(t);
        assert |u| < |t|;
        assert u == s[..|u|];
        MatchWordsAtEnd(u, words[..|words| - 1])
      else None
  }

  /** `re.sub(suffix, '', s)` for one suffix pattern: the pattern is anchored by
      `$`, so at most one match is removed. */
  function SubSuffix(s: string, words: seq<string>): (r: string)
    ensures |r| <= |s|
    ensures NoLowerLetters(s) ==> NoLowerLetters(r)
    ensures NoTrailingSpace(s) ==> NoTrailingSpace(r)
  {
    if |s| > 0 && s[|s| - 1] == '\n' then
      match MatchWordsAtEnd(s[..|s| - 1], words)
      case Some(p) => p + "\n"
      case None => s
    else
      match MatchWordsAtEnd(s, words)
      case Some(p) => p
      case None => s
  }

  /** The suffix loop from pattern `i` on: each pattern in turn, once each. */
  function RemoveSuffixesFrom(s: string, i: nat): (r: string)
    requires i <= SuffixCount
    ensures |r| <= |s|
    ensures NoLowerLetters(s) ==> NoLowerLetters(r)
    ensures NoTrailingSpace(s) ==> NoTrailingSpace(r)
    decreases SuffixCount - i
  {
    if i == SuffixCount then s else RemoveSuffixesFrom(SubSuffix(s, SuffixPattern(i)), i + 1)
  }

  /** The words of a pattern, each preceded by one space: the shortest text the
      pattern matches. */
  function SpacedWords(words: seq<string>): string
    decreases |words|
  {
    if words == [] then "" else SpacedWords(words[..|words| - 1]) + " " + words[|words| - 1]
  }

  /** Matching the last word of a pattern, and the single space before it. */
  lemma MatchLastWord(front: string, words: seq<string>)
    requires words != [] && NoTrailingSpace(front)
    ensures MatchWordsAtEnd(front + " " + words[|words| - 1], words) ==
            MatchWordsAtEnd(front, words[..|words| - 1])
  {
    var w := words[|words| - 1];
    var t := front + " ";
    var s := t + w;
    assert s[|s| - |w|..] == w && s[..|s| - |w|] == t;
    assert s[|s| - |w| - 1] == ' ';
    RStripOneSpace(front);
  }

  lemma SpacedWordsNoTrailing(p: string, words: seq<string>)
    requires NoTrailingSpace(p) && PatternWords(words)
    ensures NoTrailingSpace(p + SpacedWords(words))
  {
    if words == [] {
      assert p + SpacedWords(words) == p;
    } else {
      var w := words[|words| - 1];
      assert p + SpacedWords(words) == (p + SpacedWords(words[..|words| - 1]) + " ") + w;
    }
  }

  lemma SpacedWordsLast(p: string, words: seq<string>)
    requires words != []
    ensures p + SpacedWords(words) == p + SpacedWords(words[..|words| - 1]) + " " + words[|words| - 1]
  {
    var a, w := SpacedWords(words[..|words| - 1]), words[|words| - 1];
    assert SpacedWords(words) == a + " " + w;
    AppendRegroup(p, a, " ", w);
  }

  lemma AppendAssoc(a: string, b: string, c: string)
    ensures a + (b + c) == a + b + c
  {
  }

  lemma AppendRegroup(p: string, a: string, b: string, c: string)
    ensures p + (a + b + c) == p + a + b + c
  {
  }

  /** Text that ends in the words of a pattern, one space before each, matches
      the pattern, and the match starts at the first of those spaces. */
  lemma {:induction false} MatchSpacedWords(p: string, words: seq<string>)
    requires NoTrailingSpace(p) && PatternWords(words)
    ensures MatchWordsAtEnd(p + SpacedWords(words), words) == Some(p)
    decreases |words|
  {
    if words != [] {
      var init := words[..|words| - 1];
      var front := p + SpacedWords(init);
      SpacedWordsNoTrailing(p, init);
      SpacedWordsLast(p, words);
      MatchLastWord(front, words);
      MatchSpacedWords(p, init);
    } else {
      assert p + SpacedWords(words) == p;
    }
  }

  /** The four suffix patterns as plain text. */
  lemma SpacedPatterns()
    ensures SpacedWords(SuffixPattern(0)) == " HIGH SCHOOL"
    ensures SpacedWords(SuffixPattern(1)) == " H.S."
    ensures SpacedWords(SuffixPattern(2)) == " HS"
    ensures SpacedWords(SuffixPattern(3)) == " H.S"
  {
    assert ["HIGH", "SCHOOL"][..1] == ["HIGH"];
    assert ["HIGH"][..0] == [];
    assert ["H.S."][..0] == [];
    assert ["HS"][..0] == [];
    assert ["H.S"][..0] == [];
  }

  lemma SuffixPatternWords(i: nat)
    requires i < SuffixCount
    ensures SuffixPattern(i) != [] && PatternWords(SuffixPattern(i))
  {
  }

  /** A name ending in a suffix, one space before each of its words, loses
      exactly that suffix. */
  lemma SuffixRemoved(p: string, i: nat)
    requires NoTrailingSpace(p) && i < SuffixCount
    ensures SubSuffix(p + SpacedWords(SuffixPattern(i)), SuffixPattern(i)) == p
  {
    var words := SuffixPattern(i);
    SuffixPatternWords(i);
    MatchSpacedWords(p, words);
    SpacedEnd(i);
    EndsLikeTail(p, SpacedWords(words));
  }

  /** A suffix pattern's text is not empty and does not end in a line feed. */
  lemma SpacedEnd(i: nat)
    requires i < SuffixCount
    ensures var q := SpacedWords(SuffixPattern(i)); q != [] && q[|q| - 1] != '\n'
  {
    SpacedPatterns();
  }

  /** A text ends like its non-empty tail. */
  lemma EndsLikeTail(p: string, q: string)
    requires q != []
    ensures (p + q)[|p + q| - 1] == q[|q| - 1]
  {
  }

  /** A string without whitespace matches no suffix pattern. */
  lemma SubSuffixNoSpace(s: string, words: seq<string>)
    requires forall k :: 0 <= k < |s| ==> !IsSpace(s[k])
    ensures SubSuffix(s, words) == s
  {
  }

  /** A string whose last character ends no word of the pattern and is not a line feed
      matches no suffix pattern. */
  lemma SubSuffixLastChar(s: string, words: seq<string>)
    requires s != [] && s[|s| - 1] != '\n'
    requires words != [] && words[|words| - 1] != [] &&
             s[|s| - 1] != words[|words| - 1][|words[|words| - 1]| - 1]
    ensures SubSuffix(s, words) == s
  {
  }

  lemma {:induction false} RemoveSuffixesNoSpace(s: string, i: nat)
    requires i <= SuffixCount
    requires forall k :: 0 <= k < |s| ==> !IsSpace(s[k])
    ensures RemoveSuffixesFrom(s, i) == s
    decreases SuffixCount - i
  {
    if i < SuffixCount {
      SubSuffixNoSpace(s, SuffixPattern(i));
      RemoveSuffixesNoSpace(s, i + 1);
    }
  }

  /** A pattern tried before the one a name ends in leaves the name as it is:
      no earlier pattern is a suffix of a later one. */
  lemma SuffixMismatch(w: string, i: nat, j: nat)
    requires j < i < SuffixCount && w != []
    ensures SubSuffix(w + SpacedWords(SuffixPattern(i)), SuffixPattern(j)) == w + SpacedWords(SuffixPattern(i))
  {
    var s := w + SpacedWords(SuffixPattern(i));
    SpacedPatterns();
    if j == 2 {
      assert s[|s| - 2] == '.';
    } else {
      assert s[|s| - 1] in ".S";
      SubSuffixLastChar(s, SuffixPattern(j));
    }
  }

  /** A capital word followed by one suffix pattern: the loop removes the
      pattern and leaves the word. */
  lemma {:induction false} WordAndSuffixFrom(w: string, i: nat, j: nat)
    requires j <= i < SuffixCount && w != [] && forall k :: 0 <= k < |w| ==> IsUpperLetter(w[k])
    ensures RemoveSuffixesFrom(w + SpacedWords(SuffixPattern(i)), j) == w
    decreases i - j
  {
    var s := w + SpacedWords(SuffixPattern(i));
    assert RemoveSuffixesFrom(s, j) == RemoveSuffixesFrom(SubSuffix(s, SuffixPattern(j)), j + 1);
    if j < i {
      SuffixMismatch(w, i, j);
      WordAndSuffixFrom(w, i, j + 1);
    } else {
      assert NoTrailingSpace(w) by { assert IsUpperLetter(w[|w| - 1]); }
      SuffixRemoved(w, i);
      RemoveSuffixesNoSpace(w, i + 1);
    }
  }

  // ------------------------------------------------------------------
  // `\bST\.?\s+` becomes `SAINT `.

  /** Regex `\b` in front of the word character at `i`. */
  predicate WordStartAt(s: string, i: nat)
    requires i <= |s|
  {
    i == 0 || !IsWordChar(s[i - 1])
  }

  /** The end of the match of `\bST\.?\s+` that starts at `i`, if there is one:
      the dot is taken when a space follows it, and the run of whitespace is
      taken whole. */
  function SaintMatch(s: string, i: nat): (e: Option<nat>)
    requires i <= |s|
    ensures e.Some? ==> i + 3 <= e.value <= |s| && s[i] == 'S' && s[i + 1] == 'T' && WordStartAt(s, i)
    ensures e.Some? ==> IsSpace(s[e.value - 1]) && (e.value == |s| || !IsSpace(s[e.value]))
  {
    if i + 2 < |s| && s[i] == 'S' && s[i + 1] == 'T' && WordStartAt(s, i) then
      var j := if s[i + 2] == '.' then i + 3 else i + 2;
      if j < |s| && IsSpace(s[j]) then Some(SpaceRunEnd(s, j)) else None
    else None
  }

  /** `re.sub(r'\bST\.?\s+', 'SAINT ', s)` from position `i` on, scanning left to
      right and resuming after each match, as `re.sub` does. */
  function SaintFrom(s: string, i: nat): (r: string)
    requires i <= |s|
    ensures NoLowerLetters(s) ==> NoLowerLetters(r)
    decreases |s| - i
  {
    if i == |s| then ""
    else
      match SaintMatch(s, i)
      case Some(e) => "SAINT " + SaintFrom(s, e)
      case None => [s[i]] + SaintFrom(s, i + 1)
  }

  function SaintRewrite(s: string): (r: string)
    ensures NoLowerLetters(s) ==> NoLowerLetters(r)
  {
    SaintFrom(s, 0)
  }

  /** Text in which no `S` is followed by a `T` is copied unchanged. */
  lemma {:induction false} SaintFromNoST(s: string, i: nat)
    requires i <= |s|
    requires forall k :: i <= k < |s| - 1 ==> !(s[k] == 'S' && s[k + 1] == 'T')
    ensures SaintFrom(s, i) == s[i..]
    decreases |s| - i
  {
    if i < |s| {
      SaintFromNoST(s, i + 1);
      assert s[i..] == [s[i]] + s[i + 1..];
    }
  }

  lemma {:induction false} SaintFromLetters(s: string, i: nat)
    requires i <= |s|
    requires forall k :: 0 <= k < |s| ==> IsUpperLetter(s[k])
    ensures SaintFrom(s, i) == s[i..]
    decreases |s| - i
  {
    if i < |s| {
      SaintFromLetters(s, i + 1);
      assert s[i..] == [s[i]] + s[i + 1..];
    }
  }

  // ------------------------------------------------------------------
  // Deleting `.`, `,` and `'`.

  predicate IsMark(c: char) { c == '.' || c == ',' || c == '\'' }
  predicate NoMarks(s: string) { forall k :: 0 <= k < |s| ==> !IsMark(s[k]) }

  /** `re.sub(r"[.,']", '', s)`: the marks go, every other character stays, in order. */
  function DeleteMarks(s: string): (r: string)
    ensures NoMarks(r)
    ensures NoLowerLetters(s) ==> NoLowerLetters(r)
    ensures NoMarks(s) ==> r == s
    decreases |s|
  {
    if s == [] then []
    else
      assert s == [s[0]] + s[1..];
      (if IsMark(s[0]) then [] else [s[0]]) + DeleteMarks(s[1..])
  }

  /** Only the marks go: every other character occurs as often as before. */
  lemma {:induction false} DeleteMarksKeepsOthers(s: string, c: char)
    requires !IsMark(c)
    ensures multiset(DeleteMarks(s))[c] == multiset(s)[c]
    decreases |s|
  {
    if s != [] {
      DeleteMarksKeepsOthers(s[1..], c);
      DeleteMarksHead(s);
      KeepsOthersStep(s, DeleteMarks(s), DeleteMarks(s[1..]), c);
    }
  }

  lemma DeleteMarksHead(s: string)
    requires s != []
    ensures DeleteMarks(s) == (if IsMark(s[0]) then [] else [s[0]]) + DeleteMarks(s[1..])
  {
  }

  /** Dropping or keeping the first character keeps the count of a non-mark. */
  lemma KeepsOthersStep(s: string, r: string, rest: string, c: char)
    requires s != [] && !IsMark(c) && r == (if IsMark(s[0]) then [] else [s[0]]) + rest
    requires multiset(rest)[c] == multiset(s[1..])[c]
    ensures multiset(r)[c] == multiset(s)[c]
  {
    assert s == [s[0]] + s[1..];
  }

  lemma {:induction false} DeleteMarksAppend(a: string, b: string)
    ensures DeleteMarks(a + b) == DeleteMarks(a) + DeleteMarks(b)
    decreases |a|
  {
    if a == [] {
      assert a + b == b;
    } else {
      assert (a + b)[1..] == a[1..] + b;
      DeleteMarksAppend(a[1..], b);
      DeleteMarksHead(a);
      DeleteMarksHead(a + b);
      assert (a + b)[0] == a[0];
      AppendAssoc(if IsMark(a[0]) then [] else [a[0]], DeleteMarks(a[1..]), DeleteMarks(b));
    }
  }

  // ------------------------------------------------------------------
  // A final parenthetical group `\(([^)]+)\)$`.

  /** `(` at `j` and `)` at `k` with at least one character between them and no
      `)` among those characters: a match of `\([^)]+\)`. */
  predicate ParenGroupAt(s: string, j: nat, k: nat) {
    j + 1 < k < |s| && s[j] == '(' && s[k] == ')' && forall t :: j < t < k ==> s[t] != ')'
  }

  /** The only position of a `)` that `\)$` can match. */
  function ClosingAtEnd(s: string): (k: Option<nat>)
    ensures k.Some? ==> k.value < |s| && s[k.value] == ')' && DollarAt(s, k.value + 1)
    ensures forall p: nat :: p < |s| && s[p] == ')' && DollarAt(s, p + 1) ==> k == Some(p)
  {
    if |s| >= 1 && s[|s| - 1] == ')' then Some(|s| - 1)
    else if |s| >= 2 && s[|s| - 1] == '\n' && s[|s| - 2] == ')' then Some(|s| - 2)
    else None
  }

  /** The leftmost `j >= from` that opens a group closed at `k`: the regex engine
      tries start positions from left to right. */
  function FirstOpenFrom(s: string, from: nat, k: nat): (j: Option<nat>)
    ensures j.Some? ==> from <= j.value && ParenGroupAt(s, j.value, k)
    ensures forall t: nat :: from <= t && ParenGroupAt(s, t, k) ==> j.Some? && j.value <= t
    decreases k - from
  {
    if from + 1 >= k then None
    else if ParenGroupAt(s, from, k) then Some(from)
    else FirstOpenFrom(s, from + 1, k)
  }

  /** The match of `\([^)]+\)$`, as the positions of its `(` and `)`: the
      leftmost group that ends where `$` holds. */
  function FinalGroup(s: string): (g: Option<(nat, nat)>)
    ensures g.Some? ==> ParenGroupAt(s, g.value.0, g.value.1) && DollarAt(s, g.value.1 + 1)
    ensures g.Some? ==> forall j: nat, k: nat :: ParenGroupAt(s, j, k) && DollarAt(s, k + 1) ==>
                          k == g.value.1 && g.value.0 <= j
    ensures g.None? ==> forall j: nat, k: nat :: ParenGroupAt(s, j, k) ==> !DollarAt(s, k + 1)
  {
    match ClosingAtEnd(s)
    case None => None
    case Some(k) =>
      match FirstOpenFrom(s, 0, k)
      case None => None
      case Some(j) => Some((j, k))
  }

  /** A group closed at the end, with no `(` before it, is the final group. */
  lemma FinalGroupAt(s: string, j: nat, k: nat)
    requires ParenGroupAt(s, j, k) && DollarAt(s, k + 1)
    requires forall t :: 0 <= t < j ==> s[t] != '('
    ensures FinalGroup(s) == Some((j, k))
  {
    var g := FinalGroup(s);
    assert g.Some? && g.value.1 == k && g.value.0 <= j;
    assert s[g.value.0] == '(';
  }

  /** `re.sub(r'\s*\([^)]+\)$', '', s)`: the final group goes together with the
      whitespace in front of it; a final line feed after it stays. */
  function DropParenthetical(s: string): (r: string)
    ensures |r| <= |s|
    ensures FinalGroup(s).None? ==> r == s
    ensures NoLowerLetters(s) ==> NoLowerLetters(r)
    ensures NoMarks(s) ==> NoMarks(r)
  {
    match FinalGroup(s)
    case None => s
    case Some((j, k)) =>
      var before := RStrip(s[..j]);
      assert before == s[..|before|];
      before + s[k + 1..]
  }

  /** `extract_disambiguator`: the text inside the final group, or `""`. The
      leftmost group is the longest one. */
  function ExtractDisambiguator(name: string): (r: string)
    ensures r == "" <==> forall j: nat, k: nat :: ParenGroupAt(name, j, k) ==> !DollarAt(name, k + 1)
    ensures r != "" ==> ')' !in r && (EndsWith(name, "(" + r + ")") || EndsWith(name, "(" + r + ")\n"))
    ensures forall j: nat, k: nat :: ParenGroupAt(name, j, k) && DollarAt(name, k + 1) ==> k - j - 1 <= |r|
  {
    match FinalGroup(name)
    case None => ""
    case Some((j, k)) =>
      GroupText(name, j, k, name[j + 1..k]);
      name[j + 1..k]
  }

  /** The text `r` of a final group closed at `k` has no `)`, and the name
      ends with it in parentheses, before the final line feed if any. */
  lemma GroupText(name: string, j: nat, k: nat, r: string)
    requires ParenGroupAt(name, j, k) && DollarAt(name, k + 1) && r == name[j + 1..k]
    ensures ')' !in r && (EndsWith(name, "(" + r + ")") || EndsWith(name, "(" + r + ")\n"))
  {
    assert name[j..k + 1] == "(" + r + ")";
    assert ')' !in r by {
      forall t | 0 <= t < |r| ensures r[t] != ')' { assert r[t] == name[j + 1 + t]; }
    }
    if k + 1 == |name| {
      assert name[|name| - |r| - 2..] == "(" + r + ")";
    } else {
      assert name[|name| - |r| - 3..] == "(" + r + ")\n";
    }
  }

  // ------------------------------------------------------------------
  // Collapsing whitespace.

  /** All whitespace is a single plain space. */
  predicate SingleSpaced(s: string) {
    (forall k :: 0 <= k < |s| && IsSpace(s[k]) ==> s[k] == ' ') &&
    (forall k :: 0 <= k < |s| - 1 ==> !(IsSpace(s[k]) && IsSpace(s[k + 1])))
  }

  /** Single-spaced with no whitespace at either end. */
  predicate WellSpaced(s: string) {
    SingleSpaced(s) && (s == [] || (!IsSpace(s[0]) && !IsSpace(s[|s| - 1])))
  }

  /** `re.sub(r'\s+', ' ', s)`: every maximal run of whitespace becomes one space. */
  function CollapseSpace(s: string): (r: string)
    ensures |r| <= |s|
    ensures r == [] <==> s == []
    ensures r != [] ==> (IsSpace(r[0]) <==> IsSpace(s[0]))
    ensures SingleSpaced(r)
    decreases |s|
  {
    if s == [] then []
    else if IsSpace(s[0]) then
      var r := CollapseSpace(LStrip(s[1..]));
      SingleSpacedCons(' ', r);
      " " + r
    else
      var r := CollapseSpace(s[1..]);
      SingleSpacedCons(s[0], r);
      [s[0]] + r
  }

  /** A character in front of single-spaced text keeps it single-spaced unless
      it is whitespace other than a space or whitespace next to whitespace. */
  lemma SingleSpacedCons(c: char, r: string)
    requires SingleSpaced(r) && (IsSpace(c) ==> c == ' ' && (r == [] || !IsSpace(r[0])))
    ensures SingleSpaced([c] + r)
  {
    var s := [c] + r;
    assert forall k :: 0 < k < |s| ==> s[k] == r[k - 1];
  }

  /** The rest of the text that collapsing works on after the first character. */
  function CollapseRest(s: string): (t: string)
    requires s != []
    ensures |t| < |s| && t == s[|s| - |t|..]
  {
    if IsSpace(s[0]) then LStrip(s[1..]) else s[1..]
  }

  lemma CollapseStep(s: string)
    requires s != []
    ensures CollapseSpace(s) == (if IsSpace(s[0]) then " " else [s[0]]) + CollapseSpace(CollapseRest(s))
  {
  }

  /** Collapsing brings in no lower-case letter. */
  lemma {:induction false} CollapseKeepsUpper(s: string)
    ensures NoLowerLetters(s) ==> NoLowerLetters(CollapseSpace(s))
    decreases |s|
  {
    if s != [] && NoLowerLetters(s) {
      var t := CollapseRest(s);
      SliceKeeps(s, t, |s| - |t|);
      CollapseKeepsUpper(t);
      CollapseStep(s);
    }
  }

  /** Collapsing brings in no mark. */
  lemma {:induction false} CollapseKeepsMarkFree(s: string)
    ensures NoMarks(s) ==> NoMarks(CollapseSpace(s))
    decreases |s|
  {
    if s != [] && NoMarks(s) {
      var t := CollapseRest(s);
      SliceKeeps(s, t, |s| - |t|);
      CollapseKeepsMarkFree(t);
      CollapseStep(s);
    }
  }

  lemma {:induction false} CollapseSingleSpaced(s: string)
    requires SingleSpaced(s)
    ensures CollapseSpace(s) == s
    decreases |s|
  {
    if s != [] {
      SingleSpacedTail(s);
      CollapseSingleSpaced(s[1..]);
      CollapseSpaceHead(s);
      assert s == [s[0]] + s[1..];
    }
  }

  /** On a single-spaced text collapsing keeps the first character and goes on with the rest. */
  lemma CollapseSpaceHead(s: string)
    requires s != [] && SingleSpaced(s)
    ensures CollapseSpace(s) == [s[0]] + CollapseSpace(s[1..])
  {
    SingleSpacedTail(s);
    if IsSpace(s[0]) {
      LStripNoLeading(s[1..]);
    }
  }

  lemma SingleSpacedTail(s: string)
    requires s != [] && SingleSpaced(s)
    ensures SingleSpaced(s[1..])
    ensures IsSpace(s[0]) ==> s[0] == ' ' && (|s| == 1 || !IsSpace(s[1]))
  {
    var t := s[1..];
    assert forall k :: 0 <= k < |t| ==> t[k] == s[k + 1];
  }

  /** A piece of a string keeps the properties the steps preserve. */
  lemma SliceKeeps(c: string, r: string, i: nat)
    requires i + |r| <= |c| && r == c[i..i + |r|]
    ensures SingleSpaced(c) ==> SingleSpaced(r)
    ensures NoLowerLetters(c) ==> NoLowerLetters(r)
    ensures NoMarks(c) ==> NoMarks(r)
  {
    assert forall k :: 0 <= k < |r| ==> r[k] == c[i + k];
  }

  /** Collapsing, then stripping. */
  function Tidy(s: string): (r: string)
    ensures WellSpaced(r)
    ensures NoLowerLetters(s) ==> NoLowerLetters(r)
    ensures NoMarks(s) ==> NoMarks(r)
  {
    var c := CollapseSpace(s);
    CollapseKeepsUpper(s);
    CollapseKeepsMarkFree(s);
    StripKeeps(c);
    Strip(c)
  }

  /** Stripping keeps the properties the steps preserve and leaves single-spaced
      text well spaced. */
  lemma StripKeeps(c: string)
    ensures SingleSpaced(c) ==> WellSpaced(Strip(c))
    ensures NoLowerLetters(c) ==> NoLowerLetters(Strip(c))
    ensures NoMarks(c) ==> NoMarks(Strip(c))
  {
    SliceKeeps(c, Strip(c), StripStart(c));
  }

  // ------------------------------------------------------------------
  // The whole key.

  /** Steps 2 to 6 of the key, on the upper-cased, stripped name. */
  function KeySteps(s: string): (r: string)
    requires NoLowerLetters(s)
    ensures NoMarks(r) && WellSpaced(r) && NoLowerLetters(r)
  {
    var a := RemoveSuffixesFrom(s, 0);
    var b := SaintRewrite(a);
    var c := DeleteMarks(b);
    var d := DropParenthetical(c);
    Tidy(d)
  }

  lemma KeyStepsEmpty()
    ensures KeySteps("") == ""
  {
    RemoveSuffixesNoSpace("", 0);
  }

  /** `normalize_hs_name` as one expression: upper-case and strip, remove the
      suffixes, rewrite `ST`, delete marks, drop a final group, collapse and strip. */
  function NormalizeKey(name: string): (r: string)
    ensures NoMarks(r)
    ensures WellSpaced(r)
    ensures NoLowerLetters(r)
    ensures AllSpace(name) ==> r == ""
  {
    if name == "" then
      EmptyKeyShape();
      ""
    else
      KeyStart(name);
      KeySteps(Strip(Upper(name)))
  }

  lemma EmptyKeyShape()
    ensures NoMarks("") && WellSpaced("") && NoLowerLetters("")
  {
  }

  /** The upper-cased, stripped name has no lower-case letters, and a blank
      name leaves nothing for the later steps. */
  lemma KeyStart(name: string)
    ensures NoLowerLetters(Strip(Upper(name)))
    ensures AllSpace(name) ==> KeySteps(Strip(Upper(name))) == ""
  {
    StrippedUpper(name);
    if AllSpace(name) {
      BlankStripped(name);
      KeyStepsEmpty();
    }
  }

  lemma StrippedUpper(name: string)
    ensures NoLowerLetters(Strip(Upper(name)))
  {
    StripKeepsNoLower(Upper(name));
  }

  lemma BlankStripped(name: string)
    requires AllSpace(name)
    ensures Strip(Upper(name)) == ""
  {
    assert AllSpace(Upper(name));
    StripAllSpace(Upper(name));
  }

  /** `normalize_hs_name` as the source writes it: the suffix patterns are
      applied in a loop to the local `normalized`. */
  method NormalizeHsName(name: string) returns (normalized: string)
    ensures normalized == NormalizeKey(name)
  {
    if name == "" {
      return "";
    }
    normalized := Strip(Upper(name));
    ghost var start := normalized;
    KeyOfName(name, start);
    normalized := RemoveSuffixes(normalized);
    ghost var a := normalized;
    normalized := SaintRewrite(normalized);
    ghost var b := normalized;
    normalized := DeleteMarks(normalized);
    ghost var c := normalized;
    normalized := DropParenthetical(normalized);
    ghost var d := normalized;
    normalized := Tidy(normalized);
    KeyStepsOf(start, a, b, c, d, normalized);
  }

  /** The loop over the suffix patterns: each one, in order, is removed from
      the end of `s` wherever it matches. */
  method RemoveSuffixes(s: string) returns (r: string)
    ensures r == RemoveSuffixesFrom(s, 0)
  {
    r := s;
    for i := 0 to SuffixCount
      invariant RemoveSuffixesFrom(r, i) == RemoveSuffixesFrom(s, 0)
    {
      r := SubSuffix(r, SuffixPattern(i));
    }
    SuffixesDone(r);
  }

  /** The key of a non-empty name is the key steps applied to its upper-cased, stripped form. */
  lemma KeyOfName(name: string, s: string)
    requires name != "" && s == Strip(Upper(name))
    ensures NoLowerLetters(s) && NormalizeKey(name) == KeySteps(s)
  {
    SliceKeeps(Upper(name), s, StripStart(Upper(name)));
  }

  /** The key of a name whose upper-cased form `u` has no whitespace at either end. */
  lemma KeyOfStripped(name: string, u: string)
    requires name != "" && Upper(name) == u && (u == [] || (!IsSpace(u[0]) && !IsSpace(u[|u| - 1])))
    ensures NormalizeKey(name) == KeySteps(u)
  {
    StripNoEdges(u);
  }

  /** The key steps one after another, each result named. */
  lemma KeyStepsOf(s: string, a: string, b: string, c: string, d: string, e: string)
    requires NoLowerLetters(s)
    requires RemoveSuffixesFrom(s, 0) == a && SaintRewrite(a) == b
    requires DeleteMarks(b) == c && DropParenthetical(c) == d && Tidy(d) == e
    ensures KeySteps(s) == e
  {
  }

  /** A name that does not end in `)` (or `)` and a line feed) has no final group. */
  lemma NoFinalGroup(s: string)
    requires s != [] && s[|s| - 1] != ')' && s[|s| - 1] != '\n'
    ensures DropParenthetical(s) == s
  {
    assert ClosingAtEnd(s).None?;
  }

  lemma LetterWordMarks(s: string)
    requires forall k :: 0 <= k < |s| ==> IsUpperLetter(s[k])
    ensures DeleteMarks(s) == s
  {
    assert NoMarks(s);
  }

  lemma LetterWordTidy(s: string)
    requires s != [] && forall k :: 0 <= k < |s| ==> IsUpperLetter(s[k])
    ensures Tidy(s) == s
  {
    assert SingleSpaced(s);
    assert WellSpaced(s);
    KeepWellSpaced(s);
  }

  /** Steps 3 to 6 leave a word of capital letters as it is. */
  lemma LetterWordSteps(s: string)
    requires s != [] && forall k :: 0 <= k < |s| ==> IsUpperLetter(s[k])
    ensures SaintRewrite(s) == s && DeleteMarks(s) == s && DropParenthetical(s) == s && Tidy(s) == s
  {
    SaintFromLetters(s, 0);
    LetterWordMarks(s);
    NoFinalGroup(s);
    LetterWordTidy(s);
  }

  /** A word of capital letters is its own key. */
  lemma UpperWordIsKey(s: string)
    requires s != [] && forall k :: 0 <= k < |s| ==> IsUpperLetter(s[k])
    ensures NormalizeKey(s) == s
  {
    UpperOfUpper(s);
    KeyOfStripped(s, s);
    RemoveSuffixesNoSpace(s, 0);
    LetterWordSteps(s);
    KeyStepsOf(s, s, s, s, s, s);
  }

  /** The key of a capital word followed by a suffix pattern is the word. */
  lemma WordAndSuffixKey(name: string, w: string, i: nat)
    requires i < SuffixCount && w != [] && forall k :: 0 <= k < |w| ==> IsUpperLetter(w[k])
    requires name != "" && Upper(name) == w + SpacedWords(SuffixPattern(i))
    ensures NormalizeKey(name) == w
  {
    var u := w + SpacedWords(SuffixPattern(i));
    assert u[|u| - 1] != ' ' && u[0] == w[0] by {
      SpacedPatterns();
    }
    KeyOfStripped(name, u);
    WordAndSuffixFrom(w, i, 0);
    LetterWordSteps(w);
    KeyStepsOf(u, w, w, w, w, w);
  }

  /** A pattern whose last word ends in another character than the name is skipped. */
  lemma SkipByLastChar(s: string, i: nat)
    requires i < SuffixCount && s != [] && s[|s| - 1] != '\n' && s[|s| - 1] != PatternEnd(i)
    ensures RemoveSuffixesFrom(s, i) == RemoveSuffixesFrom(s, i + 1)
  {
    SubSuffixLastChar(s, SuffixPattern(i));
  }

  /** A one-word pattern that the name does not end in is skipped. */
  lemma SkipByWord(s: string, i: nat)
    requires i < SuffixCount && |SuffixPattern(i)| == 1 && s != [] && s[|s| - 1] != '\n'
    requires !EndsWith(s, SuffixPattern(i)[0])
    ensures RemoveSuffixesFrom(s, i) == RemoveSuffixesFrom(s, i + 1)
  {
  }

  /** A name that ends in pattern `i` loses it. */
  lemma SuffixStep(s: string, p: string, i: nat)
    requires i < SuffixCount && NoTrailingSpace(p) && s == p + SpacedWords(SuffixPattern(i))
    ensures RemoveSuffixesFrom(s, i) == RemoveSuffixesFrom(p, i + 1)
  {
    SuffixRemoved(p, i);
  }

  lemma SuffixesDone(s: string)
    ensures RemoveSuffixesFrom(s, SuffixCount) == s
  {
  }

  /** The first docstring example: the two-word suffix goes. */
  lemma CentralHighSchoolKey()
    ensures NormalizeKey("Central High School") == "CENTRAL"
  {
    UpperCentralHighSchool();
    SpacedPatterns();
    WordAndSuffixKey("Central High School", "CENTRAL", 0);
  }

  lemma UpperCentralHighSchool() ensures Upper("Central High School") == "CENTRAL HIGH SCHOOL" {}
  lemma UpperSaintMarys() ensures Upper("St. Mary's H.S.") == "ST. MARY'S H.S." {}
  lemma UpperLincolnNorth() ensures Upper("Lincoln HS (North)") == "LINCOLN HS (NORTH)" {}

  /** Suffix removal for the second docstring example. */
  lemma SaintMarysSuffix(u: string, v: string)
    requires u == "ST. MARY'S H.S." && v == "ST. MARY'S"
    ensures RemoveSuffixesFrom(u, 0) == v
  {
    SaintMarysFirst(u, v);
    SaintMarysRest(v);
  }

  /** `HIGH SCHOOL` does not match, `H.S.` does. */
  lemma SaintMarysFirst(u: string, v: string)
    requires u == "ST. MARY'S H.S." && v == "ST. MARY'S"
    ensures RemoveSuffixesFrom(u, 0) == RemoveSuffixesFrom(v, 2)
  {
    PatternEnds();
    SkipByLastChar(u, 0);
    SaintMarysDotted(u, v);
  }

  lemma SaintMarysDotted(u: string, v: string)
    requires u == "ST. MARY'S H.S." && v == "ST. MARY'S"
    ensures RemoveSuffixesFrom(u, 1) == RemoveSuffixesFrom(v, 2)
  {
    SaintMarysSplit(u, v);
    SpacedPatterns();
    SuffixStep(u, v, 1);
  }

  lemma SaintMarysSplit(u: string, v: string)
    requires u == "ST. MARY'S H.S." && v == "ST. MARY'S"
    ensures u == v + " H.S."
  {
  }

  /** `ST. MARY'S` ends in neither `HS` nor `H.S`. */
  lemma SaintMarysRest(v: string)
    requires v == "ST. MARY'S"
    ensures RemoveSuffixesFrom(v, 2) == v
  {
    assert v[|v| - 2] != 'H';
    assert v[|v| - 3] != 'H';
    SkipByWord(v, 2);
    SkipByWord(v, 3);
    SuffixesDone(v);
  }

  lemma SaintMarysSaint(v: string, w: string)
    requires v == "ST. MARY'S" && w == "SAINT MARY'S"
    ensures SaintRewrite(v) == w
  {
    assert SaintMatch(v, 0) == Some(4) by {
      assert SpaceRunEnd(v, 4) == 4;
    }
    SaintFromNoST(v, 4);
    assert v[4..] == "MARY'S";
  }

  lemma DeleteMark(m: char)
    requires IsMark(m)
    ensures DeleteMarks([m]) == []
  {
    assert [m][1..] == [];
  }

  lemma KeepMarkFree(s: string)
    requires NoMarks(s)
    ensures DeleteMarks(s) == s
  {
  }

  /** One mark between two mark-free pieces goes. */
  lemma DeleteOneMark(a: string, m: char, b: string)
    requires NoMarks(a) && IsMark(m) && NoMarks(b)
    ensures DeleteMarks(a + [m] + b) == a + b
  {
    DeleteMarksAppend(a + [m], b);
    DeleteMarksAppend(a, [m]);
    DeleteMark(m);
  }

  lemma SaintMarysMarks(w: string, x: string)
    requires w == "SAINT MARY'S" && x == "SAINT MARYS"
    ensures DeleteMarks(w) == x
  {
    assert w == "SAINT MARY" + ['\''] + "S";
    DeleteOneMark("SAINT MARY", '\'', "S");
  }

  lemma SaintMarysTail(x: string)
    requires x == "SAINT MARYS"
    ensures DropParenthetical(x) == x && Tidy(x) == x
  {
    NoFinalGroup(x);
    KeepWellSpaced(x);
  }

  /** Tidying leaves well-spaced text as it is. */
  lemma KeepWellSpaced(s: string)
    requires WellSpaced(s)
    ensures Tidy(s) == s
  {
    CollapseSingleSpaced(s);
    StripNoEdges(s);
  }

  /** The second docstring example: `H.S.` goes, `ST.` becomes `SAINT`, the apostrophe goes. */
  lemma SaintMarysKey()
    ensures NormalizeKey("St. Mary's H.S.") == "SAINT MARYS"
  {
    SaintMarysKeyAt("St. Mary's H.S.", "ST. MARY'S H.S.");
  }

  lemma SaintMarysKeyAt(name: string, u: string)
    requires name == "St. Mary's H.S." && u == "ST. MARY'S H.S."
    ensures NormalizeKey(name) == "SAINT MARYS"
  {
    UpperSaintMarys();
    SaintMarysEdges(u);
    SaintMarysSteps(u, "ST. MARY'S", "SAINT MARY'S", "SAINT MARYS");
    KeyOfStripped(name, u);
  }

  lemma SaintMarysEdges(u: string)
    requires u == "ST. MARY'S H.S."
    ensures u != [] && !IsSpace(u[0]) && !IsSpace(u[|u| - 1])
  {
  }

  lemma SaintMarysSteps(u: string, v: string, w: string, x: string)
    requires u == "ST. MARY'S H.S." && v == "ST. MARY'S" && w == "SAINT MARY'S" && x == "SAINT MARYS"
    requires NoLowerLetters(u)
    ensures KeySteps(u) == x
  {
    SaintMarysSuffix(u, v);
    SaintMarysSaint(v, w);
    SaintMarysMarks(w, x);
    SaintMarysTail(x);
    KeyStepsOf(u, v, w, x, x, x);
  }

  /** The third docstring example up to the final group: no suffix, no `ST`, no mark. */
  lemma LincolnNorthSuffix(u: string)
    requires u == "LINCOLN HS (NORTH)"
    ensures RemoveSuffixesFrom(u, 0) == u
  {
    PatternEnds();
    assert u[|u| - 1] == ')';
    SkipByLastChar(u, 0);
    SkipByLastChar(u, 1);
    SkipByLastChar(u, 2);
    SkipByLastChar(u, 3);
    SuffixesDone(u);
  }

  lemma LincolnNorthSaint(u: string)
    requires u == "LINCOLN HS (NORTH)"
    ensures SaintRewrite(u) == u
  {
    SaintFromNoST(u, 0);
  }

  lemma LincolnNorthMarks(u: string)
    requires u == "LINCOLN HS (NORTH)"
    ensures DeleteMarks(u) == u
  {
    KeepMarkFree(u);
  }

  lemma LincolnNorthGroup(u: string, v: string)
    requires u == "LINCOLN HS (NORTH)" && v == "LINCOLN HS"
    ensures DropParenthetical(u) == v
  {
    assert ParenGroupAt(u, 11, 17) && DollarAt(u, 18);
    assert forall t :: 0 <= t < 11 ==> u[t] != '(';
    FinalGroupAt(u, 11, 17);
    assert u[..11] == v + " ";
    RStripOneSpace(v);
  }

  lemma LincolnHsTidy(v: string)
    requires v == "LINCOLN HS"
    ensures Tidy(v) == v
  {
    KeepWellSpaced(v);
  }

  /** A trailing group stops suffix removal, because suffixes go before groups:
      the result keeps `HS`, where the docstring promises `LINCOLN`. */
  lemma LincolnNorthKey()
    ensures NormalizeKey("Lincoln HS (North)") == "LINCOLN HS"
  {
    LincolnNorthKeyAt("Lincoln HS (North)", "LINCOLN HS (NORTH)", "LINCOLN HS");
  }

  lemma LincolnNorthKeyAt(name: string, u: string, v: string)
    requires name == "Lincoln HS (North)" && u == "LINCOLN HS (NORTH)" && v == "LINCOLN HS"
    ensures NormalizeKey(name) == v
  {
    UpperLincolnNorth();
    LincolnNorthEdges(u);
    LincolnNorthSteps(u, v);
    KeyOfStripped(name, u);
  }

  lemma LincolnNorthEdges(u: string)
    requires u == "LINCOLN HS (NORTH)"
    ensures u != [] && !IsSpace(u[0]) && !IsSpace(u[|u| - 1])
  {
  }

  lemma LincolnNorthSteps(u: string, v: string)
    requires u == "LINCOLN HS (NORTH)" && v == "LINCOLN HS" && NoLowerLetters(u)
    ensures KeySteps(u) == v
  {
    LincolnNorthSuffix(u);
    LincolnNorthSaint(u);
    LincolnNorthMarks(u);
    LincolnNorthGroup(u, v);
    LincolnHsTidy(v);
    KeyStepsOf(u, u, u, u, v, v);
  }

  lemma LincolnHsKey()
    ensures NormalizeKey("LINCOLN HS") == "LINCOLN"
  {
    SpacedPatterns();
    UpperOfUpper("LINCOLN HS");
    WordAndSuffixKey("LINCOLN HS", "LINCOLN", 2);
  }

  /** The key is not a fixed point of itself: normalising a key can change it. */
  lemma NormalizeNotIdempotent()
    ensures NormalizeKey(NormalizeKey("Lincoln HS (North)")) != NormalizeKey("Lincoln HS (North)")
  {
    LincolnNorthKey();
    LincolnHsKey();
  }

  // ------------------------------------------------------------------
  // School types.

  datatype SchoolType = Prep | Private | International | Public | Unknown

  /** The marker substrings of each type, checked against the upper-cased name. */
  function Markers(t: SchoolType): seq<string> {
    match t
    case Prep => ["ACADEMY", "PREP", "PREPARATORY"]
    case Private => ["SAINT ", "ST. ", "BISHOP ", "CATHOLIC", "CHRISTIAN",
                     "LUTHERAN", "METHODIST", "BAPTIST", "EPISCOPAL"]
    case International => ["IES ", "INSTITUT", "LYCEE", "GYMNASIUM", "SECONDARY SCHOOL", "COLLEGE "]
    case Public => [" HS", "HIGH SCHOOL", "H.S.", "CENTRAL", "EAST ", "WEST ", "NORTH ", "SOUTH "]
    case Unknown => []
  }

  /** The order in which the types are tried. */
  function Rank(t: SchoolType): nat {
    match t
    case Prep => 0
    case Private => 1
    case International => 2
    case Public => 3
    case Unknown => 4
  }

  predicate ContainsAny(s: string, markers: seq<string>) {
    exists i :: 0 <= i < |markers| && Contains(s, markers[i])
  }

  predicate HasMarkers(name: string, t: SchoolType) {
    ContainsAny(Upper(name), Markers(t))
  }

  /** `categorize_school_type`: the first type in the order prep, private,
      international, public whose markers occur, and unknown when none does. */
  function CategorizeSchoolType(name: string): (t: SchoolType)
    ensures t != Unknown ==> HasMarkers(name, t)
    ensures forall t' :: Rank(t') < Rank(t) ==> !HasMarkers(name, t')
  {
    if HasMarkers(name, Prep) then Prep
    else if HasMarkers(name, Private) then Private
    else if HasMarkers(name, International) then International
    else if HasMarkers(name, Public) then Public
    else Unknown
  }

  /** A type whose markers occur and that no earlier type pre-empts is the answer. */
  lemma CategorizeFirstMatch(name: string, t: SchoolType)
    requires t != Unknown && HasMarkers(name, t)
    requires forall t' :: Rank(t') < Rank(t) ==> !HasMarkers(name, t')
    ensures CategorizeSchoolType(name) == t
  {
  }

  lemma CentralNotPrep()
    ensures !HasMarkers("Central High School", Prep)
  {
    UpperCentralHighSchool();
    CentralNoPrepMarker("CENTRAL HIGH SCHOOL");
  }

  lemma CentralNoPrepMarker(u: string)
    requires u == "CENTRAL HIGH SCHOOL"
    ensures !ContainsAny(u, Markers(Prep))
  {
    MissingCharNotContained(u, "ACADEMY", 6);
    MissingCharNotContained(u, "PREP", 0);
    MissingCharNotContained(u, "PREPARATORY", 0);
  }

  /** The private markers every letter of which occurs in the name. */
  lemma CentralPairs(u: string)
    requires u == "CENTRAL HIGH SCHOOL"
    ensures !Contains(u, "SAINT ") && !Contains(u, "CATHOLIC") && !Contains(u, "CHRISTIAN")
  {
    MissingPairNotContained(u, "SAINT ", 0);
    MissingPairNotContained(u, "CATHOLIC", 0);
    MissingPairNotContained(u, "CHRISTIAN", 1);
  }

  lemma CentralMissingLetters(u: string)
    requires u == "CENTRAL HIGH SCHOOL"
    ensures !Contains(u, "ST. ") && !Contains(u, "BISHOP ") && !Contains(u, "LUTHERAN")
  {
    MissingCharNotContained(u, "ST. ", 2);
    MissingCharNotContained(u, "BISHOP ", 0);
    MissingCharNotContained(u, "LUTHERAN", 1);
  }

  lemma CentralMissingDenominations(u: string)
    requires u == "CENTRAL HIGH SCHOOL"
    ensures !Contains(u, "METHODIST") && !Contains(u, "BAPTIST") && !Contains(u, "EPISCOPAL")
  {
    MissingCharNotContained(u, "METHODIST", 0);
    MissingCharNotContained(u, "BAPTIST", 0);
    MissingCharNotContained(u, "EPISCOPAL", 1);
  }

  lemma CentralNoPrivateMarker(u: string)
    requires u == "CENTRAL HIGH SCHOOL"
    ensures !ContainsAny(u, Markers(Private))
  {
    CentralPairs(u);
    CentralMissingLetters(u);
    CentralMissingDenominations(u);
  }

  lemma CentralNotPrivate()
    ensures !HasMarkers("Central High School", Private)
  {
    UpperCentralHighSchool();
    CentralNoPrivateMarker("CENTRAL HIGH SCHOOL");
  }

  lemma CentralNoAbroadMarker(u: string)
    requires u == "CENTRAL HIGH SCHOOL"
    ensures !ContainsAny(u, Markers(International))
  {
    MissingPairNotContained(u, "IES ", 0);
    MissingPairNotContained(u, "COLLEGE ", 0);
    MissingCharNotContained(u, "INSTITUT", 6);
    MissingCharNotContained(u, "LYCEE", 1);
    MissingCharNotContained(u, "GYMNASIUM", 1);
    MissingCharNotContained(u, "SECONDARY SCHOOL", 8);
  }

  lemma CentralNotInternational()
    ensures !HasMarkers("Central High School", International)
  {
    UpperCentralHighSchool();
    CentralNoAbroadMarker("CENTRAL HIGH SCHOOL");
  }

  lemma CentralHasPublicMarker(u: string)
    requires u == "CENTRAL HIGH SCHOOL"
    ensures ContainsAny(u, Markers(Public))
  {
    ContainsAt(u, "HIGH SCHOOL", 8);
    assert Markers(Public)[1] == "HIGH SCHOOL";
  }

  /** The first docstring example of `categorize_school_type`. */
  lemma CentralIsPublic()
    ensures CategorizeSchoolType("Central High School") == Public
  {
    UpperCentralHighSchool();
    CentralHasPublicMarker("CENTRAL HIGH SCHOOL");
    CentralNotPrep();
    CentralNotPrivate();
    CentralNotInternational();
    CategorizeFirstMatch("Central High School", Public);
  }

  /** A prep marker wins over a private one. */
  lemma CatholicAcademyIsPrep()
    ensures HasMarkers("Catholic Academy", Private)
    ensures CategorizeSchoolType("Catholic Academy") == Prep
  {
    UpperCatholicAcademy();
    CatholicAcademyMarkers("CATHOLIC ACADEMY");
  }

  lemma UpperCatholicAcademy() ensures Upper("Catholic Academy") == "CATHOLIC ACADEMY" {}

  lemma CatholicAcademyMarkers(u: string)
    requires u == "CATHOLIC ACADEMY"
    ensures ContainsAny(u, Markers(Prep)) && ContainsAny(u, Markers(Private))
  {
    ContainsAt(u, "ACADEMY", 9);
    assert Markers(Prep)[0] == "ACADEMY";
    ContainsAt(u, "CATHOLIC", 0);
    assert Markers(Private)[3] == "CATHOLIC";
  }

  /** `is_likely_common_name`: membership in a fixed set of keys. */
  const CommonNames: set<string> := {
    "CENTRAL", "LIBERTY", "LINCOLN", "WASHINGTON", "JEFFERSON",
    "ROOSEVELT", "FRANKLIN", "MADISON", "KENNEDY", "WILSON",
    "EAST", "WEST", "NORTH", "SOUTH", "NORTHEAST", "NORTHWEST",
    "SOUTHEAST", "SOUTHWEST", "CENTENNIAL", "HIGHLAND", "RIVERSIDE"
  }

  function IsLikelyCommonName(key: string): (r: bool)
    ensures r ==> key != [] && forall k :: 0 <= k < |key| ==> IsUpperLetter(key[k])
  {
    key in CommonNames
  }

  /** Every common name is a key: normalising it leaves it as it is. */
  lemma CommonNamesAreKeys(key: string)
    requires IsLikelyCommonName(key)
    ensures NormalizeKey(key) == key
  {
    UpperWordIsKey(key);
  }

  /** Python truthiness of an optional country string. */
  predicate NamesForeignCountry(country: Option<string>) {
    country.Some? && country.value != "" && country.value != "USA" && country.value != "United States"
  }

  /** `is_international_school`. */
  function IsInternationalSchool(name: string, country: Option<string>): (r: bool)
    ensures NamesForeignCountry(country) ==> r
    ensures !NamesForeignCountry(country) ==> (r <==> CategorizeSchoolType(name) == International)
  {
    NamesForeignCountry(country) || CategorizeSchoolType(name) == International
  }

  /** "London Central School" is public by its markers, so without a country it
      is not international, although the docstring says it is. */
  lemma LondonCentralNotInternational()
    ensures !IsInternationalSchool("London Central School", None)
  {
    UpperLondonCentral();
    LondonNoAbroadMarker("LONDON CENTRAL SCHOOL");
  }

  /** The docstring's other two cases: a foreign country decides, and a
      public school in the USA is not international. */
  lemma InternationalExamples()
    ensures IsInternationalSchool("Any School", Some("Canada"))
    ensures !IsInternationalSchool("Central High School", Some("USA"))
  {
    CentralIsPublic();
  }

  lemma UpperLondonCentral() ensures Upper("London Central School") == "LONDON CENTRAL SCHOOL" {}

  lemma LondonNoAbroadMarker(u: string)
    requires u == "LONDON CENTRAL SCHOOL"
    ensures !ContainsAny(u, Markers(International))
  {
    MissingCharNotContained(u, "IES ", 0);
    MissingCharNotContained(u, "INSTITUT", 0);
    MissingCharNotContained(u, "LYCEE", 1);
    MissingCharNotContained(u, "GYMNASIUM", 1);
    MissingCharNotContained(u, "SECONDARY SCHOOL", 8);
    MissingPairNotContained(u, "COLLEGE ", 0);
  }

  // ------------------------------------------------------------------
  // Display names.

  /** The suffix test of `standardize_suffix`, on the upper-cased name. */
  predicate HadSuffix(u: string) {
    Contains(u, "HIGH SCHOOL") || Contains(u, "HS") || Contains(u, "H.S.")
  }

  /** `standardize_suffix`: a name with a suffix marker and a non-empty key
      becomes its title-cased key and the preferred suffix; any other name is
      returned as it is. */
  function StandardizeSuffix(name: string, preferred: string): (r: string)
    ensures name == "" || !HadSuffix(Upper(name)) || NormalizeKey(name) == "" ==> r == name
    ensures name != "" && HadSuffix(Upper(name)) && NormalizeKey(name) != "" ==>
              r == Title(NormalizeKey(name)) + " " + preferred
    ensures r != name ==> Upper(r) == NormalizeKey(name) + " " + Upper(preferred)
  {
    if name == "" then name
    else
      var base := NormalizeKey(name);
      if HadSuffix(Upper(name)) && base != "" then
        UpperDisplay(base, preferred);
        Title(base) + " " + preferred
      else name
  }

  /** Title-casing a key and appending a suffix keeps, case aside, the key. */
  lemma UpperDisplay(base: string, preferred: string)
    requires NoLowerLetters(base)
    ensures Upper(Title(base) + " " + preferred) == base + " " + Upper(preferred)
  {
    var t := Title(base);
    UpperAppend(t + " ", preferred);
    UpperAppend(t, " ");
    UpperOfTitle(base);
    UpperOfUpper(base);
    UpperOfUpper(" ");
  }

  lemma UpperCentralHs() ensures Upper("Central HS") == "CENTRAL HS" {}
  lemma UpperLincolnHighSchool() ensures Upper("Lincoln High School") == "LINCOLN HIGH SCHOOL" {}
  lemma UpperLincolnDotted() ensures Upper("Lincoln H.S.") == "LINCOLN H.S." {}
  lemma TitleCentral() ensures Title("CENTRAL") == "Central" {}
  lemma TitleLincoln() ensures Title("LINCOLN") == "Lincoln" {}
  lemma CentralHsHadSuffix(u: string) requires u == "CENTRAL HS" ensures HadSuffix(u) { ContainsAt(u, "HS", 8); }
  lemma LincolnHighSchoolHadSuffix(u: string) requires u == "LINCOLN HIGH SCHOOL" ensures HadSuffix(u) {
    ContainsAt(u, "HIGH SCHOOL", 8);
  }
  lemma LincolnDottedHadSuffix(u: string) requires u == "LINCOLN H.S." ensures HadSuffix(u) { ContainsAt(u, "H.S.", 8); }
  lemma CentralHsText() ensures "Central" + " " + "H.S." == "Central H.S." {}
  lemma LincolnDottedText() ensures "Lincoln" + " " + "H.S." == "Lincoln H.S." {}
  lemma LincolnHighSchoolText() ensures "Lincoln" + " " + "High School" == "Lincoln High School" {}

  lemma CentralHsKey()
    ensures NormalizeKey("Central HS") == "CENTRAL"
  {
    SpacedPatterns();
    UpperCentralHs();
    WordAndSuffixKey("Central HS", "CENTRAL", 2);
  }

  lemma LincolnHighSchoolKey()
    ensures NormalizeKey("Lincoln High School") == "LINCOLN"
  {
    LincolnHighSchoolKeyAt("Lincoln High School", "LINCOLN HIGH SCHOOL", "LINCOLN", " HIGH SCHOOL");
  }

  lemma LincolnHighSchoolKeyAt(name: string, u: string, w: string, sp: string)
    requires name == "Lincoln High School" && u == "LINCOLN HIGH SCHOOL" && w == "LINCOLN" && sp == " HIGH SCHOOL"
    ensures NormalizeKey(name) == w
  {
    SpacedPatterns();
    UpperLincolnHighSchool();
    LincolnHighSchoolParts(u, w, sp);
    WordAndSuffixKey(name, w, 0);
  }

  lemma LincolnHighSchoolParts(u: string, w: string, sp: string)
    requires u == "LINCOLN HIGH SCHOOL" && w == "LINCOLN" && sp == " HIGH SCHOOL"
    ensures u == w + sp && w != [] && forall k :: 0 <= k < |w| ==> IsUpperLetter(w[k])
  {
  }

  lemma LincolnDottedKey()
    ensures NormalizeKey("Lincoln H.S.") == "LINCOLN"
  {
    SpacedPatterns();
    UpperLincolnDotted();
    WordAndSuffixKey("Lincoln H.S.", "LINCOLN", 1);
  }

  /** A display name, given the key and its title-cased form. */
  lemma DisplayOf(name: string, preferred: string, u: string, key: string, title: string, r: string)
    requires name != "" && Upper(name) == u && HadSuffix(u) && NormalizeKey(name) == key && key != ""
    requires Title(key) == title && title + " " + preferred == r
    ensures StandardizeSuffix(name, preferred) == r
  {
  }

  /** The docstring examples of `standardize_suffix`, one lemma each. */
  lemma CentralHsDisplay()
    ensures StandardizeSuffix("Central HS", "H.S.") == "Central H.S."
  {
    CentralHsKey();
    UpperCentralHs();
    CentralHsHadSuffix("CENTRAL HS");
    TitleCentral();
    CentralHsText();
    DisplayOf("Central HS", "H.S.", "CENTRAL HS", "CENTRAL", "Central", "Central H.S.");
  }

  lemma LincolnHighSchoolDisplay()
    ensures StandardizeSuffix("Lincoln High School", "H.S.") == "Lincoln H.S."
  {
    LincolnHighSchoolKey();
    UpperLincolnHighSchool();
    LincolnHighSchoolHadSuffix("LINCOLN HIGH SCHOOL");
    TitleLincoln();
    LincolnDottedText();
    DisplayOf("Lincoln High School", "H.S.", "LINCOLN HIGH SCHOOL", "LINCOLN", "Lincoln", "Lincoln H.S.");
  }

  lemma LincolnDottedDisplay()
    ensures StandardizeSuffix("Lincoln H.S.", "High School") == "Lincoln High School"
  {
    LincolnDottedKey();
    UpperLincolnDotted();
    LincolnDottedHadSuffix("LINCOLN H.S.");
    TitleLincoln();
    LincolnHighSchoolText();
    DisplayOf("Lincoln H.S.", "High School", "LINCOLN H.S.", "LINCOLN", "Lincoln", "Lincoln High School");
  }

  /** The docstring examples of `extract_disambiguator`. */
  lemma ExtractDisambiguatorExamples()
    ensures ExtractDisambiguator("Central High School (Phoenix)") == "Phoenix"
    ensures ExtractDisambiguator("Lincoln HS") == ""
  {
    PhoenixGroup("Central High School (Phoenix)");
    NoGroup("Lincoln HS");
  }

  lemma PhoenixGroup(s: string)
    requires s == "Central High School (Phoenix)"
    ensures ExtractDisambiguator(s) == "Phoenix"
  {
    assert ParenGroupAt(s, 20, 28) && DollarAt(s, 29);
    assert forall t :: 0 <= t < 20 ==> s[t] != '(';
    FinalGroupAt(s, 20, 28);
    assert s[21..28] == "Phoenix";
  }

  lemma NoGroup(s: string)
    requires s == "Lincoln HS"
    ensures ExtractDisambiguator(s) == ""
  {
    assert ClosingAtEnd(s).None?;
  }
}
