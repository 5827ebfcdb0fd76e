/** The Python string operations the modelled code relies on, restricted to
    ASCII text: `str.isspace` and the regex class `\s`, `\w`, `\d`,
    `upper`/`lower`/`title`, `strip`, `in` (substring), `count`, `split`, `join`,
    `int(digits)`, `str(n)` and the ordering `<` on strings. */
module Text {

  /** `str.isspace()` and regex `\s` on ASCII: tab, line feed, vertical tab,
      form feed, carriage return, the four separators 0x1C-0x1F, and space. */
  predicate IsSpace(c: char) {
    var n := c as int; n == 32 || 9 <= n <= 13 || 28 <= n <= 31
  }

  predicate IsDigit(c: char) { '0' <= c <= '9' }
  predicate IsLowerLetter(c: char) { 'a' <= c <= 'z' }
  predicate IsUpperLetter(c: char) { 'A' <= c <= 'Z' }
  predicate IsLetter(c: char) { IsLowerLetter(c) || IsUpperLetter(c) }

  /** Regex `\w` on ASCII. */
  predicate IsWordChar(c: char) { IsLetter(c) || IsDigit(c) || c == '_' }

  predicate AllSpace(s: string) { forall i :: 0 <= i < |s| ==> IsSpace(s[i]) }
  predicate AllDigits(s: string) { forall i :: 0 <= i < |s| ==> IsDigit(s[i]) }
  predicate NoLowerLetters(s: string) { forall i :: 0 <= i < |s| ==> !IsLowerLetter(s[i]) }

  function UpperChar(c: char): (r: char)
    ensures !IsLowerLetter(r)
    ensures IsLowerLetter(c) ==> r as int == c as int - 32
    ensures !IsLowerLetter(c) ==> r == c
  {
    if IsLowerLetter(c) then (c as int - 32) as char else c
  }

  function LowerChar(c: char): (r: char)
    ensures !IsUpperLetter(r)
    ensures IsUpperLetter(c) ==> r as int == c as int + 32
    ensures !IsUpperLetter(c) ==> r == c
  {
    if IsUpperLetter(c) then (c as int + 32) as char else c
  }

  /** `str.upper()`. */
  function Upper(s: string): (r: string)
    ensures |r| == |s|
    ensures forall i :: 0 <= i < |s| ==> r[i] == UpperChar(s[i])
    ensures NoLowerLetters(r)
  {
    seq(|s|, i requires 0 <= i < |s| => UpperChar(s[i]))
  }

  /** `str.lower()`. */
  function Lower(s: string): (r: string)
    ensures |r| == |s|
    ensures forall i :: 0 <= i < |s| ==> r[i] == LowerChar(s[i])
  {
    seq(|s|, i requires 0 <= i < |s| => LowerChar(s[i]))
  }

  lemma UpperAppend(a: string, b: string)
    ensures Upper(a + b) == Upper(a) + Upper(b)
  {
  }

  lemma UpperOfUpper(s: string)
    requires NoLowerLetters(s)
    ensures Upper(s) == s
  {
  }

  /** `str.rstrip()`: the longest prefix that does not end in whitespace. */
  function RStrip(s: string): (r: string)
    ensures |r| <= |s| && r == s[..|r|]
    ensures AllSpace(s[|r|..])
    ensures r == [] || !IsSpace(r[|r| - 1])
    decreases |s|
  {
    if |s| > 0 && IsSpace(s[|s| - 1]) then
      var r := RStrip(s[..|s| - 1]);
      assert s[|r|..] == s[..|s| - 1][|r|..] + [s[|s| - 1]];
      r
    else s
  }

  /** `str.lstrip()`: the longest suffix that does not start with whitespace. */
  function LStrip(s: string): (r: string)
    ensures |r| <= |s| && r == s[|s| - |r|..]
    ensures AllSpace(s[..|s| - |r|])
    ensures r == [] || !IsSpace(r[0])
    decreases |s|
  {
    if |s| > 0 && IsSpace(s[0]) then
      var r := LStrip(s[1..]);
      assert s[..|s| - |r|] == [s[0]] + s[1..][..|s| - 1 - |r|];
      r
    else s
  }

  /** Regex `$` (no MULTILINE): position `p` is the end of `s`, or just before a final line feed. */
  predicate DollarAt(s: string, p: nat) {
    p == |s| || (p + 1 == |s| && s[p] == '\n')
  }

  /** The end of the run of whitespace that starts at `i` (greedy `\s*`). */
  function SpaceRunEnd(s: string, i: nat): (e: nat)
    requires i <= |s|
    ensures i <= e <= |s|
    ensures forall k :: i <= k < e ==> IsSpace(s[k])
    ensures e == |s| || !IsSpace(s[e])
    decreases |s| - i
  {
    if i < |s| && IsSpace(s[i]) then SpaceRunEnd(s, i + 1) else i
  }

  /** The end of the run of decimal digits that starts at `i` (greedy `\d*`). */
  function DigitRunEnd(s: string, i: nat): (e: nat)
    requires i <= |s|
    ensures i <= e <= |s|
    ensures forall k :: i <= k < e ==> IsDigit(s[k])
    ensures e == |s| || !IsDigit(s[e])
    decreases |s| - i
  {
    if i < |s| && IsDigit(s[i]) then DigitRunEnd(s, i + 1) else i
  }

  /** A run of digits ends where the digits stop. */
  lemma {:induction false} DigitRunEndAt(s: string, i: nat, e: nat)
    requires i <= e <= |s| && (forall k :: i <= k < e ==> IsDigit(s[k])) && (e == |s| || !IsDigit(s[e]))
    ensures DigitRunEnd(s, i) == e
    decreases e - i
  {
    if i < e {
      DigitRunEndAt(s, i + 1, e);
    }
  }

  /** A run of whitespace ends where the whitespace stops. */
  lemma {:induction false} SpaceRunEndAt(s: string, i: nat, e: nat)
    requires i <= e <= |s| && (forall k :: i <= k < e ==> IsSpace(s[k])) && (e == |s| || !IsSpace(s[e]))
    ensures SpaceRunEnd(s, i) == e
    decreases e - i
  {
    if i < e {
      SpaceRunEndAt(s, i + 1, e);
    }
  }

  /** Where the text that `strip` keeps starts. */
  function StripStart(s: string): nat {
    |RStrip(s)| - |LStrip(RStrip(s))|
  }

  /** `str.strip()`: the text between the leading and the trailing whitespace. */
  function Strip(s: string): (r: string)
    ensures StripStart(s) + |r| <= |s|
    ensures r == s[StripStart(s)..StripStart(s) + |r|]
    ensures AllSpace(s[..StripStart(s)]) && AllSpace(s[StripStart(s) + |r|..])
    ensures r == [] || (!IsSpace(r[0]) && !IsSpace(r[|r| - 1]))
  {
    var t := RStrip(s);
    var r := LStrip(t);
    StripParts(s, t, r);
    r
  }

  /** Left-stripping the right-stripped text leaves a slice of `s` with only
      whitespace on either side. */
  lemma StripParts(s: string, t: string, r: string)
    requires |t| <= |s| && t == s[..|t|] && AllSpace(s[|t|..])
    requires |r| <= |t| && r == t[|t| - |r|..] && AllSpace(t[..|t| - |r|])
    ensures |t| - |r| + |r| <= |s| && r == s[|t| - |r|..|t|]
    ensures AllSpace(s[..|t| - |r|]) && AllSpace(s[|t|..])
  {
    assert r == s[|t| - |r|..|t|];
    assert AllSpace(s[..|t| - |r|]) by { assert s[..|t| - |r|] == t[..|t| - |r|]; }
  }

  lemma StripEmpty()
    ensures Strip("") == ""
  {
  }

  /** Stripping text without lower-case letters leaves none. */
  lemma StripKeepsNoLower(s: string)
    requires NoLowerLetters(s)
    ensures NoLowerLetters(Strip(s))
  {
    SliceNoLower(s, StripStart(s), Strip(s));
  }

  lemma SliceNoLower(s: string, k: nat, r: string)
    requires NoLowerLetters(s) && k + |r| <= |s| && r == s[k..k + |r|]
    ensures NoLowerLetters(r)
  {
    forall j | 0 <= j < |r| ensures !IsLowerLetter(r[j]) {
      assert r[j] == s[k + j];
    }
  }

  lemma RStripNoTrailing(s: string)
    requires s == [] || !IsSpace(s[|s| - 1])
    ensures RStrip(s) == s
  {
  }

  /** One space after a text that does not end in whitespace is stripped. */
  lemma RStripOneSpace(s: string)
    requires s == [] || !IsSpace(s[|s| - 1])
    ensures RStrip(s + " ") == s
  {
    assert (s + " ")[..|s|] == s;
    RStripNoTrailing(s);
  }

  /** Whitespace after a text does not change what `rstrip` keeps of it. */
  lemma {:induction false} RStripTrailing(s: string, t: string)
    requires AllSpace(t)
    ensures RStrip(s + t) == RStrip(s)
    decreases |t|
  {
    if t == [] {
      assert s + t == s;
    } else {
      var u := t[..|t| - 1];
      assert (s + t)[..|s + t| - 1] == s + u;
      RStripTrailing(s, u);
    }
  }

  /** A text with no whitespace at either end strips to itself, whatever
      whitespace follows it. */
  lemma StripTrailing(s: string, t: string)
    requires s == [] || (!IsSpace(s[0]) && !IsSpace(s[|s| - 1]))
    requires AllSpace(t)
    ensures Strip(s + t) == s && Strip(s) == s
  {
    RStripTrailing(s, t);
    StripNoEdges(s);
  }

  lemma LStripNoLeading(s: string)
    requires s == [] || !IsSpace(s[0])
    ensures LStrip(s) == s
  {
  }

  /** A string with no whitespace at either end is its own strip. */
  lemma StripNoEdges(s: string)
    requires s == [] || (!IsSpace(s[0]) && !IsSpace(s[|s| - 1]))
    ensures Strip(s) == s
  {
    RStripNoTrailing(s);
    LStripNoLeading(s);
  }

  /** A whitespace-only string strips to the empty string. */
  lemma {:induction false} RStripAllSpace(s: string)
    requires AllSpace(s)
    ensures RStrip(s) == []
    decreases |s|
  {
    if |s| > 0 {
      RStripAllSpace(s[..|s| - 1]);
    }
  }

  lemma StripAllSpace(s: string)
    requires AllSpace(s)
    ensures Strip(s) == []
  {
    RStripAllSpace(s);
  }

  predicate StartsWith(s: string, p: string) { |p| <= |s| && s[..|p|] == p }
  predicate EndsWith(s: string, p: string) { |p| <= |s| && s[|s| - |p|..] == p }

  /** `p` occurs in `s` starting at index `i`. */
  predicate OccursAt(s: string, p: string, i: nat) {
    i + |p| <= |s| && s[i..i + |p|] == p
  }

  /** Python's `p in s` on strings. */
  predicate Contains(s: string, p: string) {
    exists i | 0 <= i <= |s| - |p| :: OccursAt(s, p, i)
  }

  lemma ContainsAt(s: string, p: string, i: nat)
    requires OccursAt(s, p, i)
    ensures Contains(s, p)
  {
  }

  /** A pattern one of whose characters does not occur in `s` is not a substring of `s`. */
  lemma MissingCharNotContained(s: string, p: string, k: nat)
    requires k < |p| && p[k] !in s
    ensures !Contains(s, p)
  {
  }

  /** A pattern two adjacent characters of which never occur side by side in
      `s` is not a substring of `s`. */
  lemma MissingPairNotContained(s: string, p: string, k: nat)
    requires k + 1 < |p|
    requires forall i :: 0 <= i < |s| - 1 ==> !(s[i] == p[k] && s[i + 1] == p[k + 1])
    ensures !Contains(s, p)
  {
    if Contains(s, p) {
      var i :| 0 <= i <= |s| - |p| && OccursAt(s, p, i);
      assert s[i + k] == p[k] && s[i + k + 1] == p[k + 1] by { assert s[i..i + |p|] == p; }
      assert false;
    }
  }

  /** `s.count(c)` for one character. */
  function CountChar(s: string, c: char): (n: nat)
    ensures n <= |s|
    ensures n == 0 <==> c !in s
  {
    if s == [] then 0
    else (if s[0] == c then 1 else 0) + CountChar(s[1..], c)
  }

  lemma {:induction false} CountCharAppend(a: string, b: string, c: char)
    ensures CountChar(a + b, c) == CountChar(a, c) + CountChar(b, c)
    decreases |a|
  {
    if a == [] {
      assert a + b == b;
    } else {
      assert (a + b)[1..] == a[1..] + b;
      CountCharAppend(a[1..], b, c);
    }
  }

  /** `str.title()` on ASCII: a letter is lower-cased when the character before
      it is a letter, and upper-cased otherwise; other characters are kept. */
  function Title(s: string): (r: string)
    ensures |r| == |s|
    ensures forall i :: 0 <= i < |s| ==> UpperChar(r[i]) == UpperChar(s[i])
    ensures forall i :: 0 <= i < |s| ==> (IsLetter(r[i]) <==> IsLetter(s[i]))
    ensures forall i :: 0 <= i < |s| && IsLetter(s[i]) ==>
              (IsUpperLetter(r[i]) <==> i == 0 || !IsLetter(s[i - 1]))
  {
    var r := seq(|s|, i requires 0 <= i < |s| => TitleChar(AfterLetter(s, i), s[i]));
    TitleShape(s, r);
    r
  }

  /** Text made of `TitleChar`s, each after the character before it, is title-cased. */
  lemma TitleShape(s: string, r: string)
    requires |r| == |s| && forall i :: 0 <= i < |s| ==> r[i] == TitleChar(AfterLetter(s, i), s[i])
    ensures forall i :: 0 <= i < |s| ==> UpperChar(r[i]) == UpperChar(s[i])
    ensures forall i :: 0 <= i < |s| ==> (IsLetter(r[i]) <==> IsLetter(s[i]))
    ensures forall i :: 0 <= i < |s| && IsLetter(s[i]) ==>
              (IsUpperLetter(r[i]) <==> i == 0 || !IsLetter(s[i - 1]))
  {
    forall i | 0 <= i < |s|
      ensures UpperChar(r[i]) == UpperChar(s[i]) && (IsLetter(r[i]) <==> IsLetter(s[i]))
      ensures IsLetter(s[i]) ==> (IsUpperLetter(r[i]) <==> i == 0 || !IsLetter(s[i - 1]))
    {
      assert r[i] == TitleChar(AfterLetter(s, i), s[i]);
    }
  }

  /** Position `i` follows a letter. */
  predicate AfterLetter(s: string, i: nat)
    requires i < |s|
  {
    i > 0 && IsLetter(s[i - 1])
  }

  /** One character of `str.title()`: lower case after a letter, upper case elsewhere. */
  function TitleChar(afterLetter: bool, c: char): (r: char)
    ensures UpperChar(r) == UpperChar(c)
    ensures IsLetter(r) <==> IsLetter(c)
    ensures IsLetter(c) ==> (IsUpperLetter(r) <==> !afterLetter)
  {
    if afterLetter then LowerChar(c) else UpperChar(c)
  }

  /** Title-casing changes case only: upper-casing it again gives `s.upper()`. */
  lemma UpperOfTitle(s: string)
    ensures Upper(Title(s)) == Upper(s)
  {
  }

  /** Python's `a < b` on strings: lexicographic by code point, a proper
      prefix before the longer string. (Dafny's `<` on sequences is the
      proper-prefix relation, so this is written out.) */
  predicate LexLess(a: string, b: string)
    decreases |a|
  {
    if a == [] then b != []
    else if b == [] then false
    else if a[0] != b[0] then a[0] < b[0]
    else LexLess(a[1..], b[1..])
  }

  lemma {:induction false} LexLessIrreflexive(a: string)
    ensures !LexLess(a, a)
    decreases |a|
  {
    if a != [] { LexLessIrreflexive(a[1..]); }
  }

  lemma {:induction false} LexLessTotal(a: string, b: string)
    ensures a == b || LexLess(a, b) || LexLess(b, a)
    decreases |a|
  {
    if a != [] && b != [] && a[0] == b[0] {
      LexLessTotal(a[1..], b[1..]);
      if a[1..] == b[1..] {
        assert a == [a[0]] + a[1..] && b == [b[0]] + b[1..];
      }
    }
  }

  lemma {:induction false} LexLessAsymmetric(a: string, b: string)
    ensures !(LexLess(a, b) && LexLess(b, a))
    decreases |a|
  {
    if a != [] && b != [] && a[0] == b[0] {
      LexLessAsymmetric(a[1..], b[1..]);
    }
  }

  lemma {:induction false} LexLessTransitive(a: string, b: string, c: string)
    requires LexLess(a, b) && LexLess(b, c)
    ensures LexLess(a, c)
    decreases |a|
  {
    if a != [] && b != [] && c != [] && a[0] == b[0] && b[0] == c[0] {
      LexLessTransitive(a[1..], b[1..], c[1..]);
    }
  }

  function DigitValue(c: char): (n: nat)
    requires IsDigit(c)
    ensures n < 10
  {
    c as int - '0' as int
  }

  function DigitChar(n: nat): (c: char)
    requires n < 10
    ensures IsDigit(c) && DigitValue(c) == n
  {
    ('0' as int + n) as char
  }

  /** `int(d)` for a string of decimal digits. */
  function DecimalValue(d: string): nat
    requires AllDigits(d)
    decreases |d|
  {
    if d == [] then 0 else DecimalValue(d[..|d| - 1]) * 10 + DigitValue(d[|d| - 1])
  }

  /** `str(n)` for a natural number. */
  function NatToString(n: nat): (s: string)
    ensures |s| > 0 && AllDigits(s)
    ensures s[0] != '0' || n == 0
    ensures n == 0 ==> s == "0"
  {
    if n < 10 then [DigitChar(n)] else NatToString(n / 10) + [DigitChar(n % 10)]
  }

  /** A decimal numeral in the form `str` prints it: digits, no leading zero. */
  predicate CanonicalNumeral(d: string) {
    |d| > 0 && AllDigits(d) && (d[0] == '0' ==> |d| == 1)
  }

  lemma {:induction false} NatToStringValue(n: nat)
    ensures DecimalValue(NatToString(n)) == n
    decreases n
  {
    var s := NatToString(n);
    if n >= 10 {
      NatToStringValue(n / 10);
      assert s[..|s| - 1] == NatToString(n / 10);
    }
  }

  lemma {:induction false} DecimalValueZero(d: string)
    requires AllDigits(d) && DecimalValue(d) == 0
    ensures forall i :: 0 <= i < |d| ==> d[i] == '0'
    decreases |d|
  {
    if d != [] {
      DecimalValueZero(d[..|d| - 1]);
      assert forall i :: 0 <= i < |d| - 1 ==> d[i] == d[..|d| - 1][i];
    }
  }

  /** A numeral with a non-zero leading digit has value at least 1. */
  lemma {:induction false} DecimalValuePositive(d: string)
    requires AllDigits(d) && |d| > 0 && d[0] != '0'
    ensures DecimalValue(d) > 0
  {
    if DecimalValue(d) == 0 {
      DecimalValueZero(d);
    }
  }

  lemma {:induction false} NatToStringOfValue(d: string)
    requires CanonicalNumeral(d)
    ensures NatToString(DecimalValue(d)) == d
    decreases |d|
  {
    var n := DecimalValue(d);
    if |d| == 1 {
    } else {
      var p := d[..|d| - 1];
      assert p[0] == d[0];
      DecimalValuePositive(p);
      NatToStringOfValue(p);
      assert n / 10 == DecimalValue(p) && n % 10 == DigitValue(d[|d| - 1]);
      assert d == p + [d[|d| - 1]];
    }
  }

  /** `s.split(sep)` for a one-character separator: always at least one piece,
      the pieces never contain the separator. */
  function Split(s: string, sep: char): (parts: seq<string>)
    ensures |parts| == CountChar(s, sep) + 1
    ensures forall i :: 0 <= i < |parts| ==> sep !in parts[i]
  {
    if s == [] then [""]
    else if s[0] == sep then [""] + Split(s[1..], sep)
    else
      var rest := Split(s[1..], sep);
      [[s[0]] + rest[0]] + rest[1..]
  }

  /** `sep.join(parts)`. */
  function Join(parts: seq<string>, sep: string): string
    decreases |parts|
  {
    if parts == [] then ""
    else if |parts| == 1 then parts[0]
    else parts[0] + sep + Join(parts[1..], sep)
  }

  /** Splitting and joining back with the same separator gives the string back. */
  lemma {:induction false} JoinSplit(s: string, sep: char)
    ensures Join(Split(s, sep), [sep]) == s
    decreases |s|
  {
    if s == [] {
    } else if s[0] == sep {
      JoinSplit(s[1..], sep);
      assert Split(s, sep) == [""] + Split(s[1..], sep);
      JoinCons("", Split(s[1..], sep), [sep]);
      assert s == [sep] + s[1..];
    } else {
      JoinSplit(s[1..], sep);
      var rest := Split(s[1..], sep);
      assert Split(s, sep) == [[s[0]] + rest[0]] + rest[1..];
      JoinWiderHead(s[0], rest, [sep]);
      assert s == [s[0]] + s[1..];
    }
  }

  /** Joining a first piece in front of at least one more. */
  lemma JoinCons(first: string, rest: seq<string>, sep: string)
    requires |rest| >= 1
    ensures Join([first] + rest, sep) == first + sep + Join(rest, sep)
  {
    var parts := [first] + rest;
    assert parts[0] == first && parts[1..] == rest;
  }

  /** A character in front of the first piece is a character in front of the join. */
  lemma JoinWiderHead(c: char, rest: seq<string>, sep: string)
    requires |rest| >= 1
    ensures Join([[c] + rest[0]] + rest[1..], sep) == [c] + Join(rest, sep)
  {
    if |rest| > 1 {
      JoinCons([c] + rest[0], rest[1..], sep);
      JoinCons(rest[0], rest[1..], sep);
      assert [rest[0]] + rest[1..] == rest;
      assert [c] + rest[0] + sep + Join(rest[1..], sep) == [c] + (rest[0] + sep + Join(rest[1..], sep));
    } else {
      assert [[c] + rest[0]] + rest[1..] == [[c] + rest[0]];
    }
  }

  /** Joining all but the last piece and then the last piece is joining them all. */
  lemma {:induction false} JoinAllButLast(parts: seq<string>, sep: string)
    requires |parts| >= 2
    ensures Join(parts[..|parts| - 1], sep) + sep + parts[|parts| - 1] == Join(parts, sep)
    decreases |parts|
  {
    if |parts| > 2 {
      var tail := parts[1..];
      JoinAllButLast(tail, sep);
      assert tail[..|tail| - 1] == parts[..|parts| - 1][1..];
    }
  }
}
