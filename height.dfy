/** The height codec of a roster scraper: `height_to_inches` reads the usual
    ways a height is written ("5-10", "6'2\"", "6 ft 2 in", "72") as a
    whole number of inches, and `inches_to_height_str` writes a number of
    inches back in one of three formats. */
module Height {
  import opened Common
  import opened Text

  // ------------------------------------------------------------------
  // Values.

  /** The argument of `height_to_inches`: `None`, an `int` (a `bool` is one
      too), or a string. */
  datatype HeightInput = NoneInput | IntInput(n: int) | StrInput(s: string)

  /** What `height_to_inches` gives back: a number of inches, `None`, an
      exception, or, for text `float()` reads as a fraction or with an
      exponent, `int(round(float(text)))`, a float computation this model
      does not carry out. */
  datatype Height = Inches(n: int) | NoHeight | Raised(error: Error) | RoundedFloat(text: string)

  // ------------------------------------------------------------------
  // `float(text)` on ASCII text.

  /** 2^53: below it every integer is a double. */
  const DoublePrecisionLimit: nat := 0x20_0000_0000_0000

  /** 2^1024: a value that rounds to it or past it overflows a double. */
  const DoubleOverflowLimit: nat := 0x1_0000_0000_0000_0000_0000_0000_0000_0000_0000_0000_0000_0000_0000_0000_0000_0000_0000_0000_0000_0000_0000_0000_0000_0000_0000_0000_0000_0000_0000_0000_0000_0000_0000_0000_0000_0000_0000_0000_0000_0000_0000_0000_0000_0000_0000_0000_0000_0000_0000_0000_0000_0000_0000_0000_0000_0000_0000_0000_0000_0000_0000_0000_0000_0000

  /** 2^e, the spacing NearestDouble rounds to; positive, so it can divide. */
  function Pow2(e: nat): (p: nat)
    ensures p >= 1
  {
    if e == 0 then 1 else 2 * Pow2(e - 1)
  }

  /** The number of binary digits of `n`. */
  function BitLength(n: nat): nat {
    if n == 0 then 0 else 1 + BitLength(n / 2)
  }

  /** The double nearest to the integer `n`, ties to the even significand,
      as an integer; `None` when that is past the largest double, where
      `float()` gives infinity. */
  function NearestDouble(n: nat): (r: Option<nat>)
    ensures n < DoublePrecisionLimit ==> r == Some(n)
  {
    if n < DoublePrecisionLimit then Some(n)
    else
      var e: int := BitLength(n) - 53;
      if e <= 0 then Some(n)
      else
        var v := RoundToUnit(n, Pow2(e));
        if v >= DoubleOverflowLimit then None else Some(v)
  }

  /** `n` rounded to a multiple of `unit`, ties to the even multiple. */
  function RoundToUnit(n: nat, unit: nat): nat
    requires unit > 0
  {
    var q: nat, rest := n / unit, n % unit;
    var q': nat := if rest > unit / 2 || (rest == unit / 2 && q % 2 == 1) then q + 1 else q;
    q' * unit
  }

  /** `float()`'s digit groups: digits with single underscores between them. */
  predicate DigitPart(s: string) {
    && |s| > 0 && IsDigit(s[0]) && IsDigit(s[|s| - 1])
    && (forall i :: 0 <= i < |s| ==> IsDigit(s[i]) || s[i] == '_')
    && (forall i :: 0 <= i < |s| - 1 ==> s[i] == '_' ==> s[i + 1] != '_')
  }

  /** The digits of a digit group, underscores dropped. */
  function DropUnderscores(s: string): (r: string)
    ensures (forall i :: 0 <= i < |s| ==> IsDigit(s[i]) || s[i] == '_') ==> AllDigits(r)
    ensures AllDigits(s) ==> r == s
  {
    if s == [] then []
    else (if s[0] == '_' then [] else [s[0]]) + DropUnderscores(s[1..])
  }

  /** The text after an optional leading sign. */
  function Unsigned(s: string): (u: string)
    ensures |s| > 0 && IsDigit(s[0]) ==> u == s
  {
    if |s| > 0 && (s[0] == '+' || s[0] == '-') then s[1..] else s
  }

  /** The first position at or after `i` holding `c` or `d`, or the length. */
  function FirstOf(s: string, c: char, d: char, i: nat): (k: nat)
    requires i <= |s|
    ensures i <= k <= |s| && (k < |s| ==> s[k] == c || s[k] == d)
    ensures forall j :: i <= j < k ==> s[j] != c && s[j] != d
    decreases |s| - i
  {
    if i == |s| || s[i] == c || s[i] == d then i else FirstOf(s, c, d, i + 1)
  }

  /** The part of a float before its exponent: digits with at most one point. */
  predicate Mantissa(m: string) {
    var d := FirstOf(m, '.', '.', 0);
    if d == |m| then DigitPart(m)
    else
      var l, r := m[..d], m[d + 1..];
      (l != [] || r != []) && (l == [] || DigitPart(l)) && (r == [] || DigitPart(r))
  }

  /** An unsigned decimal float literal: a mantissa, then `e`/`E`, an optional
      sign and a digit group. */
  predicate DecimalLiteral(b: string) {
    var e := FirstOf(b, 'e', 'E', 0);
    Mantissa(b[..e]) && (e == |b| || DigitPart(Unsigned(b[e + 1..])))
  }

  /** How `int(round(float(s)))` ends for a stripped, non-empty string `s`. */
  datatype FloatRead =
    | NotAFloat          // `float` raises ValueError
    | NotANumber         // `nan`: `round` raises ValueError
    | Infinite           // `inf`, or a value past the largest double: `round` raises OverflowError
    | Integral(v: int)   // a signed digit group: its value as a double
    | Fractional         // any other float literal

  function ReadFloat(s: string): (r: FloatRead)
    ensures |s| > 0 && IsDigit(s[0]) && (forall i :: 0 <= i < |s| ==> IsDigit(s[i])) ==>
              r == match NearestDouble(DecimalValue(s)) case Some(v) => Integral(v) case None => Infinite
  {
    var u := Unsigned(s);
    var sign := if |s| > 0 && s[0] == '-' then -1 else 1;
    if DigitPart(u) then
      match NearestDouble(DecimalValue(DropUnderscores(u)))
      case Some(v) => Integral(sign * v)
      case None => Infinite
    else if Lower(u) == "nan" then NotANumber
    else if Lower(u) == "inf" || Lower(u) == "infinity" then Infinite
    else if DecimalLiteral(u) then Fractional
    else NotAFloat
  }

  // ------------------------------------------------------------------
  // The six patterns, each anchored at both ends, tried in turn.

  predicate IsFootMark(c: char) { c == '\'' || c == '\U{2032}' }
  predicate IsInchMark(c: char) { c == '"' || c == '\U{2033}' }

  /** `ft|feet|foot` under IGNORECASE. */
  predicate IsFeetWord(w: string) { Lower(w) == "ft" || Lower(w) == "feet" || Lower(w) == "foot" }

  /** `in|inches|inch` under IGNORECASE. */
  predicate IsInchWord(w: string) { Lower(w) == "in" || Lower(w) == "inches" || Lower(w) == "inch" }

  /** Where a feet word starting at `b` ends. No two of the three words
      agree on their first two letters, so at most one of them fits. */
  function FeetWordEnd(s: string, b: nat): (c: Option<nat>)
    requires b <= |s|
    ensures c.Some? ==> b < c.value <= |s| && IsFeetWord(s[b..c.value])
  {
    if b + 2 <= |s| && Lower(s[b..b + 2]) == "ft" then Some(b + 2)
    else if b + 4 <= |s| && (Lower(s[b..b + 4]) == "feet" || Lower(s[b..b + 4]) == "foot") then Some(b + 4)
    else None
  }

  /** The leading feet number: `^(\d+)` and where its digits end. */
  function LeadingDigits(s: string): (a: nat)
    ensures a <= |s| && AllDigits(s[..a])
  {
    var a := DigitRunEnd(s, 0);
    assert forall k :: 0 <= k < a ==> s[..a][k] == s[k];
    a
  }

  /** Pattern 1, `^(\d+)\s*-\s*(\d+)$`: feet and inches. */
  function HyphenMatch(s: string): Option<(nat, nat)> {
    var a := LeadingDigits(s);
    var b := SpaceRunEnd(s, a);
    if a == 0 || b == |s| || s[b] != '-' then None
    else
      var c := SpaceRunEnd(s, b + 1);
      var d := DigitRunEnd(s, c);
      if d == c || !DollarAt(s, d) then None
      else Some((DecimalValue(s[..a]), Digits(s, c, d)))
  }

  /** The value of the digits `s[c..d]`. */
  function Digits(s: string, c: nat, d: nat): nat
    requires c <= d <= |s| && forall k :: c <= k < d ==> IsDigit(s[k])
  {
    assert forall k :: 0 <= k < d - c ==> s[c..d][k] == s[c + k];
    DecimalValue(s[c..d])
  }

  /** Pattern 2, `^(\d+)\s*['′]\s*(\d+)\s*["″]?$`: feet and inches. */
  function QuoteMatch(s: string): Option<(nat, nat)> {
    var a := LeadingDigits(s);
    var b := SpaceRunEnd(s, a);
    if a == 0 || b == |s| || !IsFootMark(s[b]) then None
    else
      var c := SpaceRunEnd(s, b + 1);
      var d := DigitRunEnd(s, c);
      var e := SpaceRunEnd(s, d);
      if d == c || !(DollarAt(s, e) || (e < |s| && IsInchMark(s[e]) && DollarAt(s, e + 1))) then None
      else Some((DecimalValue(s[..a]), Digits(s, c, d)))
  }

  /** Pattern 3, `^(\d+)\s*['′]\s*$`: feet. */
  function FeetQuoteMatch(s: string): Option<nat> {
    var a := LeadingDigits(s);
    var b := SpaceRunEnd(s, a);
    if a == 0 || b == |s| || !IsFootMark(s[b]) || SpaceRunEnd(s, b + 1) != |s| then None
    else Some(DecimalValue(s[..a]))
  }

  /** Pattern 4, `^(\d+)\s*(?:ft|feet|foot)\s*(\d+)?\s*(?:in|inches|inch)?$`,
      case-insensitive: feet and inches, the inches 0 when absent. */
  function TextMatch(s: string): Option<(nat, nat)> {
    var a := LeadingDigits(s);
    var b := SpaceRunEnd(s, a);
    if a == 0 then None
    else
      match FeetWordEnd(s, b)
      case None => None
      case Some(c) =>
        var c' := SpaceRunEnd(s, c);
        var d := DigitRunEnd(s, c');
        var e := SpaceRunEnd(s, d);
        if DollarAt(s, e) || IsInchWord(s[e..]) || (IsInchWord(s[e..|s| - 1]) && s[|s| - 1] == '\n')
        then Some((DecimalValue(s[..a]), if d == c' then 0 else Digits(s, c', d)))
        else None
  }

  /** Pattern 5, `^(\d+)\s*(?:ft|feet|foot)\s*$`, case-insensitive: feet. */
  function FeetTextMatch(s: string): Option<nat> {
    var a := LeadingDigits(s);
    var b := SpaceRunEnd(s, a);
    if a == 0 then None
    else
      match FeetWordEnd(s, b)
      case None => None
      case Some(c) => if SpaceRunEnd(s, c) == |s| then Some(DecimalValue(s[..a])) else None
  }

  /** Pattern 6, `^(\d+)\s*(?:in|inches|inch)\s*$`, case-insensitive: inches. */
  function InchTextMatch(s: string): Option<nat> {
    var a := LeadingDigits(s);
    var b := SpaceRunEnd(s, a);
    if a == 0 || !IsInchWord(RStrip(s[b..])) then None
    else Some(DecimalValue(s[..a]))
  }

  /** The patterns in the order the source tries them, on a stripped string. */
  function MatchPatterns(s: string): (r: Height)
    ensures r.Inches? || r == NoHeight
  {
    match HyphenMatch(s)
    case Some((f, i)) => Inches(12 * f + i)
    case None =>
    match QuoteMatch(s)
    case Some((f, i)) => Inches(12 * f + i)
    case None =>
    match FeetQuoteMatch(s)
    case Some(f) => Inches(12 * f)
    case None =>
    match TextMatch(s)
    case Some((f, i)) => Inches(12 * f + i)
    case None =>
    match FeetTextMatch(s)
    case Some(f) => Inches(12 * f)
    case None =>
    match InchTextMatch(s)
    case Some(n) => Inches(n)
    case None => NoHeight
  }

  /** `height_to_inches`. */
  function HeightToInches(h: HeightInput): (r: Height)
    ensures h.NoneInput? ==> r == NoHeight
    ensures h.IntInput? ==> r == Inches(h.n)
    ensures h.StrInput? && Strip(h.s) == [] ==> r == NoHeight
    ensures h.StrInput? && r.RoundedFloat? ==> r.text == Strip(h.s)
    ensures r.Raised? ==> r.error == OverflowError
  {
    match h
    case NoneInput => NoHeight
    case IntInput(n) => Inches(n)
    case StrInput(raw) =>
      var s := Strip(raw);
      if s == [] then NoHeight else FromFloatRead(s, ReadFloat(s))
  }

  /** What a stripped, non-empty string gives once `float()` has been tried on it:
      a whole number, the overflow of `round`, a float left unrounded, or the
      patterns when `float()` fails. */
  function FromFloatRead(s: string, f: FloatRead): (r: Height)
    ensures r.RoundedFloat? ==> r.text == s
    ensures r.Raised? ==> r.error == OverflowError
  {
    match f
    case Integral(v) => Inches(v)
    case Infinite => Raised(OverflowError)
    case Fractional => RoundedFloat(s)
    case _ => MatchPatterns(s)
  }

  // ------------------------------------------------------------------
  // `inches_to_height_str`.

  predicate IsFormat(format: string) { format == "hyphen" || format == "quote" || format == "text" }

  /** A number of feet and inches written in one of the three formats. */
  function Formatted(feet: nat, inches: nat, format: string): string
    requires IsFormat(format)
  {
    if format == "hyphen" then NatToString(feet) + "-" + NatToString(inches)
    else if format == "quote" then NatToString(feet) + "'" + NatToString(inches) + "\""
    else NatToString(feet) + " ft " + NatToString(inches) + " in"
  }

  /** `inches_to_height_str`: `None` for a missing or negative number, before
      the format is looked at; otherwise feet and the remaining inches (0 to
      11) in the format asked for, and ValueError for any other format. */
  function InchesToHeightStr(inches: Option<int>, format: string): (r: Result<Option<string>>)
    ensures (inches.None? || inches.value < 0) ==> r == Ok(None)
    ensures inches.Some? && inches.value >= 0 && !IsFormat(format) ==> r == Err(ValueError)
    ensures inches.Some? && inches.value >= 0 && IsFormat(format) ==>
              exists f: nat, i: nat :: i < 12 && 12 * f + i == inches.value && r == Ok(Some(Formatted(f, i, format)))
  {
    if inches.None? || inches.value < 0 then Ok(None)
    else
      var feet, rest := inches.value / 12, inches.value % 12;
      if IsFormat(format) then Ok(Some(Formatted(feet, rest, format))) else Err(ValueError)
  }

  // ------------------------------------------------------------------
  // What `float()` refuses.

  /** Every character of a mantissa is a digit, an underscore or the point. */
  lemma MantissaChars(m: string, k: nat)
    requires Mantissa(m) && k < |m|
    ensures IsDigit(m[k]) || m[k] == '_' || m[k] == '.'
  {
    var d := FirstOf(m, '.', '.', 0);
    if d < |m| {
      if k < d {
        assert m[k] == m[..d][k];
      } else if k > d {
        assert m[k] == m[d + 1..][k - d - 1];
      }
    }
  }

  /** A string that starts with a digit and has, before any `e` or `E`, a
      character no float literal uses there, is not a float. */
  lemma NotFloatAt(s: string, k: nat)
    requires k < |s| && IsDigit(s[0])
    requires forall j :: 0 <= j < k ==> s[j] != 'e' && s[j] != 'E'
    requires !IsDigit(s[k]) && s[k] != '_' && s[k] != '.' && s[k] != 'e' && s[k] != 'E'
    ensures ReadFloat(s) == NotAFloat
  {
    NotNumberWord(s);
    NotDecimalAt(s, k);
    assert !DigitPart(s) by { assert !(IsDigit(s[k]) || s[k] == '_'); }
  }

  /** A text starting with a digit is none of `nan`, `inf` and `infinity`. */
  lemma NotNumberWord(s: string)
    requires |s| > 0 && IsDigit(s[0])
    ensures Lower(s) != "nan" && Lower(s) != "inf" && Lower(s) != "infinity"
  {
    assert Lower(s)[0] == s[0];
  }

  /** A character no float literal uses before its exponent rules out a decimal literal. */
  lemma NotDecimalAt(s: string, k: nat)
    requires k < |s|
    requires forall j :: 0 <= j < k ==> s[j] != 'e' && s[j] != 'E'
    requires !IsDigit(s[k]) && s[k] != '_' && s[k] != '.' && s[k] != 'e' && s[k] != 'E'
    ensures !DecimalLiteral(s)
  {
    var e := FirstOf(s, 'e', 'E', 0);
    assert k < e;
    if Mantissa(s[..e]) {
      MantissaChars(s[..e], k);
      assert false;
    }
  }

  // ------------------------------------------------------------------
  // Each pattern matches exactly the strings of its shape, and gives the
  // numbers their digits spell.

  predicate DigitsIn(s: string, i: nat, j: nat) { i <= j <= |s| && forall k :: i <= k < j ==> IsDigit(s[k]) }
  predicate SpacesIn(s: string, i: nat, j: nat) { i <= j <= |s| && forall k :: i <= k < j ==> IsSpace(s[k]) }

  /** `s[..a]` digits, `s[a..b]` whitespace, a hyphen, `s[b+1..c]` whitespace,
      `s[c..d]` digits, then the end (`$`). */
  predicate HyphenShape(s: string, a: nat, b: nat, c: nat, d: nat) {
    && 0 < a && DigitsIn(s, 0, a) && SpacesIn(s, a, b) && b < |s| && s[b] == '-'
    && SpacesIn(s, b + 1, c) && c < d && DigitsIn(s, c, d) && DollarAt(s, d)
  }

  /** A string of the hyphen shape is matched, and its two numbers read. */
  lemma HyphenShapeMatches(s: string, a: nat, b: nat, c: nat, d: nat)
    requires HyphenShape(s, a, b, c, d)
    ensures HyphenMatch(s) == Some((DecimalValue(s[..a]), Digits(s, c, d)))
  {
    HyphenRuns(s, a, b, c, d);
  }

  /** A string of the hyphen shape, spaces around the hyphen included, reads
      as 12·F + I. */
  lemma HyphenShapeHeight(s: string, a: nat, b: nat, c: nat, d: nat)
    requires HyphenShape(s, a, b, c, d)
    ensures HeightToInches(StrInput(s)) == Inches(12 * DecimalValue(s[..a]) + Digits(s, c, d))
  {
    if d < |s| {
      var t, pad := s[..d], s[d..];
      HyphenShapeTrimmed(s, t, a, b, c, d);
      HyphenPadded(t, pad, a, b, c, d);
      HyphenTrimmedValue(s, t, a, b, c, d);
    } else {
      HyphenEndHeight(s, a, b, c, d);
    }
  }

  /** Without the final newline the string reads the same height. */
  lemma HyphenTrimmedValue(s: string, t: string, a: nat, b: nat, c: nat, d: nat)
    requires HyphenShape(s, a, b, c, d) && d < |s| && t == s[..d]
    ensures HyphenShape(t, a, b, c, d)
    ensures Inches(12 * DecimalValue(t[..a]) + Digits(t, c, d)) == Inches(12 * DecimalValue(s[..a]) + Digits(s, c, d))
  {
    HyphenShapeTrimmed(s, t, a, b, c, d);
  }

  /** Without the final newline the string keeps its shape and its numerals. */
  lemma HyphenShapeTrimmed(s: string, t: string, a: nat, b: nat, c: nat, d: nat)
    requires HyphenShape(s, a, b, c, d) && d < |s| && t == s[..d]
    ensures HyphenShape(t, a, b, c, d) && t[..a] == s[..a] && Digits(t, c, d) == Digits(s, c, d)
    ensures s == t + s[d..] && AllSpace(s[d..])
  {
    assert t[c..d] == s[c..d];
    assert s[d..] == "\n";
  }

  /** Whitespace after a hyphen-shaped string does not change its height `v`. */
  lemma HyphenPadded(s: string, pad: string, a: nat, b: nat, c: nat, d: nat)
    requires HyphenShape(s, a, b, c, d) && d == |s| && AllSpace(pad)
    ensures HeightToInches(StrInput(s + pad)) == Inches(12 * DecimalValue(s[..a]) + Digits(s, c, d))
  {
    HyphenEndHeight(s, a, b, c, d);
    HyphenPaddedSame(s, pad, a, b, c, d);
  }

  lemma HyphenPaddedSame(s: string, pad: string, a: nat, b: nat, c: nat, d: nat)
    requires HyphenShape(s, a, b, c, d) && d == |s| && AllSpace(pad)
    ensures HeightToInches(StrInput(s + pad)) == HeightToInches(StrInput(s))
  {
    var f, rest := s[..a], s[a..];
    assert s == f + rest;
    assert rest[|rest| - 1] == s[d - 1];
    HeightOfPadded(f, rest, pad);
  }

  /** A hyphen-shaped string that ends with its inch digits reads as 12·F + I. */
  lemma HyphenEndHeight(s: string, a: nat, b: nat, c: nat, d: nat)
    requires HyphenShape(s, a, b, c, d) && d == |s|
    ensures HeightToInches(StrInput(s)) == Inches(12 * DecimalValue(s[..a]) + Digits(s, c, d))
  {
    HyphenReads(s, a, b, c, d);
    HyphenPatterns(s, a, b, c, d);
  }

  /** The six patterns read a hyphen-shaped string as 12·F + I. */
  lemma HyphenPatterns(s: string, a: nat, b: nat, c: nat, d: nat)
    requires HyphenShape(s, a, b, c, d)
    ensures MatchPatterns(s) == Inches(12 * DecimalValue(s[..a]) + Digits(s, c, d))
  {
    HyphenShapeMatches(s, a, b, c, d);
    PatternsByHyphen(s, DecimalValue(s[..a]), Digits(s, c, d));
  }

  /** A hyphen-shaped string that ends with its inch digits is read by the
      six patterns. */
  lemma HyphenReads(s: string, a: nat, b: nat, c: nat, d: nat)
    requires HyphenShape(s, a, b, c, d) && d == |s|
    ensures HeightToInches(StrInput(s)) == MatchPatterns(s)
  {
    var f, rest := s[..a], s[a..];
    assert s == f + rest;
    assert rest[0] == s[a] && rest[|rest| - 1] == s[d - 1];
    ReadByPatterns(f, rest);
  }

  /** The runs of a string of the hyphen shape end where the shape says. */
  lemma HyphenRuns(s: string, a: nat, b: nat, c: nat, d: nat)
    requires HyphenShape(s, a, b, c, d)
    ensures LeadingDigits(s) == a && SpaceRunEnd(s, a) == b
    ensures SpaceRunEnd(s, b + 1) == c && DigitRunEnd(s, c) == d
  {
    DigitRunEndAt(s, 0, a);
    SpaceRunEndAt(s, a, b);
    SpaceRunEndAt(s, b + 1, c);
    DigitRunEndAt(s, c, d);
  }

  /** Pattern 1 matches exactly the strings of the hyphen shape. */
  lemma HyphenMatchShape(s: string)
    ensures HyphenMatch(s).Some? <==> exists a: nat, b: nat, c: nat, d: nat :: HyphenShape(s, a, b, c, d)
  {
    if HyphenMatch(s).Some? {
      var a := LeadingDigits(s);
      var b := SpaceRunEnd(s, a);
      var c := SpaceRunEnd(s, b + 1);
      assert HyphenShape(s, a, b, c, DigitRunEnd(s, c));
    } else if exists a: nat, b: nat, c: nat, d: nat :: HyphenShape(s, a, b, c, d) {
      var a: nat, b: nat, c: nat, d: nat :| HyphenShape(s, a, b, c, d);
      HyphenShapeMatches(s, a, b, c, d);
    }
  }

  // ------------------------------------------------------------------
  // The formats the tests use, read back.

  /** A numeral followed by a non-digit is the leading feet number. */
  lemma NumeralPrefix(s: string, f: string)
    requires |f| > 0 && AllDigits(f) && |f| < |s| && s[..|f|] == f && !IsDigit(s[|f|])
    ensures LeadingDigits(s) == |f| && DecimalValue(s[..LeadingDigits(s)]) == DecimalValue(f)
  {
    DigitRunEndAt(s, 0, |f|);
  }

  /** A string that starts with a numeral and then a separator other than
      whitespace or a hyphen misses pattern 1. */
  lemma HyphenMisses(s: string, f: string)
    requires |f| > 0 && AllDigits(f) && |f| < |s| && s[..|f|] == f
    requires s[|f|] != '-' && !IsDigit(s[|f|]) && !IsSpace(s[|f|])
    ensures HyphenMatch(s) == None
  {
    NumeralPrefix(s, f);
    SpaceRunEndAt(s, |f|, |f|);
  }

  /** A numeral followed by text that starts with a character no float
      literal has there, and ends in a non-space, is read by the six patterns. */
  lemma ReadByPatterns(f: string, rest: string)
    requires |f| > 0 && AllDigits(f) && |rest| > 0 && !IsSpace(rest[|rest| - 1])
    requires !IsDigit(rest[0]) && rest[0] != '_' && rest[0] != '.' && rest[0] != 'e' && rest[0] != 'E'
    ensures HeightToInches(StrInput(f + rest)) == MatchPatterns(f + rest)
  {
    var s := f + rest;
    assert s[|s| - 1] == rest[|rest| - 1] && s[|f|] == rest[0];
    StripNoEdges(s);
    NotFloatAt(s, |f|);
  }

  /** `F-I` reads as 12·F + I, with no bound on I. */
  lemma {:induction false} HyphenHeight(f: string, i: string)
    requires |f| > 0 && AllDigits(f) && |i| > 0 && AllDigits(i)
    ensures HeightToInches(StrInput(f + "-" + i)) == Inches(12 * DecimalValue(f) + DecimalValue(i))
  {
    assert f + "-" + i == f + ("-" + i);
    ReadByPatterns(f, "-" + i);
    HyphenMatches(f + "-" + i, f, i);
  }

  lemma HyphenMatches(s: string, f: string, i: string)
    requires |f| > 0 && AllDigits(f) && |i| > 0 && AllDigits(i) && s == f + "-" + i
    ensures MatchPatterns(s) == Inches(12 * DecimalValue(f) + DecimalValue(i))
  {
    HyphenFound(s, f, i);
    PatternsByHyphen(s, DecimalValue(f), DecimalValue(i));
  }

  lemma HyphenFound(s: string, f: string, i: string)
    requires |f| > 0 && AllDigits(f) && |i| > 0 && AllDigits(i) && s == f + "-" + i
    ensures HyphenMatch(s) == Some((DecimalValue(f), DecimalValue(i)))
  {
    assert s[..|f|] == f && s[|f| + 1..|s|] == i;
    HyphenShapeMatches(s, |f|, |f|, |f| + 1, |s|);
  }

  /** Pattern 1 decides when it matches. */
  lemma PatternsByHyphen(s: string, f: nat, i: nat)
    requires HyphenMatch(s) == Some((f, i))
    ensures MatchPatterns(s) == Inches(12 * f + i)
  {
  }

  /** `F'I`, `F'I"` and their `′`/`″` spellings read as 12·F + I. */
  lemma {:induction false} QuoteHeight(f: string, foot: char, i: string, close: string)
    requires |f| > 0 && AllDigits(f) && |i| > 0 && AllDigits(i) && IsFootMark(foot)
    requires close == [] || (|close| == 1 && IsInchMark(close[0]))
    ensures HeightToInches(StrInput(f + [foot] + i + close)) == Inches(12 * DecimalValue(f) + DecimalValue(i))
  {
    assert f + [foot] + i + close == f + ([foot] + i + close);
    ReadByPatterns(f, [foot] + i + close);
    QuoteMatches(f + [foot] + i + close, f, foot, i, close);
  }

  lemma QuoteMatches(s: string, f: string, foot: char, i: string, close: string)
    requires |f| > 0 && AllDigits(f) && |i| > 0 && AllDigits(i) && IsFootMark(foot)
    requires close == [] || (|close| == 1 && IsInchMark(close[0]))
    requires s == f + [foot] + i + close
    ensures MatchPatterns(s) == Inches(12 * DecimalValue(f) + DecimalValue(i))
  {
    QuoteMatchAt(s, f, foot, i, close);
    PatternsByQuote(s, DecimalValue(f), DecimalValue(i));
  }

  lemma QuoteMatchAt(s: string, f: string, foot: char, i: string, close: string)
    requires |f| > 0 && AllDigits(f) && |i| > 0 && AllDigits(i) && IsFootMark(foot)
    requires close == [] || (|close| == 1 && IsInchMark(close[0]))
    requires s == f + [foot] + i + close
    ensures HyphenMatch(s) == None && QuoteMatch(s) == Some((DecimalValue(f), DecimalValue(i)))
  {
    var d := |f| + 1 + |i|;
    QuotePieces(s, f, foot, i, close, d);
    HyphenMisses(s, f);
    QuoteRuns(s, f, foot, i, close, d);
    QuoteMatchBy(s, |f|, d);
  }

  /** Where the numerals, the foot mark and the closing mark of `F'I"` sit. */
  lemma QuotePieces(s: string, f: string, foot: char, i: string, close: string, d: nat)
    requires s == f + [foot] + i + close && d == |f| + 1 + |i|
    ensures |s| == d + |close| && s[..|f|] == f && s[|f|] == foot && s[|f| + 1..d] == i && s[d..] == close
  {
  }

  /** The runs pattern 2 reads in the pieces of `F'I"`. */
  lemma QuoteRuns(s: string, f: string, foot: char, i: string, close: string, d: nat)
    requires |f| > 0 && AllDigits(f) && |i| > 0 && AllDigits(i) && IsFootMark(foot)
    requires close == [] || (|close| == 1 && IsInchMark(close[0]))
    requires d == |f| + 1 + |i| && |s| == d + |close|
    requires s[..|f|] == f && s[|f|] == foot && s[|f| + 1..d] == i && s[d..] == close
    ensures LeadingDigits(s) == |f| && DecimalValue(s[..|f|]) == DecimalValue(f)
    ensures SpaceRunEnd(s, |f|) == |f| && SpaceRunEnd(s, |f| + 1) == |f| + 1
    ensures DigitRunEnd(s, |f| + 1) == d && SpaceRunEnd(s, d) == d
    ensures forall k :: |f| + 1 <= k < d ==> IsDigit(s[k])
    ensures Digits(s, |f| + 1, d) == DecimalValue(i)
    ensures d == |s| || (d + 1 == |s| && IsInchMark(s[d]))
  {
    NumeralPrefix(s, f);
    SpaceRunEndAt(s, |f|, |f|);
    DigitsAt(s, i, |f| + 1, d);
    SpaceRunEndAt(s, |f| + 1, |f| + 1);
    assert d == |s| || s[d] == close[0];
    DigitRunEndAt(s, |f| + 1, d);
    SpaceRunEndAt(s, d, d);
  }

  /** Pattern 2 read off the ends of its runs: numeral, foot mark, inch
      numeral, and an optional inch mark at the end. */
  lemma QuoteMatchBy(s: string, a: nat, d: nat)
    requires 0 < a == LeadingDigits(s) && SpaceRunEnd(s, a) == a && a < |s| && IsFootMark(s[a])
    requires a + 1 < d <= |s| && SpaceRunEnd(s, a + 1) == a + 1 && DigitRunEnd(s, a + 1) == d && SpaceRunEnd(s, d) == d
    requires forall k :: a + 1 <= k < d ==> IsDigit(s[k])
    requires d == |s| || (d + 1 == |s| && IsInchMark(s[d]))
    ensures QuoteMatch(s) == Some((DecimalValue(s[..a]), Digits(s, a + 1, d)))
  {
  }

  /** A numeral found at `lo..hi` of `s` makes those characters digits. */
  lemma DigitsAt(s: string, n: string, lo: nat, hi: nat)
    requires lo < hi <= |s| && s[lo..hi] == n && AllDigits(n)
    ensures forall k :: lo <= k < hi ==> IsDigit(s[k])
    ensures IsDigit(s[lo])
  {
    assert forall k :: lo <= k < hi ==> s[k] == n[k - lo];
  }

  /** Pattern 2 decides when pattern 1 misses. */
  lemma PatternsByQuote(s: string, f: nat, i: nat)
    requires HyphenMatch(s) == None && QuoteMatch(s) == Some((f, i))
    ensures MatchPatterns(s) == Inches(12 * f + i)
  {
  }

  /** When the character after the numeral and its spaces is neither a
      hyphen nor a foot mark, the first three patterns miss. */
  lemma EarlierPatternsMiss(s: string, a: nat, b: nat)
    requires LeadingDigits(s) == a && SpaceRunEnd(s, a) == b && b < |s|
    requires s[b] != '-' && !IsFootMark(s[b])
    ensures HyphenMatch(s) == None && QuoteMatch(s) == None && FeetQuoteMatch(s) == None
  {
  }

  /** Pattern 4 decides when the first three miss. */
  lemma PatternsByText(s: string, f: nat, i: nat)
    requires HyphenMatch(s) == None && QuoteMatch(s) == None && FeetQuoteMatch(s) == None
    requires TextMatch(s) == Some((f, i))
    ensures MatchPatterns(s) == Inches(12 * f + i)
  {
  }

  /** `F'` (or `F′`) reads as 12·F. */
  lemma {:induction false} FeetQuoteHeight(f: string, foot: char)
    requires |f| > 0 && AllDigits(f) && IsFootMark(foot)
    ensures HeightToInches(StrInput(f + [foot])) == Inches(12 * DecimalValue(f))
  {
    ReadByPatterns(f, [foot]);
    FeetQuoteMatches(f + [foot], f, foot);
  }

  lemma FeetQuoteMatches(s: string, f: string, foot: char)
    requires |f| > 0 && AllDigits(f) && IsFootMark(foot) && s == f + [foot]
    ensures MatchPatterns(s) == Inches(12 * DecimalValue(f))
  {
    assert s[..|f|] == f;
    HyphenMisses(s, f);
    NumeralPrefix(s, f);
    SpaceRunEndAt(s, |f|, |f|);
    SpaceRunEndAt(s, |f| + 1, |s|);
    DigitRunEndAt(s, |s|, |s|);
  }

  /** `F ft I in` reads as 12·F + I: the feet numeral, a feet word, an inch
      numeral and an inch word, the words in any case and any of their
      forms, with a run of whitespace, possibly empty, between any two
      parts. The inch numeral and the inch word may each be absent, the
      inch numeral then counting as 0; whitespace after the last part is
      stripped. */
  lemma {:induction false} TextHeight(f: string, sp1: string, feet: string, sp2: string,
                                      i: string, sp3: string, inch: string)
    requires |f| > 0 && AllDigits(f) && IsFeetWord(feet) && AllDigits(i) && (inch == [] || IsInchWord(inch))
    requires AllSpace(sp1) && AllSpace(sp2) && AllSpace(sp3)
    ensures HeightToInches(StrInput(f + sp1 + feet + sp2 + i + sp3 + inch)) ==
            Inches(12 * DecimalValue(f) + DecimalValue(i))
  {
    if inch != [] {
      TextHeightToInch(f, sp1, feet, sp2, i, sp3, inch);
    } else if i != [] {
      TextHeightToNumeral(f, sp1, feet, sp2, i, sp3, inch);
    } else {
      TextHeightToWord(f, sp1, feet, sp2, i, sp3, inch);
    }
  }

  /** The text ends in the inch word. */
  lemma TextHeightToInch(f: string, sp1: string, feet: string, sp2: string,
                         i: string, sp3: string, inch: string)
    requires |f| > 0 && AllDigits(f) && IsFeetWord(feet) && AllDigits(i) && inch != [] && IsInchWord(inch)
    requires AllSpace(sp1) && AllSpace(sp2) && AllSpace(sp3)
    ensures HeightToInches(StrInput(f + sp1 + feet + sp2 + i + sp3 + inch)) ==
            Inches(12 * DecimalValue(f) + DecimalValue(i))
  {
    var rest := sp1 + feet + sp2 + i + sp3 + inch;
    assert f + sp1 + feet + sp2 + i + sp3 + inch == f + rest;
    WordStart(feet);
    WordStart(inch);
    assert rest[|rest| - 1] == inch[|inch| - 1];
    assert rest[0] == if sp1 == [] then feet[0] else sp1[0];
    ReadByPatterns(f, rest);
    TextLaidOut(f + rest, f, sp1, feet, sp2, i, sp3, inch);
  }

  /** The text ends in the inch numeral, then perhaps whitespace. */
  lemma TextHeightToNumeral(f: string, sp1: string, feet: string, sp2: string,
                            i: string, sp3: string, inch: string)
    requires |f| > 0 && AllDigits(f) && IsFeetWord(feet) && i != [] && AllDigits(i) && inch == []
    requires AllSpace(sp1) && AllSpace(sp2) && AllSpace(sp3)
    ensures HeightToInches(StrInput(f + sp1 + feet + sp2 + i + sp3 + inch)) ==
            Inches(12 * DecimalValue(f) + DecimalValue(i))
  {
    var rest := sp1 + feet + sp2 + i;
    NumeralLayout(f, sp1, feet, sp2, i, sp3, inch);
    WordStart(feet);
    assert rest[|rest| - 1] == i[|i| - 1];
    assert rest[0] == if sp1 == [] then feet[0] else sp1[0];
    HeightOfPadded(f, rest, sp3);
    ReadByPatterns(f, rest);
    TextLaidOut(f + rest, f, sp1, feet, sp2, i, inch, inch);
  }

  /** The text ends in the feet word, then perhaps whitespace. */
  lemma TextHeightToWord(f: string, sp1: string, feet: string, sp2: string,
                         i: string, sp3: string, inch: string)
    requires |f| > 0 && AllDigits(f) && IsFeetWord(feet) && i == [] && inch == []
    requires AllSpace(sp1) && AllSpace(sp2) && AllSpace(sp3)
    ensures HeightToInches(StrInput(f + sp1 + feet + sp2 + i + sp3 + inch)) ==
            Inches(12 * DecimalValue(f) + DecimalValue(i))
  {
    var rest := sp1 + feet;
    WordLayout(f, sp1, feet, sp2, i, sp3, inch);
    WordStart(feet);
    assert rest[|rest| - 1] == feet[|feet| - 1];
    assert rest[0] == if sp1 == [] then feet[0] else sp1[0];
    HeightOfPadded(f, rest, sp2 + sp3);
    ReadByPatterns(f, rest);
    TextLaidOut(f + rest, f, sp1, feet, i, i, i, inch);
  }

  /** The text without an inch word, regrouped as its stripped part and
      the whitespace after it. */
  lemma NumeralLayout(f: string, sp1: string, feet: string, sp2: string, i: string, sp3: string, inch: string)
    requires inch == []
    ensures f + sp1 + feet + sp2 + i + sp3 + inch == (f + (sp1 + feet + sp2 + i)) + sp3
    ensures f + (sp1 + feet + sp2 + i) == f + sp1 + feet + sp2 + i + inch + inch
  {
  }

  lemma WordLayout(f: string, sp1: string, feet: string, sp2: string, i: string, sp3: string, inch: string)
    requires i == [] && inch == []
    ensures f + sp1 + feet + sp2 + i + sp3 + inch == (f + (sp1 + feet)) + (sp2 + sp3)
    ensures f + (sp1 + feet) == f + sp1 + feet + i + i + i + inch
  {
  }

  /** Whitespace after a numeral and a text that ends in a non-space does
      not change the height read. */
  lemma HeightOfPadded(f: string, rest: string, t: string)
    requires |f| > 0 && AllDigits(f) && |rest| > 0 && !IsSpace(rest[|rest| - 1]) && AllSpace(t)
    ensures HeightToInches(StrInput((f + rest) + t)) == HeightToInches(StrInput(f + rest))
  {
    var s := f + rest;
    assert s[0] == f[0] && s[|s| - 1] == rest[|rest| - 1];
    StripTrailing(s, t);
  }

  /** A feet or inch word starts with a letter and ends with one. */
  lemma WordStart(w: string)
    requires IsFeetWord(w) || IsInchWord(w)
    ensures |w| >= 2 && (LowerChar(w[0]) == 'f' || LowerChar(w[0]) == 'i')
    ensures !IsSpace(w[0]) && !IsDigit(w[0]) && w[0] != '-' && !IsFootMark(w[0])
    ensures !IsSpace(w[|w| - 1])
  {
    assert Lower(w)[0] == LowerChar(w[0]);
    assert Lower(w)[|w| - 1] == LowerChar(w[|w| - 1]);
  }

  /** `s[..a]` digits, `s[a..b]` whitespace, `s[b..c]` a feet word,
      `s[c..c2]` whitespace, `s[c2..d]` digits, `s[d..e]` whitespace and
      `s[e..]` an inch word or nothing: the shape of pattern 4. When there
      are no inch digits the whitespace after the feet word is the one run
      `s[c..c2]`. */
  predicate TextShape(s: string, a: nat, b: nat, c: nat, c2: nat, d: nat, e: nat) {
    && 0 < a && DigitsIn(s, 0, a) && SpacesIn(s, a, b) && b <= c <= |s| && IsFeetWord(s[b..c])
    && SpacesIn(s, c, c2) && DigitsIn(s, c2, d) && SpacesIn(s, d, e)
    && (c2 == d ==> d == e) && (e == |s| || IsInchWord(s[e..]))
  }

  /** A string of the text shape is matched by pattern 4, which reads its
      two numerals, the missing inch numeral as 0. */
  lemma TextShapeMatches(s: string, a: nat, b: nat, c: nat, c2: nat, d: nat, e: nat)
    requires TextShape(s, a, b, c, c2, d, e)
    ensures TextMatch(s) == Some((DecimalValue(s[..a]), if c2 == d then 0 else Digits(s, c2, d)))
    ensures LeadingDigits(s) == a && SpaceRunEnd(s, a) == b && b < |s|
    ensures s[b] != '-' && !IsFootMark(s[b])
  {
    TextShapeRuns(s, a, b, c, c2, d, e);
    TextMatchAt(s, a, b, c, c2, d, e);
  }

  /** The runs of a string of the text shape end where the shape says. */
  lemma TextShapeRuns(s: string, a: nat, b: nat, c: nat, c2: nat, d: nat, e: nat)
    requires TextShape(s, a, b, c, c2, d, e)
    ensures LeadingDigits(s) == a && SpaceRunEnd(s, a) == b && b < |s| && FeetWordEnd(s, b) == Some(c)
    ensures SpaceRunEnd(s, c) == c2 && DigitRunEnd(s, c2) == d && SpaceRunEnd(s, d) == e
    ensures s[b] != '-' && !IsFootMark(s[b])
  {
    TextHeadRuns(s, a, b, c, c2, d, e);
    TextTailRuns(s, a, b, c, c2, d, e);
  }

  /** The numeral, the whitespace after it and the feet word. */
  lemma TextHeadRuns(s: string, a: nat, b: nat, c: nat, c2: nat, d: nat, e: nat)
    requires TextShape(s, a, b, c, c2, d, e)
    ensures LeadingDigits(s) == a && SpaceRunEnd(s, a) == b && b < |s| && FeetWordEnd(s, b) == Some(c)
    ensures s[b] != '-' && !IsFootMark(s[b])
  {
    WordStart(s[b..c]);
    assert s[b] == s[b..c][0];
    DigitRunEndAt(s, 0, a);
    SpaceRunEndAt(s, a, b);
    FeetWordAt(s, b, s[b..c]);
  }

  /** The runs after the feet word: whitespace, inch digits, whitespace. */
  lemma TextTailRuns(s: string, a: nat, b: nat, c: nat, c2: nat, d: nat, e: nat)
    requires TextShape(s, a, b, c, c2, d, e)
    ensures SpaceRunEnd(s, c) == c2 && DigitRunEnd(s, c2) == d && SpaceRunEnd(s, d) == e
  {
    if e < |s| {
      WordStart(s[e..]);
      assert s[e] == s[e..][0];
    }
    SpaceRunEndAt(s, c, c2);
    DigitRunEndAt(s, c2, d);
    SpaceRunEndAt(s, d, e);
  }

  /** Pattern 4 read off the ends of its runs. */
  lemma TextMatchAt(s: string, a: nat, b: nat, c: nat, c2: nat, d: nat, e: nat)
    requires 0 < a && LeadingDigits(s) == a && SpaceRunEnd(s, a) == b && FeetWordEnd(s, b) == Some(c)
    requires SpaceRunEnd(s, c) == c2 && DigitRunEnd(s, c2) == d && SpaceRunEnd(s, d) == e
    requires e == |s| || IsInchWord(s[e..])
    ensures TextMatch(s) == Some((DecimalValue(s[..a]), if c2 == d then 0 else Digits(s, c2, d)))
  {
  }

  /** On a string of the text shape the first three patterns miss and the
      fourth decides. */
  lemma TextShapeHeight(s: string, a: nat, b: nat, c: nat, c2: nat, d: nat, e: nat)
    requires TextShape(s, a, b, c, c2, d, e)
    ensures MatchPatterns(s) == Inches(12 * DecimalValue(s[..a]) + if c2 == d then 0 else Digits(s, c2, d))
  {
    TextShapeMatches(s, a, b, c, c2, d, e);
    EarlierPatternsMiss(s, a, b);
    PatternsByText(s, DecimalValue(s[..a]), if c2 == d then 0 else Digits(s, c2, d));
  }

  /** The seven parts laid end to end: the patterns read 12·F + I off them. */
  lemma TextLaidOut(s: string, f: string, sp1: string, feet: string, sp2: string,
                    i: string, sp3: string, inch: string)
    requires |f| > 0 && AllDigits(f) && IsFeetWord(feet) && AllDigits(i) && (inch == [] || IsInchWord(inch))
    requires AllSpace(sp1) && AllSpace(sp2) && AllSpace(sp3)
    requires s == f + sp1 + feet + sp2 + i + sp3 + inch
    ensures MatchPatterns(s) == Inches(12 * DecimalValue(f) + DecimalValue(i))
  {
    var a, b, c, c2, d, e := TextShapeOf(s, f, sp1, feet, sp2, i, sp3, inch);
    TextShapeHeight(s, a, b, c, c2, d, e);
  }

  /** The seven parts laid end to end form the text shape, its numerals
      spelling F and I. */
  lemma TextShapeOf(s: string, f: string, sp1: string, feet: string, sp2: string,
                    i: string, sp3: string, inch: string)
      returns (a: nat, b: nat, c: nat, c2: nat, d: nat, e: nat)
    requires |f| > 0 && AllDigits(f) && IsFeetWord(feet) && AllDigits(i) && (inch == [] || IsInchWord(inch))
    requires AllSpace(sp1) && AllSpace(sp2) && AllSpace(sp3)
    requires s == f + sp1 + feet + sp2 + i + sp3 + inch
    ensures TextShape(s, a, b, c, c2, d, e)
    ensures DecimalValue(s[..a]) == DecimalValue(f)
    ensures (if c2 == d then 0 else Digits(s, c2, d)) == DecimalValue(i)
  {
    TextHeadPieces(s, f, sp1, feet, sp2, i, sp3, inch);
    TextTailPieces(s, f + sp1 + feet, sp2, i, sp3, inch);
    if i == [] {
      a, b, c, c2, d, e := NoNumeralShape(s, f, sp1, feet, sp2, i, sp3, inch);
    } else {
      a, b, c, c2, d, e := NumeralShape(s, f, sp1, feet, sp2, i, sp3, inch);
    }
  }

  /** Without inch digits, the whitespace after the feet word is one run. */
  lemma NoNumeralShape(s: string, f: string, sp1: string, feet: string, sp2: string,
                       i: string, sp3: string, inch: string)
      returns (a: nat, b: nat, c: nat, c2: nat, d: nat, e: nat)
    requires |f| > 0 && AllDigits(f) && IsFeetWord(feet) && i == [] && (inch == [] || IsInchWord(inch))
    requires AllSpace(sp1) && AllSpace(sp2) && AllSpace(sp3)
    requires |s| == |f| + |sp1| + |feet| + |sp2| + |sp3| + |inch|
    requires s[..|f|] == f && s[|f|..|f| + |sp1|] == sp1
    requires s[|f| + |sp1|..|f| + |sp1| + |feet|] == feet
    requires s[|f| + |sp1| + |feet|..|f| + |sp1| + |feet| + |sp2| + |sp3|] == sp2 + sp3
    requires s[|f| + |sp1| + |feet| + |sp2| + |i| + |sp3|..] == inch
    ensures TextShape(s, a, b, c, c2, d, e)
    ensures DecimalValue(s[..a]) == DecimalValue(f)
    ensures (if c2 == d then 0 else Digits(s, c2, d)) == DecimalValue(i)
  {
    assert AllSpace(sp2 + sp3);
    a := |f|;
    b := a + |sp1|;
    c := b + |feet|;
    c2 := c + |sp2| + |sp3|;
    d, e := c2, c2;
    ShapeOfSlices(s, f, sp1, feet, sp2 + sp3, i, i, inch, a, b, c, c2, d, e);
  }

  /** With inch digits, the parts sit where they are laid. */
  lemma NumeralShape(s: string, f: string, sp1: string, feet: string, sp2: string,
                     i: string, sp3: string, inch: string)
      returns (a: nat, b: nat, c: nat, c2: nat, d: nat, e: nat)
    requires |f| > 0 && AllDigits(f) && IsFeetWord(feet) && i != [] && AllDigits(i) && (inch == [] || IsInchWord(inch))
    requires AllSpace(sp1) && AllSpace(sp2) && AllSpace(sp3)
    requires |s| == |f| + |sp1| + |feet| + |sp2| + |i| + |sp3| + |inch|
    requires s[..|f|] == f && s[|f|..|f| + |sp1|] == sp1
    requires s[|f| + |sp1|..|f| + |sp1| + |feet|] == feet
    requires s[|f| + |sp1| + |feet|..|f| + |sp1| + |feet| + |sp2|] == sp2
    requires s[|f| + |sp1| + |feet| + |sp2|..|f| + |sp1| + |feet| + |sp2| + |i|] == i
    requires s[|f| + |sp1| + |feet| + |sp2| + |i|..|f| + |sp1| + |feet| + |sp2| + |i| + |sp3|] == sp3
    requires s[|f| + |sp1| + |feet| + |sp2| + |i| + |sp3|..] == inch
    ensures TextShape(s, a, b, c, c2, d, e)
    ensures DecimalValue(s[..a]) == DecimalValue(f)
    ensures (if c2 == d then 0 else Digits(s, c2, d)) == DecimalValue(i)
  {
    a := |f|;
    b := a + |sp1|;
    c := b + |feet|;
    c2 := c + |sp2|;
    d := c2 + |i|;
    e := d + |sp3|;
    ShapeOfSlices(s, f, sp1, feet, sp2, i, sp3, inch, a, b, c, c2, d, e);
  }

  /** Parts found at their places in `s` make the text shape. */
  lemma ShapeOfSlices(s: string, f: string, sp1: string, feet: string, mid: string,
                      i: string, sp3: string, inch: string, a: nat, b: nat, c: nat, c2: nat, d: nat, e: nat)
    requires |f| > 0 && AllDigits(f) && IsFeetWord(feet) && AllDigits(i) && (inch == [] || IsInchWord(inch))
    requires AllSpace(sp1) && AllSpace(mid) && AllSpace(sp3) && (i == [] ==> sp3 == [])
    requires a == |f| && b == a + |sp1| && c == b + |feet| && c2 == c + |mid| && d == c2 + |i|
    requires e == d + |sp3| && e + |inch| == |s|
    requires s[..a] == f && s[a..b] == sp1 && s[b..c] == feet && s[c..c2] == mid
    requires s[c2..d] == i && s[d..e] == sp3 && s[e..] == inch
    ensures TextShape(s, a, b, c, c2, d, e)
    ensures DecimalValue(s[..a]) == DecimalValue(f)
    ensures (if c2 == d then 0 else Digits(s, c2, d)) == DecimalValue(i)
  {
    DigitsOf(s, 0, a, f);
    SpacesOf(s, a, b, sp1);
    SpacesOf(s, c, c2, mid);
    DigitsOf(s, c2, d, i);
    SpacesOf(s, d, e, sp3);
  }

  /** Where the numeral, the first whitespace and the feet word sit in `s`. */
  lemma TextHeadPieces(s: string, f: string, sp1: string, feet: string, sp2: string,
                       i: string, sp3: string, inch: string)
    requires s == f + sp1 + feet + sp2 + i + sp3 + inch
    ensures s[..|f|] == f && s[|f|..|f| + |sp1|] == sp1
    ensures s[|f| + |sp1|..|f| + |sp1| + |feet|] == feet
  {
    Piece(s, f, sp1, feet + sp2 + i + sp3 + inch);
    Piece(s, f + sp1, feet, sp2 + i + sp3 + inch);
  }

  /** Where the parts after the feet word sit in `s`. */
  lemma TextTailPieces(s: string, p: string, sp2: string, i: string, sp3: string, inch: string)
    requires s == p + sp2 + i + sp3 + inch
    ensures s[|p|..|p| + |sp2|] == sp2
    ensures i == [] ==> s[|p|..|p| + |sp2| + |sp3|] == sp2 + sp3
    ensures s[|p| + |sp2|..|p| + |sp2| + |i|] == i
    ensures s[|p| + |sp2| + |i|..|p| + |sp2| + |i| + |sp3|] == sp3
    ensures s[|p| + |sp2| + |i| + |sp3|..] == inch
  {
    TextNumeralPieces(s, p, sp2, i, sp3, inch);
    if i == [] {
      Piece(s, p, sp2 + sp3, inch);
    }
  }

  lemma TextNumeralPieces(s: string, p: string, sp2: string, i: string, sp3: string, inch: string)
    requires s == p + sp2 + i + sp3 + inch
    ensures s[|p|..|p| + |sp2|] == sp2
    ensures s[|p| + |sp2|..|p| + |sp2| + |i|] == i
    ensures s[|p| + |sp2| + |i|..|p| + |sp2| + |i| + |sp3|] == sp3
    ensures s[|p| + |sp2| + |i| + |sp3|..] == inch
  {
    Piece(s, p, sp2, i + sp3 + inch);
    Piece(s, p + sp2, i, sp3 + inch);
    Piece(s, p + sp2 + i, sp3, inch);
  }

  /** The three parts of `x + w + y`, sliced back out. */
  lemma Piece(s: string, x: string, w: string, y: string)
    requires s == x + w + y
    ensures s[..|x|] == x && s[|x|..|x| + |w|] == w && s[|x| + |w|..] == y
  {
  }

  lemma SpacesOf(s: string, lo: nat, hi: nat, w: string)
    requires lo <= hi <= |s| && s[lo..hi] == w && AllSpace(w)
    ensures SpacesIn(s, lo, hi)
  {
    assert forall k :: lo <= k < hi ==> s[k] == w[k - lo];
  }

  lemma DigitsOf(s: string, lo: nat, hi: nat, w: string)
    requires lo <= hi <= |s| && s[lo..hi] == w && AllDigits(w)
    ensures DigitsIn(s, lo, hi)
  {
    assert forall k :: lo <= k < hi ==> s[k] == w[k - lo];
  }

  /** The feet word starting at `b` is found where it ends. */
  lemma FeetWordAt(s: string, b: nat, feet: string)
    requires IsFeetWord(feet) && b + |feet| <= |s| && s[b..b + |feet|] == feet
    ensures FeetWordEnd(s, b) == Some(b + |feet|)
  {
    if |feet| == 4 {
      assert s[b..b + 2] == feet[..2];
      assert Lower(s[b..b + 2])[1] == Lower(feet)[1];
    }
  }

  /** `N in` reads as N: a numeral, a run of whitespace, possibly empty, and
      an inch word in any case and any of its forms. */
  lemma {:induction false} InchTextHeight(n: string, sp: string, inch: string)
    requires |n| > 0 && AllDigits(n) && AllSpace(sp) && IsInchWord(inch)
    ensures HeightToInches(StrInput(n + sp + inch)) == Inches(DecimalValue(n))
  {
    var rest := sp + inch;
    WordStart(inch);
    assert rest[|rest| - 1] == inch[|inch| - 1];
    assert rest[0] == if sp == [] then inch[0] else sp[0];
    assert n + sp + inch == n + rest;
    ReadByPatterns(n, rest);
    InchTextMatches(n + rest, n, sp, inch);
  }

  lemma InchTextMatches(s: string, n: string, sp: string, inch: string)
    requires |n| > 0 && AllDigits(n) && AllSpace(sp) && IsInchWord(inch) && s == n + sp + inch
    ensures MatchPatterns(s) == Inches(DecimalValue(n))
  {
    InchTextMisses(s, n, sp, inch);
    InchTextFound(s, n, sp, inch);
    PatternsByInchText(s, DecimalValue(n));
  }

  /** On `N inch` the five patterns before the sixth miss. */
  lemma InchTextMisses(s: string, n: string, sp: string, inch: string)
    requires |n| > 0 && AllDigits(n) && AllSpace(sp) && IsInchWord(inch) && s == n + sp + inch
    ensures HyphenMatch(s) == None && QuoteMatch(s) == None && FeetQuoteMatch(s) == None
    ensures TextMatch(s) == None && FeetTextMatch(s) == None
  {
    InchWordAt(s, n, sp, inch);
    EarlierPatternsMiss(s, |n|, |n| + |sp|);
    NoFeetWordMisses(s, |n|, |n| + |sp|);
  }

  /** Without a feet word after the numeral and its whitespace, patterns 4
      and 5 miss. */
  lemma NoFeetWordMisses(s: string, a: nat, b: nat)
    requires LeadingDigits(s) == a && SpaceRunEnd(s, a) == b && FeetWordEnd(s, b) == None
    ensures TextMatch(s) == None && FeetTextMatch(s) == None
  {
  }

  /** On `N inch` the sixth pattern reads N. */
  lemma InchTextFound(s: string, n: string, sp: string, inch: string)
    requires |n| > 0 && AllDigits(n) && AllSpace(sp) && IsInchWord(inch) && s == n + sp + inch
    ensures InchTextMatch(s) == Some(DecimalValue(n))
  {
    InchWordAt(s, n, sp, inch);
    WordStart(inch);
    RStripNoTrailing(inch);
  }

  /** Pattern 6 decides when the first five miss. */
  lemma PatternsByInchText(s: string, n: nat)
    requires HyphenMatch(s) == None && QuoteMatch(s) == None && FeetQuoteMatch(s) == None
    requires TextMatch(s) == None && FeetTextMatch(s) == None && InchTextMatch(s) == Some(n)
    ensures MatchPatterns(s) == Inches(n)
  {
  }

  /** After the numeral and its whitespace the inch word starts; no pattern
      before the sixth fits. */
  lemma InchWordAt(s: string, n: string, sp: string, inch: string)
    requires |n| > 0 && AllDigits(n) && AllSpace(sp) && IsInchWord(inch) && s == n + sp + inch
    ensures LeadingDigits(s) == |n| && SpaceRunEnd(s, |n|) == |n| + |sp|
    ensures s[..|n|] == n && s[|n| + |sp|..] == inch
    ensures |n| + |sp| < |s| && FeetWordEnd(s, |n| + |sp|) == None
    ensures !IsFootMark(s[|n| + |sp|]) && s[|n| + |sp|] != '-'
  {
    InchRuns(s, n, sp, inch);
    InchWordNext(s, n, sp, inch);
  }

  /** The numeral of `N inch` ends after N, its whitespace before the word. */
  lemma InchRuns(s: string, n: string, sp: string, inch: string)
    requires |n| > 0 && AllDigits(n) && AllSpace(sp) && IsInchWord(inch) && s == n + sp + inch
    ensures LeadingDigits(s) == |n| && SpaceRunEnd(s, |n|) == |n| + |sp|
    ensures s[..|n|] == n && s[|n| + |sp|..] == inch
  {
    var b := |n| + |sp|;
    assert s[..|n|] == n && s[|n|..b] == sp && s[b..] == inch;
    WordStart(inch);
    assert !IsDigit(s[|n|]) by { assert s[|n|] == if sp == [] then inch[0] else sp[0]; }
    NumeralPrefix(s, n);
    SpacesOf(s, |n|, b, sp);
    SpaceRunEndAt(s, |n|, b);
  }

  /** What follows the whitespace of `N inch` is the letter `i`. */
  lemma InchWordNext(s: string, n: string, sp: string, inch: string)
    requires IsInchWord(inch) && s == n + sp + inch
    ensures |n| + |sp| < |s| && FeetWordEnd(s, |n| + |sp|) == None
    ensures !IsFootMark(s[|n| + |sp|]) && s[|n| + |sp|] != '-'
  {
    var b := |n| + |sp|;
    WordStart(inch);
    assert s[b] == inch[0];
    assert LowerChar(s[b]) == 'i' by { assert Lower(inch)[0] == 'i'; }
    NoFeetWordAt(s, b);
  }

  /** No feet word starts at a letter `i`. */
  lemma NoFeetWordAt(s: string, b: nat)
    requires b < |s| && LowerChar(s[b]) == 'i'
    ensures FeetWordEnd(s, b) == None
  {
    if b + 2 <= |s| {
      assert Lower(s[b..b + 2])[0] == 'i';
    }
    if b + 4 <= |s| {
      assert Lower(s[b..b + 4])[0] == 'i';
    }
  }

  // ------------------------------------------------------------------
  // Plain numbers, blanks, and the fifth pattern.

  /** A digit string below 2^53 reads as its own value. */
  lemma DigitStringHeight(s: string)
    requires |s| > 0 && AllDigits(s) && DecimalValue(s) < DoublePrecisionLimit
    ensures HeightToInches(StrInput(s)) == Inches(DecimalValue(s))
  {
    DigitStringFloat(s);
    DigitStringStripped(s);
    HeightByFloat(s, DecimalValue(s));
  }

  /** `float()` reads a digit string below 2^53 exactly. */
  lemma DigitStringFloat(s: string)
    requires |s| > 0 && AllDigits(s) && DecimalValue(s) < DoublePrecisionLimit
    ensures ReadFloat(s) == Integral(DecimalValue(s))
  {
    var v := DecimalValue(s);
    assert NearestDouble(v) == Some(v);
  }

  /** A digit string has no whitespace at its ends. */
  lemma DigitStringStripped(s: string)
    requires |s| > 0 && AllDigits(s)
    ensures Strip(s) == s
  {
    StripNoEdges(s);
  }

  /** A stripped string `float()` reads as a whole number is that many inches. */
  lemma HeightByFloat(s: string, v: int)
    requires Strip(s) == s && s != [] && ReadFloat(s) == Integral(v)
    ensures HeightToInches(StrInput(s)) == Inches(v)
  {
  }

  /** Whitespace alone is no height. */
  lemma BlankHeight(s: string)
    requires AllSpace(s)
    ensures HeightToInches(StrInput(s)) == NoHeight
  {
    StripAllSpace(s);
  }

  /** Text `float()` refuses: its first character is no digit, sign or point,
      and it is not one of the words `nan`, `inf`, `infinity`. */
  lemma NotAFloatText(s: string)
    requires |s| > 0 && !IsDigit(s[0]) && s[0] != '+' && s[0] != '-' && s[0] != '.'
    requires Lower(s) != "nan" && Lower(s) != "inf" && Lower(s) != "infinity"
    ensures ReadFloat(s) == NotAFloat
  {
    assert Unsigned(s) == s;
    var e := FirstOf(s, 'e', 'E', 0);
    var m := s[..e];
    if e > 0 {
      assert m[0] == s[0];
      var d := FirstOf(m, '.', '.', 0);
      assert d > 0;
      assert m[..d][0] == s[0];
    }
  }

  /** No pattern matches text that does not begin with a digit. */
  lemma NoLeadingDigitNoMatch(s: string)
    requires |s| > 0 && !IsDigit(s[0])
    ensures MatchPatterns(s) == NoHeight
  {
    assert LeadingDigits(s) == 0;
  }

  /** Text that is no number and does not begin with a digit is no height. */
  lemma NonNumericHeight(s: string)
    requires |s| > 0 && !IsSpace(s[0]) && !IsSpace(s[|s| - 1])
    requires !IsDigit(s[0]) && s[0] != '+' && s[0] != '-' && s[0] != '.'
    requires Lower(s) != "nan" && Lower(s) != "inf" && Lower(s) != "infinity"
    ensures HeightToInches(StrInput(s)) == NoHeight
  {
    StripNoEdges(s);
    NotAFloatText(s);
    NoLeadingDigitNoMatch(s);
  }

  lemma InvalidHeight()
    ensures HeightToInches(StrInput("invalid")) == NoHeight
  {
    NonNumericHeight("invalid");
  }

  lemma AbcHeight()
    ensures HeightToInches(StrInput("abc")) == NoHeight
  {
    var s := "abc";
    assert Lower(s)[0] == LowerChar('a');
    NonNumericHeight(s);
  }

  /** Pattern 5 never decides: whatever it matches, pattern 4 has already
      matched with no inches. */
  lemma FeetTextShadowed(s: string)
    requires FeetTextMatch(s).Some?
    ensures TextMatch(s) == Some((FeetTextMatch(s).value, 0))
  {
    var a := LeadingDigits(s);
    var c := FeetWordEnd(s, SpaceRunEnd(s, a)).value;
    assert SpaceRunEnd(s, c) == |s|;
    DigitRunEndAt(s, |s|, |s|);
    SpaceRunEndAt(s, |s|, |s|);
  }

  // ------------------------------------------------------------------
  // Round trips.

  lemma HyphenReadsBack(f: nat, i: nat)
    ensures HeightToInches(StrInput(Formatted(f, i, "hyphen"))) == Inches(12 * f + i)
  {
    HyphenFormatted(f, i);
    HyphenValue(Formatted(f, i, "hyphen"), NatToString(f), NatToString(i), f, i);
  }

  /** `s` is `F-I` for the numerals `fs` and `ins`. */
  predicate IsHyphenText(s: string, fs: string, ins: string)
  {
    Numerals(fs, ins) && s == fs + "-" + ins
  }

  lemma HyphenFormatted(f: nat, i: nat)
    ensures IsHyphenText(Formatted(f, i, "hyphen"), NatToString(f), NatToString(i))
    ensures DecimalValue(NatToString(f)) == f && DecimalValue(NatToString(i)) == i
  {
    NatToStringValue(f);
    NatToStringValue(i);
  }

  lemma HyphenValue(s: string, fs: string, ins: string, f: nat, i: nat)
    requires IsHyphenText(s, fs, ins) && DecimalValue(fs) == f && DecimalValue(ins) == i
    ensures HeightToInches(StrInput(s)) == Inches(12 * f + i)
  {
    HyphenClosed(s, fs, ins);
    NumeralValues(fs, ins, f, i);
  }

  /** Numerals of the values `f` and `i` give 12·f + i inches. */
  lemma NumeralValues(fs: string, ins: string, f: nat, i: nat)
    requires Numerals(fs, ins) && DecimalValue(fs) == f && DecimalValue(ins) == i
    ensures Inches(12 * DecimalValue(fs) + DecimalValue(ins)) == Inches(12 * f + i)
  {
  }

  lemma HyphenClosed(s: string, fs: string, ins: string)
    requires IsHyphenText(s, fs, ins)
    ensures HeightToInches(StrInput(s)) == Inches(12 * DecimalValue(fs) + DecimalValue(ins))
  {
    HyphenHeight(fs, ins);
  }

  lemma QuoteReadsBack(f: nat, i: nat)
    ensures HeightToInches(StrInput(Formatted(f, i, "quote"))) == Inches(12 * f + i)
  {
    QuoteFormatted(f, i);
    QuoteValue(Formatted(f, i, "quote"), NatToString(f), NatToString(i), f, i);
  }

  /** `s` is `F'I"` for the numerals `fs` and `ins`. */
  predicate IsQuoteText(s: string, fs: string, ins: string)
  {
    Numerals(fs, ins) && s == fs + ['\''] + ins + ['"']
  }

  lemma QuoteFormatted(f: nat, i: nat)
    ensures IsQuoteText(Formatted(f, i, "quote"), NatToString(f), NatToString(i))
    ensures DecimalValue(NatToString(f)) == f && DecimalValue(NatToString(i)) == i
  {
    NatToStringValue(f);
    NatToStringValue(i);
  }

  lemma QuoteValue(s: string, fs: string, ins: string, f: nat, i: nat)
    requires IsQuoteText(s, fs, ins) && DecimalValue(fs) == f && DecimalValue(ins) == i
    ensures HeightToInches(StrInput(s)) == Inches(12 * f + i)
  {
    QuoteClosed(s, fs, ins);
    NumeralValues(fs, ins, f, i);
  }

  lemma QuoteClosed(s: string, fs: string, ins: string)
    requires IsQuoteText(s, fs, ins)
    ensures HeightToInches(StrInput(s)) == Inches(12 * DecimalValue(fs) + DecimalValue(ins))
  {
    QuoteMarks();
    QuoteHeight(fs, '\'', ins, ['"']);
  }

  /** The marks the quote format writes are a foot mark and a closing inch mark. */
  lemma QuoteMarks()
    ensures IsFootMark('\'')
    ensures ['"'] == [] || (|['"']| == 1 && IsInchMark(['"'][0]))
  {
  }

  lemma TextReadsBack(f: nat, i: nat)
    ensures HeightToInches(StrInput(Formatted(f, i, "text"))) == Inches(12 * f + i)
  {
    TextFormatted(f, i);
    TextValue(Formatted(f, i, "text"), NatToString(f), NatToString(i), f, i);
  }

  /** `s` is `F ft I in` for the numerals `fs` and `ins`. */
  predicate IsFtInText(s: string, fs: string, ins: string)
  {
    Numerals(fs, ins) && s == fs + " ft " + ins + " in"
  }

  lemma TextFormatted(f: nat, i: nat)
    ensures IsFtInText(Formatted(f, i, "text"), NatToString(f), NatToString(i))
    ensures DecimalValue(NatToString(f)) == f && DecimalValue(NatToString(i)) == i
  {
    NatToStringValue(f);
    NatToStringValue(i);
  }

  lemma TextValue(s: string, fs: string, ins: string, f: nat, i: nat)
    requires IsFtInText(s, fs, ins) && DecimalValue(fs) == f && DecimalValue(ins) == i
    ensures HeightToInches(StrInput(s)) == Inches(12 * f + i)
  {
    FtInHeight(s, fs, ins);
    NumeralValues(fs, ins, f, i);
  }

  /** Two non-empty digit strings: the feet and inches numerals of a format. */
  predicate Numerals(fs: string, ins: string)
  {
    |fs| > 0 && AllDigits(fs) && |ins| > 0 && AllDigits(ins)
  }

  /** `F ft I in` with the short words reads as 12·F + I. */
  lemma FtInHeight(s: string, fs: string, ins: string)
    requires IsFtInText(s, fs, ins)
    ensures HeightToInches(StrInput(s)) == Inches(12 * DecimalValue(fs) + DecimalValue(ins))
  {
    TextLayout(fs, ins);
    TextWords();
    TextHeight(fs, " ", "ft", " ", ins, " ", "in");
  }

  lemma TextWords()
    ensures IsFeetWord("ft") && IsInchWord("in")
  {
  }

  /** The text format as the five parts the text pattern reads. */
  lemma TextLayout(fs: string, ins: string)
    ensures fs + " ft " + ins + " in" == fs + " " + "ft" + " " + ins + " " + "in"
    ensures AllSpace(" ")
  {
    assert " ft " == " " + "ft" + " ";
    assert fs + " ft " + ins == fs + " " + "ft" + " " + ins;
  }

  /** Every height written by `inches_to_height_str`, in any of its formats,
      reads back as the number of inches written. */
  lemma InchesRoundTrip(n: int, format: string)
    requires n >= 0 && IsFormat(format)
    ensures var r := InchesToHeightStr(Some(n), format);
            r.Ok? && r.value.Some? && HeightToInches(StrInput(r.value.value)) == Inches(n)
  {
    var f, i := FeetAndInches(n);
    InchesWritten(n, format);
    FormattedReadsBackAs(n, f, i, format);
  }

  lemma FormattedReadsBackAs(n: nat, f: nat, i: nat, format: string)
    requires IsFormat(format) && 12 * f + i == n
    ensures HeightToInches(StrInput(Formatted(f, i, format))) == Inches(n)
  {
    FormattedReadsBack(f, i, format);
  }

  lemma FeetAndInches(n: nat) returns (f: nat, i: nat)
    ensures f == n / 12 && i == n % 12 && 12 * f + i == n
  {
    f, i := n / 12, n % 12;
  }

  lemma FormattedReadsBack(f: nat, i: nat, format: string)
    requires IsFormat(format)
    ensures HeightToInches(StrInput(Formatted(f, i, format))) == Inches(12 * f + i)
  {
    if format == "hyphen" {
      HyphenReadsBack(f, i);
    } else if format == "quote" {
      QuoteReadsBack(f, i);
    } else {
      TextReadsBack(f, i);
    }
  }

  /** A hyphen height written the way `str` writes numbers, with fewer than
      twelve inches, reads as the number `n` it denotes, and `n` is written
      back as the same text. */
  lemma HyphenStringRoundTrip(f: string, i: string, n: int)
    requires CanonicalNumeral(f) && CanonicalNumeral(i) && DecimalValue(i) < 12
    requires n == 12 * DecimalValue(f) + DecimalValue(i)
    ensures HeightToInches(StrInput(f + "-" + i)) == Inches(12 * DecimalValue(f) + DecimalValue(i))
    ensures InchesToHeightStr(Some(n), "hyphen") == Ok(Some(f + "-" + i))
  {
    HyphenHeight(f, i);
    HyphenWrittenBack(f, i, n);
  }

  lemma HyphenWrittenBack(f: string, i: string, n: int)
    requires CanonicalNumeral(f) && CanonicalNumeral(i) && DecimalValue(i) < 12
    requires n == 12 * DecimalValue(f) + DecimalValue(i)
    ensures InchesToHeightStr(Some(n), "hyphen") == Ok(Some(f + "-" + i))
  {
    var a, b := DecimalValue(f), DecimalValue(i);
    DivMod12(a, b);
    NatToStringOfValue(f);
    NatToStringOfValue(i);
    InchesWritten(n, "hyphen");
    assert Formatted(a, b, "hyphen") == NatToString(a) + "-" + NatToString(b);
  }

  lemma DivMod12(f: nat, i: nat)
    requires i < 12
    ensures (12 * f + i) / 12 == f && (12 * f + i) % 12 == i
  {
  }

  /** For a number that is not negative and a known format, the text is the
      feet and the remaining inches in that format. */
  lemma InchesWritten(n: int, format: string)
    requires n >= 0 && IsFormat(format)
    ensures InchesToHeightStr(Some(n), format) == Ok(Some(Formatted(n / 12, n % 12, format)))
  {
  }

  // ------------------------------------------------------------------
  // Examples from the documentation and the tests.

  /** The inches of `F-I` are not checked against 12: "10-6" is 126. */
  lemma HyphenInchesUnbounded()
    ensures HeightToInches(StrInput("10-6")) == Inches(126)
  {
    TenSix("10-6", "10", "6");
  }

  /** The spaced hyphen strings of the tests: "5 - 10" is 70, "6- 2" is 74
      and "6 -0" is 72. */
  lemma FiveTenSpaced()
    ensures HeightToInches(StrInput("5 - 10")) == Inches(70)
  {
    FiveTenSpacedShape("5 - 10");
    SpacedHyphenExample("5 - 10", 1, 2, 4, 6, 70);
  }

  lemma SixTwoSpaced()
    ensures HeightToInches(StrInput("6- 2")) == Inches(74)
  {
    SixTwoSpacedShape("6- 2");
    SpacedHyphenExample("6- 2", 1, 1, 3, 4, 74);
  }

  lemma SixZeroSpaced()
    ensures HeightToInches(StrInput("6 -0")) == Inches(72)
  {
    SixZeroSpacedShape("6 -0");
    SpacedHyphenExample("6 -0", 1, 2, 3, 4, 72);
  }

  lemma SpacedHyphenExample(s: string, a: nat, b: nat, c: nat, d: nat, n: int)
    requires HyphenShape(s, a, b, c, d)
    requires Inches(12 * DecimalValue(s[..a]) + Digits(s, c, d)) == Inches(n)
    ensures HeightToInches(StrInput(s)) == Inches(n)
  {
    HyphenShapeHeight(s, a, b, c, d);
  }

  lemma FiveTenSpacedShape(s: string)
    requires s == "5 - 10"
    ensures HyphenShape(s, 1, 2, 4, 6) && Inches(12 * DecimalValue(s[..1]) + Digits(s, 4, 6)) == Inches(70)
  {
    assert s[..1] == "5" && s[4..6] == "10";
    OneDigit("5");
    TwoDigits("10");
  }

  lemma SixTwoSpacedShape(s: string)
    requires s == "6- 2"
    ensures HyphenShape(s, 1, 1, 3, 4) && Inches(12 * DecimalValue(s[..1]) + Digits(s, 3, 4)) == Inches(74)
  {
    assert s[..1] == "6" && s[3..4] == "2";
    OneDigit("6");
    OneDigit("2");
  }

  lemma SixZeroSpacedShape(s: string)
    requires s == "6 -0"
    ensures HyphenShape(s, 1, 2, 3, 4) && Inches(12 * DecimalValue(s[..1]) + Digits(s, 3, 4)) == Inches(72)
  {
    assert s[..1] == "6" && s[3..4] == "0";
    OneDigit("6");
    OneDigit("0");
  }

  lemma TenSix(s: string, f: string, i: string)
    requires s == "10-6" && f == "10" && i == "6"
    ensures HeightToInches(StrInput(s)) == Inches(126)
  {
    TenSixText(s, f, i);
    DecimalTen(f);
    DecimalSix(i);
    HyphenHeight(f, i);
  }

  lemma TenSixText(s: string, f: string, i: string)
    requires s == "10-6" && f == "10" && i == "6"
    ensures s == f + "-" + i
  {
  }

  lemma DecimalTen(f: string)
    requires f == "10"
    ensures AllDigits(f) && DecimalValue(f) == 10
  {
    assert f[..1] == "1" && f[..1][..0] == [];
    assert DecimalValue(f[..1]) == 1;
  }

  lemma DecimalSix(i: string)
    requires i == "6"
    ensures AllDigits(i) && DecimalValue(i) == 6
  {
    assert i[..0] == [];
  }

  /** The compact and feet-only text forms: "5ft10in" is 70, "6ft2in" is
      74, "6 ft" and "6ft" are 72, and "74in" is 74. */
  lemma FiveTenCompact()
    ensures HeightToInches(StrInput("5ft10in")) == Inches(70)
  {
    TextWords();
    OneDigit("5");
    TwoDigits("10");
    assert "5ft10in" == "5" + "" + "ft" + "" + "10" + "" + "in";
    TextHeight("5", "", "ft", "", "10", "", "in");
  }

  lemma SixTwoCompact()
    ensures HeightToInches(StrInput("6ft2in")) == Inches(74)
  {
    TextWords();
    OneDigit("6");
    OneDigit("2");
    assert "6ft2in" == "6" + "" + "ft" + "" + "2" + "" + "in";
    TextHeight("6", "", "ft", "", "2", "", "in");
  }

  lemma SixFeetSpaced()
    ensures HeightToInches(StrInput("6 ft")) == Inches(72)
  {
    TextWords();
    SixFeetValue();
    FeetOnlyText("6 ft", "6", " ", "ft", "");
  }

  lemma SixFeetCompact()
    ensures HeightToInches(StrInput("6ft")) == Inches(72)
  {
    TextWords();
    SixFeetValue();
    FeetOnlyText("6ft", "6", "", "ft", "");
  }

  lemma SixFeetValue()
    ensures AllDigits("6") && Inches(12 * DecimalValue("6") + DecimalValue("")) == Inches(72)
  {
    OneDigit("6");
  }

  /** `F ft` is the text form without inch numeral and inch word. */
  lemma FeetOnlyText(s: string, f: string, sp: string, feet: string, none: string)
    requires s == f + sp + feet + none + none + none + none && none == []
    requires |f| > 0 && AllDigits(f) && AllSpace(sp) && IsFeetWord(feet)
    ensures HeightToInches(StrInput(s)) == Inches(12 * DecimalValue(f) + DecimalValue(none))
  {
    TextHeightToWord(f, sp, feet, none, none, none, none);
  }

  lemma SeventyFourCompact()
    ensures HeightToInches(StrInput("74in")) == Inches(74)
  {
    TextWords();
    TwoDigits("74");
    assert "74in" == "74" + "" + "in";
    InchTextHeight("74", "", "in");
  }

  lemma OneDigit(n: string)
    requires |n| == 1 && IsDigit(n[0])
    ensures AllDigits(n) && DecimalValue(n) == DigitValue(n[0])
  {
    assert n[..0] == [];
  }

  lemma TwoDigits(n: string)
    requires |n| == 2 && IsDigit(n[0]) && IsDigit(n[1])
    ensures AllDigits(n) && DecimalValue(n) == 10 * DigitValue(n[0]) + DigitValue(n[1])
  {
    assert n[..1] == [n[0]] && n[..1][..0] == [];
    assert DecimalValue(n[..1]) == DigitValue(n[0]);
  }

  /** A second foot mark fits no pattern: "5'10'11" is no height. */
  lemma TwoFootMarksRejected()
    ensures HeightToInches(StrInput("5'10'11")) == NoHeight
  {
    TwoFootMarks("5'10'11");
  }

  lemma TwoFootMarks(s: string)
    requires s == "5'10'11"
    ensures HeightToInches(StrInput(s)) == NoHeight
  {
    assert s == "5" + "'10'11";
    ReadByPatterns("5", "'10'11");
    TwoFootMarksMiss(s);
  }

  lemma TwoFootMarksMiss(s: string)
    requires s == "5'10'11"
    ensures MatchPatterns(s) == NoHeight
  {
    assert s[..1] == "5";
    HyphenMisses(s, "5");
    NumeralPrefix(s, "5");
    SpaceRunEndAt(s, 1, 1);
    TwoFootMarksQuote(s);
    TwoFootMarksWords(s);
  }

  lemma TwoFootMarksQuote(s: string)
    requires s == "5'10'11" && LeadingDigits(s) == 1 && SpaceRunEnd(s, 1) == 1
    ensures QuoteMatch(s) == None && FeetQuoteMatch(s) == None
  {
    SpaceRunEndAt(s, 2, 2);
    DigitRunEndAt(s, 2, 4);
    SpaceRunEndAt(s, 4, 4);
  }

  lemma TwoFootMarksWords(s: string)
    requires s == "5'10'11" && LeadingDigits(s) == 1 && SpaceRunEnd(s, 1) == 1
    ensures TextMatch(s) == None && FeetTextMatch(s) == None && InchTextMatch(s) == None
  {
    assert Lower(s[1..3])[0] == '\'' && Lower(s[1..5])[0] == '\'';
    assert FeetWordEnd(s, 1) == None;
    RStripNoTrailing(s[1..]);
    assert Lower(s[1..])[0] == '\'';
  }
}
