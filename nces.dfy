/** Matching high-school names against the NCES school directories
    (hs_standardization/nces_data.py): the lookup from matching keys to
    directory records, the disambiguation of one name, the standardized name
    built from a match, and the batch pass over a frame. */
module Nces {
  import opened Common
  import opened Text
  import opened Frames
  import opened Normalize

  // ------------------------------------------------------------------
  // Directory rows and the lookup.

  /** A row of a prepared NCES frame: the columns `prepare_nces_for_matching`
      produces. */
  datatype NcesRow = NcesRow(ncesId: string, original: string, normalized: string,
                             street: string, city: string, state: string, zip: string, source: string)

  /** A lookup record: the row without its key, its name under `name`. */
  datatype NcesRecord = NcesRecord(ncesId: string, name: string, street: string, city: string,
                                   state: string, zip: string, source: string)

  type Lookup = map<string, seq<NcesRecord>>

  function RecordOf(r: NcesRow): NcesRecord {
    NcesRecord(r.ncesId, r.original, r.street, r.city, r.state, r.zip, r.source)
  }

  /** Some row has key `k`. */
  predicate HasKey(rows: seq<NcesRow>, k: string) {
    exists i | 0 <= i < |rows| :: rows[i].normalized == k
  }

  /** A key is present in the rows exactly when it is in the front or is the last row's key. */
  lemma HasKeyStep(rows: seq<NcesRow>)
    requires rows != []
    ensures forall k :: HasKey(rows, k) <==> HasKey(rows[..|rows| - 1], k) || rows[|rows| - 1].normalized == k
  {
    var n := |rows| - 1;
    assert forall i | 0 <= i < n :: rows[..n][i] == rows[i];
  }

  /** The records of the rows with key `k`, in row order. */
  function RecordsWithKey(rows: seq<NcesRow>, k: string): (rs: seq<NcesRecord>)
    ensures |rs| > 0 <==> HasKey(rows, k)
    ensures forall x | x in rs :: exists i | 0 <= i < |rows| :: rows[i].normalized == k && RecordOf(rows[i]) == x
    decreases |rows|
  {
    if rows == [] then []
    else
      var n := |rows| - 1;
      HasKeyStep(rows);
      assert forall i | 0 <= i < n :: rows[..n][i] == rows[i];
      RecordsWithKey(rows[..n], k) + (if rows[n].normalized == k then [RecordOf(rows[n])] else [])
  }

  /** What `create_nces_lookup` builds: each non-empty key of the rows maps to
      the records of the rows with that key, in row order; empty keys are left
      out and no list is empty. */
  function LookupOf(rows: seq<NcesRow>): (m: Lookup)
    ensures forall k | k in m :: k != "" && m[k] == RecordsWithKey(rows, k) && m[k] != []
    ensures forall k | k != "" && HasKey(rows, k) :: k in m
    decreases |rows|
  {
    if rows == [] then map[]
    else
      var n := |rows| - 1;
      var lookup := LookupOf(rows[..n]);
      var k := rows[n].normalized;
      HasKeyStep(rows);
      if k == "" then lookup
      else lookup[k := (if k in lookup then lookup[k] else []) + [RecordOf(rows[n])]]
  }

  /** `create_nces_lookup`: one pass over the rows, appending each record with
      a non-empty key to its key's list. */
  method CreateNcesLookup(rows: seq<NcesRow>) returns (lookup: Lookup)
    ensures lookup == LookupOf(rows)
  {
    lookup := map[];
    for i := 0 to |rows|
      invariant lookup == LookupOf(rows[..i])
    {
      assert rows[..i + 1][..i] == rows[..i];
      var normalized := rows[i].normalized;
      if normalized != "" {
        if normalized !in lookup {
          lookup := lookup[normalized := []];
        }
        lookup := lookup[normalized := lookup[normalized] + [RecordOf(rows[i])]];
      }
    }
    assert rows[..|rows|] == rows;
  }

  // ------------------------------------------------------------------
  // Matching one name.

  datatype Confidence = Exact | Ambiguous

  /** The dictionary `match_to_nces` returns: the record (its `name` is the
      `matched_name`), the confidence, and `num_candidates` for an ambiguous match. */
  datatype Match = Match(record: NcesRecord, confidence: Confidence, numCandidates: Option<nat>)

  /** A state or city argument counts only when it is given and not empty. */
  predicate Given(o: Option<string>) {
    o.Some? && o.value != ""
  }

  datatype Field = StateField | CityField

  function FieldOf(c: NcesRecord, f: Field): string {
    if f == StateField then c.state else c.city
  }

  /** `c[field].upper() == value.upper()`. */
  predicate FieldMatches(c: NcesRecord, f: Field, v: string) {
    Upper(FieldOf(c, f)) == Upper(v)
  }

  /** The candidates whose field matches, in order. */
  function Matching(cs: seq<NcesRecord>, f: Field, v: string): (r: seq<NcesRecord>)
    ensures |r| <= |cs|
    ensures forall c :: c in r <==> c in cs && FieldMatches(c, f, v)
  {
    if cs == [] then []
    else
      assert forall c | c in cs :: c == cs[0] || c in cs[1..];
      (if FieldMatches(cs[0], f, v) then [cs[0]] else []) + Matching(cs[1..], f, v)
  }

  /** The first matching candidate comes first. */
  lemma {:induction false} MatchingFirst(cs: seq<NcesRecord>, f: Field, v: string)
    requires Matching(cs, f, v) != []
    ensures exists i | 0 <= i < |cs| :: cs[i] == Matching(cs, f, v)[0] && forall j | 0 <= j < i :: !FieldMatches(cs[j], f, v)
  {
    if FieldMatches(cs[0], f, v) {
      assert Matching(cs, f, v)[0] == cs[0];
    } else {
      var rest := Matching(cs[1..], f, v);
      assert Matching(cs, f, v) == rest;
      MatchingFirst(cs[1..], f, v);
      var i :| 0 <= i < |cs[1..]| && cs[1..][i] == rest[0] && forall j | 0 <= j < i :: !FieldMatches(cs[1..][j], f, v);
      SkipFirst(cs, f, v, i);
    }
  }

  lemma SkipFirst(cs: seq<NcesRecord>, f: Field, v: string, i: nat)
    requires i < |cs| - 1 && !FieldMatches(cs[0], f, v)
    requires forall j | 0 <= j < i :: !FieldMatches(cs[1..][j], f, v)
    ensures forall j | 0 <= j < i + 1 :: !FieldMatches(cs[j], f, v)
  {
    assert forall j | 0 < j < i + 1 :: cs[j] == cs[1..][j - 1];
  }

  function ExactMatch(c: NcesRecord): Match {
    Match(c, Exact, None)
  }

  /** The disambiguation of a key's candidates: a single candidate is exact;
      otherwise the state and then the city narrow the candidates when several
      match, keep them all when none does, and give an exact match when one
      does; the city is tried only while several candidates remain. What is
      left is an ambiguous match on its first candidate. An empty list has no
      first candidate. */
  function Disambiguate(cs: seq<NcesRecord>, state: Option<string>, city: Option<string>): (r: Result<Option<Match>>)
    ensures r.Err? <==> cs == []
    ensures r.Err? ==> r.error == IndexError
    ensures r.Ok? ==> r.value.Some? && r.value.value.record in cs
    ensures |cs| == 1 ==> r == Ok(Some(ExactMatch(cs[0])))
    ensures r.Ok? && r.value.value.confidence == Exact ==> r.value.value.numCandidates == None
    ensures r.Ok? && r.value.value.confidence == Ambiguous ==>
              r.value.value.numCandidates.Some? && 2 <= r.value.value.numCandidates.value <= |cs|
  {
    if |cs| == 1 then Ok(Some(ExactMatch(cs[0])))
    else if StateExact(cs, state) then
      var byState := Matching(cs, StateField, state.value);
      assert byState[0] in byState;
      Ok(Some(ExactMatch(byState[0])))
    else
      CityStep(AfterState(cs, state), city)
  }

  /** The state picks out exactly one candidate. */
  predicate StateExact(cs: seq<NcesRecord>, state: Option<string>) {
    Given(state) && |Matching(cs, StateField, state.value)| == 1
  }

  /** The candidates left by the state: those in the state when there are
      several, all of them otherwise. */
  function AfterState(cs: seq<NcesRecord>, state: Option<string>): (r: seq<NcesRecord>)
    ensures |r| <= |cs| && forall c | c in r :: c in cs
    ensures r == cs || (Given(state) && |r| > 1 && forall c | c in r :: FieldMatches(c, StateField, state.value))
  {
    if Given(state) && |Matching(cs, StateField, state.value)| > 1 then Matching(cs, StateField, state.value)
    else cs
  }

  /** The city step on the candidates left by the state: while several remain,
      the only one in the city is exact, several in the city narrow them and
      none in the city keeps them; what is left is an ambiguous match on its
      first candidate. */
  function CityStep(cs: seq<NcesRecord>, city: Option<string>): (r: Result<Option<Match>>)
    ensures r.Err? <==> cs == []
    ensures r.Err? ==> r.error == IndexError
    ensures r.Ok? ==> r.value.Some? && r.value.value.record in cs
    ensures r.Ok? && r.value.value.confidence == Exact ==> r.value.value.numCandidates == None
    ensures r.Ok? && r.value.value.confidence == Ambiguous ==>
              && r.value.value.numCandidates.Some? && r.value.value.numCandidates.value <= |cs|
              && (|cs| > 1 ==> 2 <= r.value.value.numCandidates.value)
  {
    var byCity := if Given(city) && |cs| > 1 then Matching(cs, CityField, city.value) else [];
    if Given(city) && |cs| > 1 && |byCity| == 1 then
      assert byCity[0] in byCity;
      Ok(Some(ExactMatch(byCity[0])))
    else
      var left := if Given(city) && |cs| > 1 && |byCity| > 1 then byCity else cs;
      assert forall c | c in left :: c in cs;
      if left == [] then Err(IndexError)
      else Ok(Some(Match(left[0], Ambiguous, Some(|left|))))
  }

  /** The lookup `match_to_nces` uses: the one given, else the one built from the frame. */
  function LookupFrom(lookup: Option<Lookup>, frame: Option<seq<NcesRow>>): Lookup
    requires lookup.Some? || frame.Some?
  {
    if lookup.Some? then lookup.value else LookupOf(frame.value)
  }

  /** `match_to_nces`: a `ValueError` exactly when neither a lookup nor a frame
      is given; no match exactly when the name's key is empty or not in the
      lookup; otherwise the disambiguation of the key's candidates. */
  function MatchToNces(name: string, state: Option<string>, city: Option<string>,
                       lookup: Option<Lookup>, frame: Option<seq<NcesRow>>): (r: Result<Option<Match>>)
    ensures r == Err(ValueError) <==> lookup.None? && frame.None?
    ensures r == Ok(None) <==>
              (lookup.Some? || frame.Some?) && (NormalizeKey(name) == "" || NormalizeKey(name) !in LookupFrom(lookup, frame))
    ensures r.Ok? && r.value.Some? ==> r.value.value.record in LookupFrom(lookup, frame)[NormalizeKey(name)]
  {
    if lookup.None? && frame.None? then Err(ValueError)
    else
      var table := LookupFrom(lookup, frame);
      var key := NormalizeKey(name);
      if key == "" || key !in table then Ok(None)
      else Disambiguate(table[key], state, city)
  }

  /** With a lookup built by `create_nces_lookup`, given or built from the
      frame, matching never fails. */
  lemma MatchNeverFails(name: string, state: Option<string>, city: Option<string>,
                        lookup: Option<Lookup>, frame: Option<seq<NcesRow>>, rows: seq<NcesRow>)
    requires (lookup.Some? && lookup.value == LookupOf(rows)) || (lookup.None? && frame == Some(rows))
    ensures MatchToNces(name, state, city, lookup, frame).Ok?
  {
  }

  /** A single candidate is an exact match whatever the state and city. */
  lemma SingleCandidateExact(cs: seq<NcesRecord>, state: Option<string>, city: Option<string>)
    requires |cs| == 1
    ensures Disambiguate(cs, state, city) == Disambiguate(cs, None, None) == Ok(Some(ExactMatch(cs[0])))
  {
  }

  /** Among several candidates, the only one in the given state is an exact match. */
  lemma StateDisambiguates(cs: seq<NcesRecord>, state: string, city: Option<string>, i: nat)
    requires |cs| > 1 && state != "" && i < |cs| && FieldMatches(cs[i], StateField, state)
    requires forall j | 0 <= j < |cs| && j != i :: !FieldMatches(cs[j], StateField, state)
    ensures Disambiguate(cs, Some(state), city) == Ok(Some(ExactMatch(cs[i])))
  {
    MatchingSingle(cs, StateField, state, i);
  }

  /** When only candidate `i` matches, the matching candidates are that one. */
  lemma {:induction false} MatchingSingle(cs: seq<NcesRecord>, f: Field, v: string, i: nat)
    requires i < |cs| && FieldMatches(cs[i], f, v)
    requires forall j | 0 <= j < |cs| && j != i :: !FieldMatches(cs[j], f, v)
    ensures Matching(cs, f, v) == [cs[i]]
  {
    if i == 0 {
      forall c | c in cs[1..] ensures !FieldMatches(c, f, v) {
        var j :| 0 <= j < |cs[1..]| && cs[1..][j] == c;
        assert cs[j + 1] == c;
      }
      NoneMatching(cs[1..], f, v);
    } else {
      assert !FieldMatches(cs[0], f, v);
      forall j | 0 <= j < |cs[1..]| && j != i - 1 ensures !FieldMatches(cs[1..][j], f, v) {
        assert cs[1..][j] == cs[j + 1];
      }
      MatchingSingle(cs[1..], f, v, i - 1);
    }
  }

  lemma {:induction false} NoneMatching(cs: seq<NcesRecord>, f: Field, v: string)
    requires forall c | c in cs :: !FieldMatches(c, f, v)
    ensures Matching(cs, f, v) == []
  {
    if cs != [] {
      assert cs[0] in cs;
      assert forall c | c in cs[1..] :: c in cs;
      NoneMatching(cs[1..], f, v);
    }
  }

  /** A state no candidate is in is ignored. */
  lemma UnknownStateIgnored(cs: seq<NcesRecord>, state: string, city: Option<string>)
    requires forall c | c in cs :: !FieldMatches(c, StateField, state)
    ensures Disambiguate(cs, Some(state), city) == Disambiguate(cs, None, city)
  {
    NoneMatching(cs, StateField, state);
  }

  /** When several candidates are in the given state, the match is in that state. */
  lemma StateNarrows(cs: seq<NcesRecord>, state: string, city: Option<string>)
    requires |cs| > 1 && state != "" && |Matching(cs, StateField, state)| > 1
    ensures Disambiguate(cs, Some(state), city).Ok?
    ensures FieldMatches(Disambiguate(cs, Some(state), city).value.value.record, StateField, state)
  {
    var byState := Matching(cs, StateField, state);
    if Given(city) {
      var byCity := Matching(byState, CityField, city.value);
      assert forall c | c in byCity :: c in byState;
    }
  }

  /** Without a city, several candidates that the state does not single out
      give an ambiguous match on the first one the state leaves, counting those. */
  lemma StateLeftFirst(cs: seq<NcesRecord>, state: Option<string>, left: seq<NcesRecord>)
    requires |cs| > 1 && !StateExact(cs, state) && left == AfterState(cs, state)
    ensures left != [] && Disambiguate(cs, state, None) == Ok(Some(Match(left[0], Ambiguous, Some(|left|))))
  {
  }

  /** Among the candidates the state leaves, the only one in the given city is
      an exact match. */
  lemma CityDisambiguates(cs: seq<NcesRecord>, state: Option<string>, city: string, left: seq<NcesRecord>, i: nat)
    requires |cs| > 1 && !StateExact(cs, state) && city != "" && left == AfterState(cs, state)
    requires i < |left| && FieldMatches(left[i], CityField, city)
    requires forall j | 0 <= j < |left| && j != i :: !FieldMatches(left[j], CityField, city)
    ensures Disambiguate(cs, state, Some(city)) == Ok(Some(ExactMatch(left[i])))
  {
    MatchingSingle(left, CityField, city, i);
  }

  /** When several of the candidates the state leaves are in the given city,
      the match is an ambiguous one on the first of those, counting them. */
  lemma CityNarrows(cs: seq<NcesRecord>, state: Option<string>, city: string, left: seq<NcesRecord>)
    requires |cs| > 1 && !StateExact(cs, state) && city != "" && left == AfterState(cs, state)
    requires |Matching(left, CityField, city)| > 1
    ensures var inCity := Matching(left, CityField, city);
            Disambiguate(cs, state, Some(city)) == Ok(Some(Match(inCity[0], Ambiguous, Some(|inCity|))))
    ensures FieldMatches(Disambiguate(cs, state, Some(city)).value.value.record, CityField, city)
  {
    var inCity := Matching(left, CityField, city);
    assert inCity[0] in inCity;
  }

  /** A city none of the candidates the state leaves is in is ignored. */
  lemma UnknownCityIgnored(cs: seq<NcesRecord>, state: Option<string>, city: string)
    requires forall c | c in AfterState(cs, state) :: !FieldMatches(c, CityField, city)
    ensures Disambiguate(cs, state, Some(city)) == Disambiguate(cs, state, None)
  {
    NoneMatching(AfterState(cs, state), CityField, city);
  }

  /** Without a state or a city, several candidates give an ambiguous match on
      the first one, counting them all. */
  lemma NoHintsAmbiguous(cs: seq<NcesRecord>)
    requires |cs| > 1
    ensures Disambiguate(cs, None, None) == Ok(Some(Match(cs[0], Ambiguous, Some(|cs|))))
  {
  }

  /** With a lookup built from prepared rows (whose keys are the normalized
      names), a matched record's name has the same key as the name matched. */
  lemma MatchedNameHasSameKey(name: string, state: Option<string>, city: Option<string>, rows: seq<NcesRow>)
    requires forall i | 0 <= i < |rows| :: rows[i].normalized == NormalizeKey(rows[i].original)
    ensures var r := MatchToNces(name, state, city, None, Some(rows));
            r.Ok? && r.value.Some? ==> NormalizeKey(r.value.value.record.name) == NormalizeKey(name)
  {
    var r := MatchToNces(name, state, city, None, Some(rows));
    if r.Ok? && r.value.Some? {
      var x := r.value.value.record;
      var k := NormalizeKey(name);
      assert x in RecordsWithKey(rows, k);
      var i :| 0 <= i < |rows| && rows[i].normalized == k && RecordOf(rows[i]) == x;
    }
  }

  // ------------------------------------------------------------------
  // The standardized name.

  /** The suffix `standardize_suffix` adds by default. */
  const HsSuffix: string := "H.S."

  /** `get_nces_standardized_name`: the matched directory name, given an
      "H.S." suffix when asked for and it has neither "H.S." nor "High School";
      without a match, the name given, with its suffix standardized when asked for. */
  function GetNcesStandardizedName(name: string, state: Option<string>, city: Option<string>,
                                   lookup: Option<Lookup>, frame: Option<seq<NcesRow>>, addSuffix: bool)
    : (r: Result<string>)
    ensures r.Err? <==> MatchToNces(name, state, city, lookup, frame).Err?
    ensures !addSuffix && MatchToNces(name, state, city, lookup, frame) == Ok(None) ==> r == Ok(name)
    ensures !addSuffix && MatchToNces(name, state, city, lookup, frame).Ok? && MatchToNces(name, state, city, lookup, frame).value.Some? ==>
              r == Ok(MatchToNces(name, state, city, lookup, frame).value.value.record.name)
    ensures addSuffix && MatchToNces(name, state, city, lookup, frame) == Ok(None) ==> r == Ok(StandardizeSuffix(name, HsSuffix))
    ensures addSuffix && MatchToNces(name, state, city, lookup, frame).Ok? && MatchToNces(name, state, city, lookup, frame).value.Some? ==>
              var matched := MatchToNces(name, state, city, lookup, frame).value.value.record.name;
              r == Ok(if Contains(matched, "H.S.") || Contains(matched, "High School") then matched
                      else StandardizeSuffix(matched, HsSuffix))
  {
    match MatchToNces(name, state, city, lookup, frame)
    case Err(e) => Err(e)
    case Ok(Some(m)) =>
      var matched := m.record.name;
      if addSuffix && !Contains(matched, "H.S.") && !Contains(matched, "High School")
      then Ok(StandardizeSuffix(matched, HsSuffix))
      else Ok(matched)
    case Ok(None) =>
      if addSuffix then Ok(StandardizeSuffix(name, HsSuffix)) else Ok(name)
  }

  /** A matched name that already says "H.S." or "High School" is returned as it is. */
  lemma MatchedHighSchoolKept(name: string, state: Option<string>, city: Option<string>,
                              lookup: Option<Lookup>, frame: Option<seq<NcesRow>>, addSuffix: bool, m: Match)
    requires MatchToNces(name, state, city, lookup, frame) == Ok(Some(m))
    requires Contains(m.record.name, "H.S.") || Contains(m.record.name, "High School")
    ensures GetNcesStandardizedName(name, state, city, lookup, frame, addSuffix) == Ok(m.record.name)
  {
  }

  /** Asked for a suffix, a matched name with another suffix marker ("HS") and
      a non-empty key comes back as its title-cased key followed by "H.S.". */
  lemma MatchedSuffixed(name: string, state: Option<string>, city: Option<string>,
                        lookup: Option<Lookup>, frame: Option<seq<NcesRow>>, m: Match)
    requires MatchToNces(name, state, city, lookup, frame) == Ok(Some(m))
    requires !Contains(m.record.name, "H.S.") && !Contains(m.record.name, "High School")
    requires m.record.name != "" && HadSuffix(Upper(m.record.name)) && NormalizeKey(m.record.name) != ""
    ensures GetNcesStandardizedName(name, state, city, lookup, frame, true)
            == Ok(Title(NormalizeKey(m.record.name)) + " " + HsSuffix)
  {
  }

  /** Asked for a suffix, a matched name without any suffix marker comes back
      as it is: `standardize_suffix` adds "H.S." only in place of a suffix. */
  lemma MatchedPlainKept(name: string, state: Option<string>, city: Option<string>,
                         lookup: Option<Lookup>, frame: Option<seq<NcesRow>>, m: Match)
    requires MatchToNces(name, state, city, lookup, frame) == Ok(Some(m))
    requires !HadSuffix(Upper(m.record.name))
    ensures GetNcesStandardizedName(name, state, city, lookup, frame, true) == Ok(m.record.name)
  {
  }

  /** Without a match, a name with a suffix and a non-empty key comes back as
      its title-cased key followed by "H.S."; any other name comes back as it is. */
  lemma UnmatchedSuffixed(name: string, state: Option<string>, city: Option<string>,
                          lookup: Option<Lookup>, frame: Option<seq<NcesRow>>)
    requires MatchToNces(name, state, city, lookup, frame) == Ok(None)
    ensures var r := GetNcesStandardizedName(name, state, city, lookup, frame, true);
            if name != "" && HadSuffix(Upper(name)) && NormalizeKey(name) != ""
            then r == Ok(Title(NormalizeKey(name)) + " " + HsSuffix)
            else r == Ok(name)
  {
  }

  // ------------------------------------------------------------------
  // The batch pass.

  /** The eight columns `batch_match_to_nces` adds. */
  datatype NcesColumn = IdCol | MatchedNameCol | StreetCol | CityCol | StateCol | ZipCol | SourceCol | ConfidenceCol

  function ColumnName(c: NcesColumn): string {
    match c
    case IdCol => "nces_id"
    case MatchedNameCol => "nces_matched_name"
    case StreetCol => "nces_street"
    case CityCol => "nces_city"
    case StateCol => "nces_state"
    case ZipCol => "nces_zip"
    case SourceCol => "nces_source"
    case ConfidenceCol => "nces_confidence"
  }

  predicate IsNcesColumn(name: string) {
    exists c: NcesColumn :: ColumnName(c) == name
  }

  lemma ColumnNameInjective(a: NcesColumn, b: NcesColumn)
    requires ColumnName(a) == ColumnName(b)
    ensures a == b
  {
    assert |ColumnName(a)| == |ColumnName(b)| && ColumnName(a)[5] == ColumnName(b)[5];
  }

  /** The cell a match writes to a column. */
  function MatchValue(m: Match, c: NcesColumn): Cell {
    match c
    case IdCol => Str(m.record.ncesId)
    case MatchedNameCol => Str(m.record.name)
    case StreetCol => Str(m.record.street)
    case CityCol => Str(m.record.city)
    case StateCol => Str(m.record.state)
    case ZipCol => Str(m.record.zip)
    case SourceCol => Str(m.record.source)
    case ConfidenceCol => Str(if m.confidence == Exact then "exact" else "ambiguous")
  }

  predicate Rectangular(cols: map<string, seq<Cell>>, height: nat) {
    forall c | c in cols :: |cols[c]| == height
  }

  predicate HasNcesColumns(cols: map<string, seq<Cell>>) {
    forall c: NcesColumn :: ColumnName(c) in cols
  }

  function Nulls(n: nat): (r: seq<Cell>)
    ensures |r| == n && forall i | 0 <= i < n :: r[i] == Null
  {
    seq(n, i => Null)
  }

  /** The columns after the eight `result[col] = None` assignments. */
  function Initialized(cols: map<string, seq<Cell>>, height: nat): (r: map<string, seq<Cell>>)
    requires Rectangular(cols, height)
    ensures Rectangular(r, height) && HasNcesColumns(r)
  {
    var empty := Nulls(height);
    cols[ColumnName(IdCol) := empty][ColumnName(MatchedNameCol) := empty][ColumnName(StreetCol) := empty]
        [ColumnName(CityCol) := empty][ColumnName(StateCol) := empty][ColumnName(ZipCol) := empty]
        [ColumnName(SourceCol) := empty][ColumnName(ConfidenceCol) := empty]
  }

  /** The name a cell holds as `normalize_hs_name` sees it: a missing cell is
      the empty name, a boolean is `str()` of it. */
  function CellText(x: Cell): string {
    match x
    case Str(s) => s
    case Null => ""
    case Flag(b) => if b then "True" else "False"
  }

  /** `row[col] if col and col in result.columns else None`, for string cells. */
  function OptionalCell(snapshot: map<string, seq<Cell>>, col: Option<string>, i: nat): Option<string> {
    if col.Some? && col.value != "" && col.value in snapshot && i < |snapshot[col.value]| && snapshot[col.value][i].Str?
    then Some(snapshot[col.value][i].s)
    else None
  }

  /** The match of row `i` of the frame as the loop reads it. */
  function RowMatch(snapshot: map<string, seq<Cell>>, nameCol: string, stateCol: Option<string>, cityCol: Option<string>,
                    rows: seq<NcesRow>, i: nat): Option<Match>
    requires nameCol in snapshot && i < |snapshot[nameCol]|
  {
    var r := MatchToNces(CellText(snapshot[nameCol][i]), OptionalCell(snapshot, stateCol, i),
                         OptionalCell(snapshot, cityCol, i), Some(LookupOf(rows)), None);
    if r.Ok? then r.value else None
  }

  /** One `result.at[idx, col] = value` on an added column. */
  function Put(cols: map<string, seq<Cell>>, i: nat, m: Match, c: NcesColumn): map<string, seq<Cell>>
    requires ColumnName(c) in cols && i < |cols[ColumnName(c)]|
  {
    cols[ColumnName(c) := cols[ColumnName(c)][i := MatchValue(m, c)]]
  }

  /** The added columns, in the order the source writes them. */
  const AllColumns: seq<NcesColumn> := [IdCol, MatchedNameCol, StreetCol, CityCol, StateCol, ZipCol, SourceCol, ConfidenceCol]

  lemma AllColumnsListed(f: NcesColumn)
    ensures f in AllColumns
  {
    match f
    case IdCol => assert AllColumns[0] == f;
    case MatchedNameCol => assert AllColumns[1] == f;
    case StreetCol => assert AllColumns[2] == f;
    case CityCol => assert AllColumns[3] == f;
    case StateCol => assert AllColumns[4] == f;
    case ZipCol => assert AllColumns[5] == f;
    case SourceCol => assert AllColumns[6] == f;
    case ConfidenceCol => assert AllColumns[7] == f;
  }

  /** The writes of a matched row to the first `k` columns of `cs`, one after another. */
  function WritePrefix(cols: map<string, seq<Cell>>, height: nat, i: nat, m: Match, cs: seq<NcesColumn>, k: nat)
    : (r: map<string, seq<Cell>>)
    requires Rectangular(cols, height) && HasNcesColumns(cols) && i < height && k <= |cs|
    ensures r.Keys == cols.Keys && Rectangular(r, height)
  {
    if k == 0 then cols
    else Put(WritePrefix(cols, height, i, m, cs, k - 1), i, m, cs[k - 1])
  }

  /** The eight writes of a matched row. */
  function WriteRow(cols: map<string, seq<Cell>>, height: nat, i: nat, m: Match): (r: map<string, seq<Cell>>)
    requires Rectangular(cols, height) && HasNcesColumns(cols) && i < height
    ensures r.Keys == cols.Keys && Rectangular(r, height) && HasNcesColumns(r)
  {
    WritePrefix(cols, height, i, m, AllColumns, |AllColumns|)
  }

  /** The match of every row, in row order. */
  function RowMatches(snapshot: map<string, seq<Cell>>, height: nat, nameCol: string, stateCol: Option<string>,
                      cityCol: Option<string>, rows: seq<NcesRow>): (ms: seq<Option<Match>>)
    requires Rectangular(snapshot, height) && nameCol in snapshot
    ensures |ms| == height
  {
    seq(height, i requires 0 <= i < height => RowMatch(snapshot, nameCol, stateCol, cityCol, rows, i))
  }

  /** The columns after the first `n` rows of the loop, row `i` having the match `ms[i]`. */
  function Progress(cols: map<string, seq<Cell>>, height: nat, ms: seq<Option<Match>>, n: nat): (r: map<string, seq<Cell>>)
    requires Rectangular(cols, height) && HasNcesColumns(cols) && n <= |ms| == height
    ensures r.Keys == cols.Keys && Rectangular(r, height)
  {
    if n == 0 then cols
    else
      var before := Progress(cols, height, ms, n - 1);
      if ms[n - 1].Some? then WriteRow(before, height, n - 1, ms[n - 1].value) else before
  }

  /** One more row of the loop: its match, if any, written over the columns so far. */
  lemma ProgressNext(cols: map<string, seq<Cell>>, height: nat, ms: seq<Option<Match>>, n: nat)
    requires Rectangular(cols, height) && HasNcesColumns(cols) && n < |ms| == height
    ensures HasNcesColumns(Progress(cols, height, ms, n))
    ensures Progress(cols, height, ms, n + 1)
            == if ms[n].Some? then WriteRow(Progress(cols, height, ms, n), height, n, ms[n].value)
               else Progress(cols, height, ms, n)
  {
    var before := Progress(cols, height, ms, n);
    assert forall c: NcesColumn :: ColumnName(c) in before;
  }

  /** The number of the first `n` rows that matched. */
  function CountMatched(ms: seq<Option<Match>>, n: nat): (k: nat)
    requires n <= |ms|
    ensures k <= n
  {
    if n == 0 then 0 else CountMatched(ms, n - 1) + (if ms[n - 1].Some? then 1 else 0)
  }

  /** The eight `result.at[idx, col] = value` writes of one matched row, in
      the order of `AllColumns`. */
  method WriteMatch(result: Frame, i: nat, m: Match)
    requires result.Valid() && HasNcesColumns(result.columns) && i < result.height
    modifies result
    ensures result.Valid() && result.height == old(result.height)
    ensures result.columns == WriteRow(old(result.columns), old(result.height), i, m)
  {
    ghost var cols, height := result.columns, result.height;
    for k := 0 to |AllColumns|
      invariant result.Valid() && result.height == height
      invariant result.columns == WritePrefix(cols, height, i, m, AllColumns, k)
    {
      var c := AllColumns[k];
      result.SetCell(i, ColumnName(c), MatchValue(m, c));
    }
  }

  /** The match the loop computes for row `i` is the row's match. */
  lemma RowMatchIs(snapshot: map<string, seq<Cell>>, nameCol: string, stateCol: Option<string>,
                   cityCol: Option<string>, rows: seq<NcesRow>, i: nat, name: string,
                   state: Option<string>, city: Option<string>)
    requires nameCol in snapshot && i < |snapshot[nameCol]|
    requires name == CellText(snapshot[nameCol][i])
    requires state == OptionalCell(snapshot, stateCol, i) && city == OptionalCell(snapshot, cityCol, i)
    ensures MatchToNces(name, state, city, Some(LookupOf(rows)), None).Ok?
    ensures RowMatch(snapshot, nameCol, stateCol, cityCol, rows, i)
            == MatchToNces(name, state, city, Some(LookupOf(rows)), None).value
  {
    MatchNeverFails(name, state, city, Some(LookupOf(rows)), None, rows);
  }

  /** The eight `result[col] = None` assignments. */
  method InitColumns(result: Frame)
    requires result.Valid()
    modifies result
    ensures result.Valid() && result.height == old(result.height)
    ensures result.columns == Initialized(old(result.columns), old(result.height))
  {
    var empty := Nulls(result.height);
    result.SetColumn(ColumnName(IdCol), empty);
    result.SetColumn(ColumnName(MatchedNameCol), empty);
    result.SetColumn(ColumnName(StreetCol), empty);
    result.SetColumn(ColumnName(CityCol), empty);
    result.SetColumn(ColumnName(StateCol), empty);
    result.SetColumn(ColumnName(ZipCol), empty);
    result.SetColumn(ColumnName(SourceCol), empty);
    result.SetColumn(ColumnName(ConfidenceCol), empty);
  }

  /** The first part of the loop body: read the row's name, state and city
      and match them against the directory. */
  method MatchOfRow(snapshot: map<string, seq<Cell>>, nameCol: string, stateCol: Option<string>,
                    cityCol: Option<string>, nces: seq<NcesRow>, lookup: Lookup, i: nat)
    returns (found: Option<Match>)
    requires nameCol in snapshot && i < |snapshot[nameCol]| && lookup == LookupOf(nces)
    ensures found == RowMatch(snapshot, nameCol, stateCol, cityCol, nces, i)
    ensures found.Some? ==> found.value.record in LookupOf(nces)[NormalizeKey(CellText(snapshot[nameCol][i]))]
  {
    var schoolName := CellText(snapshot[nameCol][i]);
    var state := OptionalCell(snapshot, stateCol, i);
    var city := OptionalCell(snapshot, cityCol, i);
    var r := MatchToNces(schoolName, state, city, Some(lookup), None);
    RowMatchIs(snapshot, nameCol, stateCol, cityCol, nces, i, schoolName, state, city);
    found := r.value;
  }

  /** The loop's state after the first `n` rows: the columns and the count
      those rows leave. */
  predicate Filled(cols: map<string, seq<Cell>>, count: nat, snapshot: map<string, seq<Cell>>, height: nat,
                   ms: seq<Option<Match>>, n: nat)
  {
    Rectangular(snapshot, height) && HasNcesColumns(snapshot) && n <= |ms| == height
    && cols == Progress(snapshot, height, ms, n) && count == CountMatched(ms, n)
  }

  /** The body of the loop for row `i`: match the row as read from the
      snapshot, write the match, if any, and count it. */
  method MatchRow(result: Frame, snapshot: map<string, seq<Cell>>, height: nat, nameCol: string, stateCol: Option<string>,
                  cityCol: Option<string>, nces: seq<NcesRow>, lookup: Lookup, ghost ms: seq<Option<Match>>, i: nat,
                  count: nat)
    returns (matchedCount: nat)
    requires Filled(result.columns, count, snapshot, height, ms, i) && nameCol in snapshot && i < height
    requires lookup == LookupOf(nces) && ms == RowMatches(snapshot, height, nameCol, stateCol, cityCol, nces)
    requires result.Valid() && result.height == height
    modifies result
    ensures result.Valid() && result.height == height
    ensures Filled(result.columns, matchedCount, snapshot, height, ms, i + 1)
  {
    var found := MatchOfRow(snapshot, nameCol, stateCol, cityCol, nces, lookup, i);
    RowMatchAt(snapshot, height, nameCol, stateCol, cityCol, nces, ms, i, found);
    ghost var before := result.columns;
    if found.Some? {
      WriteMatch(result, i, found.value);
      matchedCount := count + 1;
    } else {
      matchedCount := count;
    }
    FilledNext(before, count, snapshot, height, ms, i, result.columns, matchedCount);
  }

  /** Entry `i` of the row matches is the match of row `i`. */
  lemma RowMatchAt(snapshot: map<string, seq<Cell>>, height: nat, nameCol: string, stateCol: Option<string>,
                   cityCol: Option<string>, nces: seq<NcesRow>, ms: seq<Option<Match>>, i: nat, found: Option<Match>)
    requires Rectangular(snapshot, height) && nameCol in snapshot && i < height
    requires ms == RowMatches(snapshot, height, nameCol, stateCol, cityCol, nces)
    requires found == RowMatch(snapshot, nameCol, stateCol, cityCol, nces, i)
    ensures ms[i] == found
  {
  }

  /** Writing row `i`'s match, if any, and counting it takes the loop's state
      from `i` rows to `i + 1`. */
  lemma FilledNext(cols: map<string, seq<Cell>>, count: nat, snapshot: map<string, seq<Cell>>, height: nat,
                   ms: seq<Option<Match>>, i: nat, cols': map<string, seq<Cell>>, count': nat)
    requires Filled(cols, count, snapshot, height, ms, i) && i < height
    requires cols' == if ms[i].Some? then WriteRow(cols, height, i, ms[i].value) else cols
    requires count' == count + (if ms[i].Some? then 1 else 0)
    ensures Filled(cols', count', snapshot, height, ms, i + 1)
  {
    ProgressNext(snapshot, height, ms, i);
  }

  /** The loop over the rows, reading each row as it was after the columns
      were added, writing the matched rows and counting them. */
  method FillMatches(result: Frame, nameCol: string, stateCol: Option<string>, cityCol: Option<string>,
                     nces: seq<NcesRow>, lookup: Lookup) returns (matchedCount: nat)
    requires result.Valid() && HasNcesColumns(result.columns) && nameCol in result.columns
    requires lookup == LookupOf(nces)
    modifies result
    ensures result.Valid() && result.height == old(result.height)
    ensures var ms := RowMatches(old(result.columns), old(result.height), nameCol, stateCol, cityCol, nces);
            Filled(result.columns, matchedCount, old(result.columns), old(result.height), ms, old(result.height))
  {
    var snapshot, height := result.columns, result.height;
    ghost var ms := RowMatches(snapshot, height, nameCol, stateCol, cityCol, nces);
    matchedCount := 0;
    for i := 0 to height
      invariant result.Valid() && result.height == height
      invariant Filled(result.columns, matchedCount, snapshot, height, ms, i)
    {
      matchedCount := MatchRow(result, snapshot, height, nameCol, stateCol, cityCol, nces, lookup, ms, i, matchedCount);
    }
  }

  /** `batch_match_to_nces` on a prepared directory: a copy of the frame with
      the eight match columns added, filled on the rows that matched, and the
      number of such rows. */
  method BatchMatchToNces(schools: Frame, nameCol: string, stateCol: Option<string>, cityCol: Option<string>,
                          nces: seq<NcesRow>) returns (result: Frame, matchedCount: nat)
    requires schools.Valid() && (nameCol in schools.columns || IsNcesColumn(nameCol))
    ensures fresh(result) && result.Valid() && result.height == schools.height
    ensures var snapshot := Initialized(schools.columns, schools.height);
            && nameCol in snapshot
            && var ms := RowMatches(snapshot, schools.height, nameCol, stateCol, cityCol, nces);
            && result.columns == Progress(snapshot, schools.height, ms, schools.height)
            && matchedCount == CountMatched(ms, schools.height)
  {
    var lookup := CreateNcesLookup(nces);
    result := schools.Copy();
    InitColumns(result);
    if nameCol !in schools.columns {
      var c: NcesColumn :| ColumnName(c) == nameCol;
    }
    matchedCount := FillMatches(result, nameCol, stateCol, cityCol, nces, lookup);
  }

  // ------------------------------------------------------------------
  // What the batch pass leaves in the frame.

  /** The write to column `c` touches only that column's cell of row `i`. */
  lemma PutCell(cols: map<string, seq<Cell>>, i: nat, m: Match, c: NcesColumn, f: NcesColumn, j: nat)
    requires ColumnName(c) in cols && i < |cols[ColumnName(c)]| && ColumnName(f) in cols && j < |cols[ColumnName(f)]|
    ensures Put(cols, i, m, c)[ColumnName(f)][j] == if c == f && j == i then MatchValue(m, c) else cols[ColumnName(f)][j]
  {
    if ColumnName(c) == ColumnName(f) {
      ColumnNameInjective(c, f);
    }
  }

  /** Writing a matched row to the first `k` columns of `cs` sets, in each of
      them, the cell of that row and nothing else. */
  lemma {:induction false} WritePrefixCell(cols: map<string, seq<Cell>>, height: nat, i: nat, m: Match,
                                           cs: seq<NcesColumn>, k: nat, f: NcesColumn, j: nat)
    requires Rectangular(cols, height) && HasNcesColumns(cols) && i < height && k <= |cs| && j < height
    ensures WritePrefix(cols, height, i, m, cs, k)[ColumnName(f)][j]
            == if j == i && f in cs[..k] then MatchValue(m, f) else cols[ColumnName(f)][j]
  {
    if k > 0 {
      WritePrefixCell(cols, height, i, m, cs, k - 1, f, j);
      WritePrefixStep(cols, height, i, m, cs, k, f, j);
      PrefixMember(cs, k, f);
      PickStep(WritePrefix(cols, height, i, m, cs, k)[ColumnName(f)][j],
               WritePrefix(cols, height, i, m, cs, k - 1)[ColumnName(f)][j], cols[ColumnName(f)][j],
               MatchValue(m, f), j == i, f in cs[..k - 1], f == cs[k - 1], f in cs[..k]);
    }
  }

  /** A cell is the written value once some write so far hit it, and the
      original value until then. */
  lemma PickStep(now: Cell, before: Cell, orig: Cell, v: Cell, atRow: bool, inBefore: bool, isLast: bool, inNow: bool)
    requires now == (if atRow && isLast then v else before)
    requires before == (if atRow && inBefore then v else orig)
    requires inNow <==> inBefore || isLast
    ensures now == if atRow && inNow then v else orig
  {
  }

  /** The `k`-th write sets column `cs[k - 1]` at row `i` and no other cell. */
  lemma WritePrefixStep(cols: map<string, seq<Cell>>, height: nat, i: nat, m: Match,
                        cs: seq<NcesColumn>, k: nat, f: NcesColumn, j: nat)
    requires Rectangular(cols, height) && HasNcesColumns(cols) && i < height && 0 < k <= |cs| && j < height
    ensures WritePrefix(cols, height, i, m, cs, k)[ColumnName(f)][j]
            == if j == i && f == cs[k - 1] then MatchValue(m, f) else WritePrefix(cols, height, i, m, cs, k - 1)[ColumnName(f)][j]
  {
    var before := WritePrefix(cols, height, i, m, cs, k - 1);
    assert ColumnName(cs[k - 1]) in before && ColumnName(f) in before;
    PutCell(before, i, m, cs[k - 1], f, j);
  }

  lemma PrefixMember(cs: seq<NcesColumn>, k: nat, f: NcesColumn)
    requires 0 < k <= |cs|
    ensures (f in cs[..k]) <==> (f in cs[..k - 1] || f == cs[k - 1])
  {
    assert cs[..k] == cs[..k - 1] + [cs[k - 1]];
  }

  /** Writing a matched row leaves every column that is not an added one as it was. */
  lemma WritePrefixOther(cols: map<string, seq<Cell>>, height: nat, i: nat, m: Match,
                           cs: seq<NcesColumn>, k: nat, c: string)
    requires Rectangular(cols, height) && HasNcesColumns(cols) && i < height && k <= |cs| && c in cols && !IsNcesColumn(c)
    ensures WritePrefix(cols, height, i, m, cs, k)[c] == cols[c]
  {
    var j := 0;
    while j < k
      invariant j <= k && WritePrefix(cols, height, i, m, cs, j)[c] == cols[c]
    {
      OtherPrefixStep(cols, height, i, m, cs, j + 1, c);
      j := j + 1;
    }
  }

  /** The `k`-th write leaves a column that is not an added one as it was. */
  lemma OtherPrefixStep(cols: map<string, seq<Cell>>, height: nat, i: nat, m: Match,
                        cs: seq<NcesColumn>, k: nat, c: string)
    requires Rectangular(cols, height) && HasNcesColumns(cols) && i < height && 0 < k <= |cs| && c in cols && !IsNcesColumn(c)
    requires WritePrefix(cols, height, i, m, cs, k - 1)[c] == cols[c]
    ensures WritePrefix(cols, height, i, m, cs, k)[c] == cols[c]
  {
    PrefixHas(cols, height, i, m, cs, k - 1, cs[k - 1], c);
    OtherStep(WritePrefix(cols, height, i, m, cs, k - 1), i, m, cs[k - 1], c);
  }

  /** After some of the writes the columns are the same, of the same height. */
  lemma PrefixHas(cols: map<string, seq<Cell>>, height: nat, i: nat, m: Match,
                  cs: seq<NcesColumn>, k: nat, d: NcesColumn, c: string)
    requires Rectangular(cols, height) && HasNcesColumns(cols) && i < height && k <= |cs| && c in cols
    ensures var r := WritePrefix(cols, height, i, m, cs, k);
            ColumnName(d) in r && i < |r[ColumnName(d)]| && c in r
  {
    assert ColumnName(d) in cols;
  }

  /** A write to an added column leaves every other column as it was. */
  lemma OtherStep(cols: map<string, seq<Cell>>, i: nat, m: Match, d: NcesColumn, c: string)
    requires ColumnName(d) in cols && i < |cols[ColumnName(d)]| && c in cols && !IsNcesColumn(c)
    ensures Put(cols, i, m, d)[c] == cols[c]
  {
    assert ColumnName(d) != c;
  }

  lemma WriteRowCell(cols: map<string, seq<Cell>>, height: nat, i: nat, m: Match, f: NcesColumn, j: nat)
    requires Rectangular(cols, height) && HasNcesColumns(cols) && i < height && j < height
    ensures WriteRow(cols, height, i, m)[ColumnName(f)][j] == if j == i then MatchValue(m, f) else cols[ColumnName(f)][j]
  {
    AllColumnsListed(f);
    assert AllColumns[..|AllColumns|] == AllColumns;
    WritePrefixCell(cols, height, i, m, AllColumns, |AllColumns|, f, j);
  }

  lemma WriteRowOther(cols: map<string, seq<Cell>>, height: nat, i: nat, m: Match, k: string)
    requires Rectangular(cols, height) && HasNcesColumns(cols) && i < height && k in cols && !IsNcesColumn(k)
    ensures WriteRow(cols, height, i, m)[k] == cols[k]
  {
    WritePrefixOther(cols, height, i, m, AllColumns, |AllColumns|, k);
  }

  /** After the first `n` rows, an added column holds the match's value on the
      rows that matched and is as before elsewhere. */
  lemma {:induction false} ProgressCell(cols: map<string, seq<Cell>>, height: nat, ms: seq<Option<Match>>, n: nat,
                                        f: NcesColumn, j: nat)
    requires Rectangular(cols, height) && HasNcesColumns(cols) && n <= |ms| == height && j < height
    ensures Progress(cols, height, ms, n)[ColumnName(f)][j]
            == if j < n && ms[j].Some? then MatchValue(ms[j].value, f) else cols[ColumnName(f)][j]
  {
    if n > 0 {
      ProgressCell(cols, height, ms, n - 1, f, j);
      if ms[n - 1].Some? {
        WriteRowCell(Progress(cols, height, ms, n - 1), height, n - 1, ms[n - 1].value, f, j);
      }
    }
  }

  /** Every column that is not an added one is left as it was. */
  lemma {:induction false} ProgressOther(cols: map<string, seq<Cell>>, height: nat, ms: seq<Option<Match>>, n: nat, k: string)
    requires Rectangular(cols, height) && HasNcesColumns(cols) && n <= |ms| == height
    requires k in cols && !IsNcesColumn(k)
    ensures Progress(cols, height, ms, n)[k] == cols[k]
  {
    if n > 0 {
      ProgressOther(cols, height, ms, n - 1, k);
      if ms[n - 1].Some? {
        WriteRowOther(Progress(cols, height, ms, n - 1), height, n - 1, ms[n - 1].value, k);
      }
    }
  }

  /** The added columns start out missing, the others are the frame's own. */
  lemma InitializedCells(cols: map<string, seq<Cell>>, height: nat, f: NcesColumn, j: nat, k: string)
    requires Rectangular(cols, height) && j < height
    ensures Initialized(cols, height)[ColumnName(f)][j] == Null
    ensures k in cols && !IsNcesColumn(k) ==> k in Initialized(cols, height) && Initialized(cols, height)[k] == cols[k]
    ensures Initialized(cols, height).Keys == cols.Keys + set g: NcesColumn :: ColumnName(g)
  {
    assert forall g: NcesColumn :: ColumnName(g) in Initialized(cols, height);
  }

  /** The batch pass keeps every column of its own and sets the added
      columns only on the rows that matched: there they hold the match,
      elsewhere they are missing. */
  lemma BatchCells(schools: map<string, seq<Cell>>, height: nat, ms: seq<Option<Match>>, f: NcesColumn, j: nat, k: string)
    requires Rectangular(schools, height) && |ms| == height && j < height
    ensures var result := Progress(Initialized(schools, height), height, ms, height);
            && result[ColumnName(f)][j] == (if ms[j].Some? then MatchValue(ms[j].value, f) else Null)
            && (k in schools && !IsNcesColumn(k) ==> result[k] == schools[k])
  {
    var snapshot := Initialized(schools, height);
    InitializedCells(schools, height, f, j, k);
    ProgressCell(snapshot, height, ms, height, f, j);
    if k in schools && !IsNcesColumn(k) {
      ProgressOther(snapshot, height, ms, height, k);
    }
  }

  /** The number of cells that are not missing. */
  function CountPresent(xs: seq<Cell>): (k: nat)
    ensures k <= |xs|
  {
    if xs == [] then 0 else CountPresent(xs[..|xs| - 1]) + (if xs[|xs| - 1].Null? then 0 else 1)
  }

  /** The count returned is the number of rows whose confidence cell is set. */
  lemma {:induction false} CountIsConfidenceCells(schools: map<string, seq<Cell>>, height: nat, ms: seq<Option<Match>>, n: nat)
    requires Rectangular(schools, height) && n <= |ms| == height
    ensures var result := Progress(Initialized(schools, height), height, ms, height);
            CountMatched(ms, n) == CountPresent(result[ColumnName(ConfidenceCol)][..n])
  {
    if n > 0 {
      CountIsConfidenceCells(schools, height, ms, n - 1);
      BatchCells(schools, height, ms, ConfidenceCol, n - 1, "");
      var result := Progress(Initialized(schools, height), height, ms, height);
      CountStep(result[ColumnName(ConfidenceCol)], ms, n);
    }
  }

  /** One more row: the count and the set confidence cells grow together. */
  lemma CountStep(column: seq<Cell>, ms: seq<Option<Match>>, n: nat)
    requires 0 < n <= |column| && n <= |ms|
    requires CountMatched(ms, n - 1) == CountPresent(column[..n - 1])
    requires column[n - 1] == (if ms[n - 1].Some? then MatchValue(ms[n - 1].value, ConfidenceCol) else Null)
    ensures CountMatched(ms, n) == CountPresent(column[..n])
  {
    assert column[..n][..n - 1] == column[..n - 1];
  }
}
