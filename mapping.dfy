/** Resolving duplicate school names to one canonical spelling and building the
    standardisation mapping (hs_standardization/mapping.py). A mapping frame is
    a sequence of entries; the schools frame is a sequence of rows. */
module Mapping {
  import opened Common
  import opened Text
  import opened Frames

  // ------------------------------------------------------------------
  // The canonical name of a group of duplicates.

  /** A row of the schools table: the name as written, its key from
      `normalize_hs_name`, its state and its number of players. */
  datatype School = School(original: string, normalized: string, state: string, playerCount: int)

  /** `score_name`: 100 for "High School", otherwise 50 for " HS" without
      "H.S.", and 10 off for every period. */
  function Score(name: string): int {
    (if Contains(name, "High School") then 100
     else if Contains(name, " HS") && !Contains(name, "H.S.") then 50
     else 0)
    - 10 * CountChar(name, '.')
  }

  /** `a` sorts before `b` among the top candidates: a higher score, then the
      alphabetically smaller name. */
  predicate Ahead(a: string, b: string) {
    Score(a) > Score(b) || (Score(a) == Score(b) && LexLess(a, b))
  }

  lemma AheadIrreflexive(a: string)
    ensures !Ahead(a, a)
  {
    LexLessIrreflexive(a);
  }

  lemma AheadTransitive(a: string, b: string, c: string)
    requires Ahead(a, b) && Ahead(b, c)
    ensures Ahead(a, c)
  {
    if Score(a) == Score(b) && Score(b) == Score(c) {
      LexLessTransitive(a, b, c);
    }
  }

  /** Two different names are always ordered one way or the other. */
  lemma AheadTotal(a: string, b: string)
    ensures a == b || Ahead(a, b) || Ahead(b, a)
  {
    LexLessTotal(a, b);
  }

  /** The largest player count in a non-empty group. */
  function MaxCount(g: seq<School>): (m: int)
    requires |g| > 0
    ensures exists i :: 0 <= i < |g| && g[i].playerCount == m
    ensures forall i :: 0 <= i < |g| ==> g[i].playerCount <= m
  {
    if |g| == 1 then g[0].playerCount
    else
      var m := MaxCount(g[1..]);
      if g[0].playerCount > m then g[0].playerCount else m
  }

  /** The rows whose player count is `m`, in their order. */
  function Top(g: seq<School>, m: int): (t: seq<School>)
    ensures forall x :: x in t <==> x in g && x.playerCount == m
  {
    if g == [] then []
    else (if g[0].playerCount == m then [g[0]] else []) + Top(g[1..], m)
  }

  /** If no row of `s` is ahead of `b` and `y` is ahead of `b`, no row is ahead of `y`. */
  lemma NoneAhead(s: seq<School>, b: School, y: School)
    requires forall x :: x in s ==> !Ahead(x.original, b.original)
    requires Ahead(y.original, b.original)
    ensures forall x :: x in s ==> !Ahead(x.original, y.original)
  {
    forall x | x in s ensures !Ahead(x.original, y.original) {
      if Ahead(x.original, y.original) {
        AheadTransitive(x.original, y.original, b.original);
      }
    }
  }

  /** The first row of `c` in the order (score descending, name ascending). */
  function BestOf(c: seq<School>): (b: School)
    requires |c| > 0
    ensures b in c
    ensures forall x :: x in c ==> !Ahead(x.original, b.original)
  {
    if |c| == 1 then AheadIrreflexive(c[0].original); c[0]
    else
      var b := BestOf(c[1..]);
      assert c == [c[0]] + c[1..];
      if Ahead(c[0].original, b.original) then
        NoneAhead(c[1..], b, c[0]);
        AheadIrreflexive(c[0].original);
        c[0]
      else b
  }

  /** `select_canonical_name`: a row of the group with the largest player
      count, and among those rows the first by score and then by name. */
  function SelectCanonical(g: seq<School>): (c: School)
    requires |g| > 0
    ensures c in g
    ensures forall x :: x in g ==> x.playerCount <= c.playerCount
    ensures forall x :: x in g && x.playerCount == c.playerCount ==> !Ahead(x.original, c.original)
  {
    var m := MaxCount(g);
    var top := Top(g, m);
    TopNonEmpty(g, m);
    var c := if |top| == 1 then SingleBest(top); top[0] else BestOf(top);
    CanonicalOfTop(g, m, c);
    c
  }

  /** Some row has the largest count. */
  lemma TopNonEmpty(g: seq<School>, m: int)
    requires |g| > 0 && m == MaxCount(g)
    ensures |Top(g, m)| > 0
  {
    var i :| 0 <= i < |g| && g[i].playerCount == m;
    assert g[i] in Top(g, m);
  }

  /** In a one-row list no row is ahead of that row. */
  lemma SingleBest(top: seq<School>)
    requires |top| == 1
    ensures forall x :: x in top ==> !Ahead(x.original, top[0].original)
  {
    AheadIrreflexive(top[0].original);
  }

  /** A row of the largest count that no row of that count is ahead of has
      the properties `select_canonical_name` promises. */
  lemma CanonicalOfTop(g: seq<School>, m: int, c: School)
    requires |g| > 0 && m == MaxCount(g)
    requires c in Top(g, m) && forall x :: x in Top(g, m) ==> !Ahead(x.original, c.original)
    ensures c in g
    ensures forall x :: x in g ==> x.playerCount <= c.playerCount
    ensures forall x :: x in g && x.playerCount == c.playerCount ==> !Ahead(x.original, c.original)
  {
  }

  /** With one row strictly ahead in player count, that row is chosen and the
      scores play no part. */
  lemma UniqueMaximumWins(g: seq<School>, i: nat)
    requires i < |g|
    requires forall j :: 0 <= j < |g| && j != i ==> g[j].playerCount < g[i].playerCount
    ensures SelectCanonical(g) == g[i]
  {
    var c := SelectCanonical(g);
    var j :| 0 <= j < |g| && g[j] == c;
    assert j == i;
  }

  /** The chosen name and count do not depend on the order of the rows. */
  lemma CanonicalIgnoresOrder(g: seq<School>, h: seq<School>)
    requires |g| > 0 && multiset(g) == multiset(h)
    ensures SelectCanonical(g).original == SelectCanonical(h).original
    ensures SelectCanonical(g).playerCount == SelectCanonical(h).playerCount
  {
    var c, d := SelectCanonical(g), SelectCanonical(h);
    assert c in multiset(h) && d in multiset(g);
    AheadTotal(c.original, d.original);
  }

  lemma ScoreHighSchool(n: string)
    requires n == "Central High School"
    ensures Score(n) == 100
  {
    HasHighSchool(n);
    NoPeriod(n);
  }

  lemma HasHighSchool(n: string)
    requires n == "Central High School"
    ensures Contains(n, "High School")
  {
    assert OccursAt(n, "High School", 8);
  }

  lemma NoPeriod(n: string)
    requires n == "Central High School"
    ensures CountChar(n, '.') == 0
  {
    assert forall i | 0 <= i < |n| :: n[i] != '.';
  }

  lemma ScoreSpacedHs(n: string)
    requires n == "Central HS"
    ensures Score(n) == 50
  {
    assert OccursAt(n, " HS", 7);
    MissingCharNotContained(n, "High School", 1);
    MissingCharNotContained(n, "H.S.", 1);
  }

  /** The docstring's group: 15 players is the unique maximum. */
  lemma DocstringCanonical()
    ensures SelectCanonical([School("Central HS", "CENTRAL", "", 10),
                             School("Central High School", "CENTRAL", "", 15),
                             School("Central H.S.", "CENTRAL", "", 5)]).original
            == "Central High School"
  {
    UniqueMaximumWins([School("Central HS", "CENTRAL", "", 10),
                       School("Central High School", "CENTRAL", "", 15),
                       School("Central H.S.", "CENTRAL", "", 5)], 1);
  }

  /** On a tie in player count, "High School" (100) beats " HS" (50). */
  lemma TieGoesToHighSchool()
    ensures SelectCanonical([School("Central HS", "CENTRAL", "", 10),
                             School("Central High School", "CENTRAL", "", 10)]).original
            == "Central High School"
  {
    TieGroup([School("Central HS", "CENTRAL", "", 10), School("Central High School", "CENTRAL", "", 10)]);
  }

  lemma TieGroup(g: seq<School>)
    requires g == [School("Central HS", "CENTRAL", "", 10), School("Central High School", "CENTRAL", "", 10)]
    ensures SelectCanonical(g).original == "Central High School"
  {
    ScoreHighSchool(g[1].original);
    ScoreSpacedHs(g[0].original);
    HigherScoreWins(g);
  }

  /** Of two rows with the same count, the one with the higher score is chosen. */
  lemma HigherScoreWins(g: seq<School>)
    requires |g| == 2 && g[0].playerCount == g[1].playerCount
    requires Score(g[1].original) > Score(g[0].original)
    ensures SelectCanonical(g) == g[1]
  {
    var c := SelectCanonical(g);
    InPair(g, c);
    assert g[1] in g;
    assert !Ahead(g[1].original, c.original);
  }

  lemma InPair(g: seq<School>, c: School)
    requires |g| == 2 && c in g
    ensures c == g[0] || c == g[1]
  {
    assert g == [g[0]] + [g[1]];
  }

  // ------------------------------------------------------------------
  // Groups of rows with the same key.

  /** The key `groupby` groups on: the normalised name, and the state when
      grouping by state. */
  datatype GroupKey = GroupKey(name: string, state: string)

  function KeyOf(s: School, byState: bool): GroupKey {
    GroupKey(s.normalized, if byState then s.state else "")
  }

  /** Python's order on the key: by name, then by state. */
  predicate KeyLess(a: GroupKey, b: GroupKey) {
    LexLess(a.name, b.name) || (a.name == b.name && LexLess(a.state, b.state))
  }

  lemma KeyLessIrreflexive(a: GroupKey)
    ensures !KeyLess(a, a)
  {
    LexLessIrreflexive(a.name);
    LexLessIrreflexive(a.state);
  }

  lemma KeyLessTransitive(a: GroupKey, b: GroupKey, c: GroupKey)
    requires KeyLess(a, b) && KeyLess(b, c)
    ensures KeyLess(a, c)
  {
    if LexLess(a.name, b.name) && LexLess(b.name, c.name) {
      LexLessTransitive(a.name, b.name, c.name);
    } else if a.name == b.name && b.name == c.name {
      LexLessTransitive(a.state, b.state, c.state);
    }
  }

  lemma KeyLessTotal(a: GroupKey, b: GroupKey)
    ensures a == b || KeyLess(a, b) || KeyLess(b, a)
  {
    LexLessTotal(a.name, b.name);
    LexLessTotal(a.state, b.state);
  }

  predicate StrictlySorted(ks: seq<GroupKey>) {
    forall i, j :: 0 <= i < j < |ks| ==> KeyLess(ks[i], ks[j])
  }

  /** Inserts a key into a strictly sorted list of keys, unless it is there. */
  function InsertKey(ks: seq<GroupKey>, k: GroupKey): (r: seq<GroupKey>)
    ensures forall x :: x in r <==> x in ks || x == k
  {
    if ks == [] then [k]
    else if ks[0] == k then ks
    else if KeyLess(k, ks[0]) then [k] + ks
    else [ks[0]] + InsertKey(ks[1..], k)
  }

  lemma {:induction false} InsertKeySorted(ks: seq<GroupKey>, k: GroupKey)
    requires StrictlySorted(ks)
    ensures StrictlySorted(InsertKey(ks, k))
    decreases |ks|
  {
    if ks == [] || ks[0] == k {
    } else if KeyLess(k, ks[0]) {
      var r := [k] + ks;
      forall i, j | 0 <= i < j < |r| ensures KeyLess(r[i], r[j]) {
        if i == 0 && j > 1 {
          KeyLessTransitive(k, ks[0], ks[j - 1]);
        }
      }
    } else {
      KeyLessTotal(k, ks[0]);
      InsertKeySorted(ks[1..], k);
      var t := InsertKey(ks[1..], k);
      var r := [ks[0]] + t;
      forall j | 0 <= j < |t| ensures KeyLess(ks[0], t[j]) {
        assert t[j] in t;
      }
      forall i, j | 0 <= i < j < |r| ensures KeyLess(r[i], r[j]) {
        if i > 0 {
          assert r[i] == t[i - 1] && r[j] == t[j - 1];
        }
      }
    }
  }

  /** The distinct keys of the rows, in the sorted order `groupby` visits them. */
  function GroupKeys(rows: seq<School>, byState: bool): (ks: seq<GroupKey>)
    ensures forall k :: k in ks <==> exists s :: s in rows && KeyOf(s, byState) == k
  {
    if rows == [] then []
    else
      var ks := InsertKey(GroupKeys(rows[1..], byState), KeyOf(rows[0], byState));
      assert rows == [rows[0]] + rows[1..];
      ks
  }

  lemma {:induction false} GroupKeysSorted(rows: seq<School>, byState: bool)
    ensures StrictlySorted(GroupKeys(rows, byState))
    decreases |rows|
  {
    if rows != [] {
      GroupKeysSorted(rows[1..], byState);
      InsertKeySorted(GroupKeys(rows[1..], byState), KeyOf(rows[0], byState));
    }
  }

  /** The rows of one group, in their order in the table. */
  function Group(rows: seq<School>, k: GroupKey, byState: bool): (g: seq<School>)
    ensures forall x :: x in g <==> x in rows && KeyOf(x, byState) == k
  {
    if rows == [] then []
    else (if KeyOf(rows[0], byState) == k then [rows[0]] else []) + Group(rows[1..], k, byState)
  }

  // ------------------------------------------------------------------
  // The duplicate mapping.

  /** One row of a mapping frame. The city and notes columns come only from the
      curated table and the player counts only from the duplicate mapping; after
      concatenation the missing ones are empty. */
  datatype Entry = Entry(original: string, standardized: string, state: string, city: Option<string>,
                         confidence: string, source: string, notes: Option<string>,
                         playerCount: Option<int>, canonicalPlayerCount: Option<int>)

  /** The schools table and whether it has a `state` and a `player_count` column. */
  datatype Schools = Schools(rows: seq<School>, hasState: bool, hasCount: bool)

  /** `row.get('state', '')`. */
  function RowState(s: School, hasState: bool): string {
    if hasState then s.state else ""
  }

  /** `row.get('player_count', 1)`. */
  function RowCount(s: School, hasCount: bool): int {
    if hasCount then s.playerCount else 1
  }

  /** The entry for the only row of its group. */
  function SingleEntry(s: School, hasState: bool, hasCount: bool): Entry {
    Entry(s.original, s.original, RowState(s, hasState), None, "high_auto", "no_variation", None,
          Some(RowCount(s, hasCount)), Some(RowCount(s, hasCount)))
  }

  /** The entry for a row of a group of several, given the group's canonical row
      and the state from the group key ("" when not grouping by state). */
  function DuplicateEntry(s: School, canonical: School, keyState: string, hasState: bool, hasCount: bool): Entry {
    Entry(s.original, canonical.original, if keyState != "" then keyState else RowState(s, hasState),
          None, "high_auto", "duplicate_resolution", None,
          Some(RowCount(s, hasCount)), Some(RowCount(canonical, hasCount)))
  }

  /** The entries of one group, as the loop body appends them. */
  function GroupEntries(group: seq<School>, keyState: string, hasState: bool, hasCount: bool): seq<Entry> {
    if |group| == 0 then []
    else if |group| == 1 then [SingleEntry(group[0], hasState, hasCount)]
    else
      Variations(group, SelectCanonical(group), keyState, hasState, hasCount)
  }

  /** The entries of the rows `xs` of a group with canonical row `c`. */
  function Variations(xs: seq<School>, c: School, keyState: string, hasState: bool, hasCount: bool): (r: seq<Entry>)
    ensures |r| == |xs|
    decreases |xs|
  {
    if xs == [] then []
    else Variations(xs[..|xs| - 1], c, keyState, hasState, hasCount) + [DuplicateEntry(xs[|xs| - 1], c, keyState, hasState, hasCount)]
  }

  /** The entries of the groups with keys `ks`, in that order. */
  function EntriesFor(t: Schools, byState: bool, ks: seq<GroupKey>): seq<Entry>
    decreases |ks|
  {
    if ks == [] then []
    else
      var k := ks[|ks| - 1];
      EntriesFor(t, byState, ks[..|ks| - 1])
        + GroupEntries(Group(t.rows, k, byState), if byState then k.state else "", t.hasState, t.hasCount)
  }

  /** Whether the key holds the state: `group_by_state` and a `state` column. */
  function ByState(t: Schools, groupByState: bool): bool {
    groupByState && t.hasState
  }

  /** What `create_duplicate_mapping` returns. */
  function DuplicateMapping(t: Schools, groupByState: bool): seq<Entry> {
    var byState := ByState(t, groupByState);
    EntriesFor(t, byState, GroupKeys(t.rows, byState))
  }

  lemma EntriesForStep(t: Schools, byState: bool, keys: seq<GroupKey>, g: nat)
    requires g < |keys|
    ensures EntriesFor(t, byState, keys[..g + 1])
            == EntriesFor(t, byState, keys[..g])
               + GroupEntries(Group(t.rows, keys[g], byState), if byState then keys[g].state else "", t.hasState, t.hasCount)
  {
    assert keys[..g + 1][..g] == keys[..g];
  }

  /** The inner loop: one entry per row of a group of several. */
  method AppendVariations(mapping: seq<Entry>, group: seq<School>, c: School, keyState: string, hasState: bool, hasCount: bool)
    returns (r: seq<Entry>)
    ensures r == mapping + Variations(group, c, keyState, hasState, hasCount)
  {
    r := mapping;
    for j := 0 to |group|
      invariant r == mapping + Variations(group[..j], c, keyState, hasState, hasCount)
    {
      assert group[..j + 1][..j] == group[..j];
      r := r + [DuplicateEntry(group[j], c, keyState, hasState, hasCount)];
    }
    assert group[..|group|] == group;
  }

  /** Some group has several rows but the table has no `player_count`
      column: `select_canonical_name` cannot sort the group. */
  predicate CountMissing(t: Schools, groupByState: bool) {
    var byState := ByState(t, groupByState);
    !t.hasCount && exists s :: s in t.rows && |Group(t.rows, KeyOf(s, byState), byState)| > 1
  }

  /** `create_duplicate_mapping`: one pass over the groups in key order,
      appending one entry per row. The first group of several rows in a table
      without a `player_count` column raises `KeyError`. */
  method CreateDuplicateMapping(t: Schools, groupByState: bool) returns (r: Result<seq<Entry>>)
    ensures r.Err? <==> CountMissing(t, groupByState)
    ensures r.Err? ==> r.error == KeyError
    ensures r.Ok? ==> r.value == DuplicateMapping(t, groupByState)
  {
    var byState := ByState(t, groupByState);
    var keys := GroupKeys(t.rows, byState);
    var mapping := [];
    for g := 0 to |keys|
      invariant mapping == EntriesFor(t, byState, keys[..g])
      invariant !t.hasCount ==> SingleGroups(t.rows, keys, byState, g)
    {
      EntriesForStep(t, byState, keys, g);
      var group := Group(t.rows, keys[g], byState);
      var keyState := if byState then keys[g].state else "";
      if |group| > 1 && !t.hasCount {
        CountMissingAt(t, groupByState, keys[g]);
        return Err(KeyError);
      }
      if |group| == 1 {
        mapping := mapping + [SingleEntry(group[0], t.hasState, t.hasCount)];
      } else if |group| > 1 {
        var canonical := SelectCanonical(group);
        mapping := AppendVariations(mapping, group, canonical, keyState, t.hasState, t.hasCount);
      }
      if !t.hasCount {
        SingleGroupsStep(t.rows, keys, byState, g);
      }
    }
    assert keys[..|keys|] == keys;
    CountPresent(t, groupByState, keys);
    r := Ok(mapping);
  }

  /** The groups of the first `g` keys have at most one row each. */
  predicate SingleGroups(rows: seq<School>, keys: seq<GroupKey>, byState: bool, g: nat)
    requires g <= |keys|
  {
    forall h :: 0 <= h < g ==> |Group(rows, keys[h], byState)| <= 1
  }

  lemma SingleGroupsStep(rows: seq<School>, keys: seq<GroupKey>, byState: bool, g: nat)
    requires g < |keys| && SingleGroups(rows, keys, byState, g) && |Group(rows, keys[g], byState)| <= 1
    ensures SingleGroups(rows, keys, byState, g + 1)
  {
  }

  /** A group of several rows under a key of the table, without a count column. */
  lemma CountMissingAt(t: Schools, groupByState: bool, k: GroupKey)
    requires !t.hasCount && |Group(t.rows, k, ByState(t, groupByState))| > 1
    ensures CountMissing(t, groupByState)
  {
    var byState := ByState(t, groupByState);
    var group := Group(t.rows, k, byState);
    assert group[0] in group;
  }

  /** When every group in key order has at most one row, no row has duplicates. */
  lemma CountPresent(t: Schools, groupByState: bool, keys: seq<GroupKey>)
    requires keys == GroupKeys(t.rows, ByState(t, groupByState))
    requires !t.hasCount ==> SingleGroups(t.rows, keys, ByState(t, groupByState), |keys|)
    ensures !CountMissing(t, groupByState)
  {
    var byState := ByState(t, groupByState);
    forall s | s in t.rows ensures !t.hasCount ==> |Group(t.rows, KeyOf(s, byState), byState)| <= 1 {
      assert KeyOf(s, byState) in keys;
      var h :| 0 <= h < |keys| && keys[h] == KeyOf(s, byState);
    }
  }

  // ------------------------------------------------------------------
  // What the duplicate mapping says about each row.

  /** The entry the mapping holds for row `s`: it depends only on the group of `s`. */
  function EntryFor(t: Schools, byState: bool, s: School): Entry {
    var group := Group(t.rows, KeyOf(s, byState), byState);
    if |group| <= 1 then SingleEntry(s, t.hasState, t.hasCount)
    else DuplicateEntry(s, SelectCanonical(group), if byState then s.state else "", t.hasState, t.hasCount)
  }

  /** The entries for a list of rows, one each, in order. */
  function EntriesOf(t: Schools, byState: bool, xs: seq<School>): (r: seq<Entry>)
    ensures |r| == |xs|
    ensures forall i :: 0 <= i < |xs| ==> r[i] == EntryFor(t, byState, xs[i])
  {
    seq(|xs|, i requires 0 <= i < |xs| => EntryFor(t, byState, xs[i]))
  }

  /** Row `i` of the variations is the entry of row `i` of the group. */
  lemma {:induction false} VariationsAt(xs: seq<School>, c: School, keyState: string, hasState: bool, hasCount: bool, i: nat)
    requires i < |xs|
    ensures Variations(xs, c, keyState, hasState, hasCount)[i] == DuplicateEntry(xs[i], c, keyState, hasState, hasCount)
    decreases |xs|
  {
    if i < |xs| - 1 {
      VariationsAt(xs[..|xs| - 1], c, keyState, hasState, hasCount, i);
    }
  }

  lemma EntryForMember(t: Schools, byState: bool, k: GroupKey, x: School)
    requires KeyOf(x, byState) == k && |Group(t.rows, k, byState)| > 1
    ensures EntryFor(t, byState, x)
            == DuplicateEntry(x, SelectCanonical(Group(t.rows, k, byState)), if byState then k.state else "", t.hasState, t.hasCount)
  {
  }

  lemma EntriesOfSnoc(t: Schools, byState: bool, xs: seq<School>, x: School)
    ensures EntriesOf(t, byState, xs + [x]) == EntriesOf(t, byState, xs) + [EntryFor(t, byState, x)]
  {
  }

  /** What the loop appends for a group is the entry of each of its rows. */
  lemma GroupEntriesAreEntries(t: Schools, byState: bool, k: GroupKey)
    ensures GroupEntries(Group(t.rows, k, byState), if byState then k.state else "", t.hasState, t.hasCount)
            == EntriesOf(t, byState, Group(t.rows, k, byState))
  {
    var group := Group(t.rows, k, byState);
    if |group| > 1 {
      SeveralEntries(t, byState, k, group);
    } else if |group| == 1 {
      SingleGroupEntry(t, byState, k, group);
    }
  }

  lemma SingleGroupEntry(t: Schools, byState: bool, k: GroupKey, group: seq<School>)
    requires group == Group(t.rows, k, byState) && |group| == 1
    ensures [SingleEntry(group[0], t.hasState, t.hasCount)] == EntriesOf(t, byState, group)
  {
    assert group[0] in group;
    assert EntryFor(t, byState, group[0]) == SingleEntry(group[0], t.hasState, t.hasCount);
  }

  lemma SeveralEntries(t: Schools, byState: bool, k: GroupKey, group: seq<School>)
    requires group == Group(t.rows, k, byState) && |group| > 1
    ensures Variations(group, SelectCanonical(group), if byState then k.state else "", t.hasState, t.hasCount)
            == EntriesOf(t, byState, group)
  {
    var c, keyState := SelectCanonical(group), if byState then k.state else "";
    forall x | x in group ensures EntryFor(t, byState, x) == DuplicateEntry(x, c, keyState, t.hasState, t.hasCount) {
      EntryForMember(t, byState, k, x);
    }
    VariationsAreEntries(t, byState, group, c, keyState);
  }

  /** When every row's entry is its duplicate entry for `c`, the variations
      are the rows' entries. */
  lemma VariationsAreEntries(t: Schools, byState: bool, xs: seq<School>, c: School, keyState: string)
    requires forall x | x in xs :: EntryFor(t, byState, x) == DuplicateEntry(x, c, keyState, t.hasState, t.hasCount)
    ensures Variations(xs, c, keyState, t.hasState, t.hasCount) == EntriesOf(t, byState, xs)
  {
    var vs := Variations(xs, c, keyState, t.hasState, t.hasCount);
    forall i | 0 <= i < |xs| ensures vs[i] == EntryFor(t, byState, xs[i]) {
      assert xs[i] in xs;
      VariationsAt(xs, c, keyState, t.hasState, t.hasCount, i);
    }
    SameEntries(vs, EntriesOf(t, byState, xs));
  }

  lemma SameEntries(a: seq<Entry>, b: seq<Entry>)
    requires |a| == |b| && forall i | 0 <= i < |a| :: a[i] == b[i]
    ensures a == b
  {
  }

  /** The rows of `xs` whose key is in `ks`, in order. */
  function Restrict(xs: seq<School>, ks: seq<GroupKey>, byState: bool): seq<School> {
    if xs == [] then []
    else (if KeyOf(xs[0], byState) in ks then [xs[0]] else []) + Restrict(xs[1..], ks, byState)
  }

  /** Adding a new key to `ks` adds exactly that key's group. */
  lemma {:induction false} RestrictSplit(t: Schools, byState: bool, xs: seq<School>, ks: seq<GroupKey>, k: GroupKey)
    requires k !in ks
    ensures multiset(EntriesOf(t, byState, Restrict(xs, ks + [k], byState)))
            == multiset(EntriesOf(t, byState, Restrict(xs, ks, byState)))
               + multiset(EntriesOf(t, byState, Group(xs, k, byState)))
    decreases |xs|
  {
    if xs != [] {
      RestrictSplit(t, byState, xs[1..], ks, k);
      var x := xs[0];
      var key := KeyOf(x, byState);
      var a := Restrict(xs[1..], ks + [k], byState);
      var b := Restrict(xs[1..], ks, byState);
      var g := Group(xs[1..], k, byState);
      RestrictCons(xs, ks + [k], byState, a);
      RestrictCons(xs, ks, byState, b);
      GroupCons(xs, k, byState, g);
      EntriesOfCons(t, byState, x, a);
      EntriesOfCons(t, byState, x, b);
      EntriesOfCons(t, byState, x, g);
      var e := EntryFor(t, byState, x);
      var ea, eb, eg := EntriesOf(t, byState, a), EntriesOf(t, byState, b), EntriesOf(t, byState, g);
      if key == k {
        assert key in ks + [k] && key !in ks;
        ConsBoth(e, ea, eb, eg);
      } else if key in ks {
        assert key in ks + [k];
        ConsFirst(e, ea, eb, eg);
      } else {
        assert key !in ks + [k];
      }
    }
  }

  /** `Restrict` on a non-empty list: the first row if its key is kept, then the rest. */
  lemma RestrictCons(xs: seq<School>, ks: seq<GroupKey>, byState: bool, rest: seq<School>)
    requires xs != [] && rest == Restrict(xs[1..], ks, byState)
    ensures KeyOf(xs[0], byState) in ks ==> Restrict(xs, ks, byState) == [xs[0]] + rest
    ensures KeyOf(xs[0], byState) !in ks ==> Restrict(xs, ks, byState) == rest
  {
  }

  /** `Group` on a non-empty list: the first row if it has the key, then the rest. */
  lemma GroupCons(xs: seq<School>, k: GroupKey, byState: bool, rest: seq<School>)
    requires xs != [] && rest == Group(xs[1..], k, byState)
    ensures KeyOf(xs[0], byState) == k ==> Group(xs, k, byState) == [xs[0]] + rest
    ensures KeyOf(xs[0], byState) != k ==> Group(xs, k, byState) == rest
  {
  }

  lemma ConsBoth(e: Entry, ea: seq<Entry>, eb: seq<Entry>, eg: seq<Entry>)
    requires multiset(ea) == multiset(eb) + multiset(eg)
    ensures multiset([e] + ea) == multiset(eb) + multiset([e] + eg)
  {
  }

  lemma ConsFirst(e: Entry, ea: seq<Entry>, eb: seq<Entry>, eg: seq<Entry>)
    requires multiset(ea) == multiset(eb) + multiset(eg)
    ensures multiset([e] + ea) == multiset([e] + eb) + multiset(eg)
  {
  }

  lemma EntriesOfCons(t: Schools, byState: bool, x: School, xs: seq<School>)
    ensures EntriesOf(t, byState, [x] + xs) == [EntryFor(t, byState, x)] + EntriesOf(t, byState, xs)
  {
  }

  lemma {:induction false} EntriesForRestrict(t: Schools, byState: bool, ks: seq<GroupKey>)
    requires StrictlySorted(ks)
    ensures multiset(EntriesFor(t, byState, ks)) == multiset(EntriesOf(t, byState, Restrict(t.rows, ks, byState)))
    decreases |ks|
  {
    if ks == [] {
      RestrictNone(t.rows, byState);
    } else {
      LastNotInFront(ks);
      EntriesForRestrict(t, byState, ks[..|ks| - 1]);
      RestrictLast(t, byState, ks, ks[..|ks| - 1], ks[|ks| - 1]);
    }
  }

  /** One more key, not among the others, keeps the entries of the keys and
      those of the rows they restrict to equal as multisets. */
  lemma RestrictLast(t: Schools, byState: bool, ks: seq<GroupKey>, front: seq<GroupKey>, k: GroupKey)
    requires ks != [] && front == ks[..|ks| - 1] && k == ks[|ks| - 1] && k !in front
    requires multiset(EntriesFor(t, byState, front)) == multiset(EntriesOf(t, byState, Restrict(t.rows, front, byState)))
    ensures multiset(EntriesFor(t, byState, ks)) == multiset(EntriesOf(t, byState, Restrict(t.rows, ks, byState)))
  {
    LastSplit(ks, front, k);
    EntriesForLast(t, byState, ks);
    RestrictSplit(t, byState, t.rows, front, k);
    JoinCounts(EntriesFor(t, byState, ks), EntriesFor(t, byState, front), EntriesOf(t, byState, Group(t.rows, k, byState)),
               EntriesOf(t, byState, Restrict(t.rows, front, byState)), EntriesOf(t, byState, Restrict(t.rows, ks, byState)));
  }

  lemma LastSplit(ks: seq<GroupKey>, front: seq<GroupKey>, k: GroupKey)
    requires ks != [] && front == ks[..|ks| - 1] && k == ks[|ks| - 1]
    ensures front + [k] == ks
  {
  }

  /** Entries that are those of the other keys followed by a group's, where the
      other keys' entries count as the rows they restrict to, count as the rows
      restricted to all the keys. */
  lemma JoinCounts(all: seq<Entry>, others: seq<Entry>, group: seq<Entry>, restricted: seq<Entry>, joined: seq<Entry>)
    requires all == others + group && multiset(others) == multiset(restricted)
    requires multiset(joined) == multiset(restricted) + multiset(group)
    ensures multiset(all) == multiset(joined)
  {
  }

  /** The entries of the keys `ks` are those of all but the last key followed
      by the entries of the last key's rows. */
  lemma EntriesForLast(t: Schools, byState: bool, ks: seq<GroupKey>)
    requires ks != []
    ensures EntriesFor(t, byState, ks)
            == EntriesFor(t, byState, ks[..|ks| - 1]) + EntriesOf(t, byState, Group(t.rows, ks[|ks| - 1], byState))
  {
    GroupEntriesAreEntries(t, byState, ks[|ks| - 1]);
  }

  /** The last key of a strictly sorted list is not among the others, which are sorted too. */
  lemma LastNotInFront(ks: seq<GroupKey>)
    requires StrictlySorted(ks) && ks != []
    ensures ks[|ks| - 1] !in ks[..|ks| - 1]
    ensures StrictlySorted(ks[..|ks| - 1])
  {
    var k := ks[|ks| - 1];
    if k in ks[..|ks| - 1] {
      var i :| 0 <= i < |ks| - 1 && ks[i] == k;
      KeyLessIrreflexive(k);
    }
  }

  lemma {:induction false} RestrictNone(xs: seq<School>, byState: bool)
    ensures Restrict(xs, [], byState) == []
    decreases |xs|
  {
    if xs != [] { RestrictNone(xs[1..], byState); }
  }

  lemma {:induction false} RestrictAll(xs: seq<School>, ks: seq<GroupKey>, byState: bool)
    requires forall x :: x in xs ==> KeyOf(x, byState) in ks
    ensures Restrict(xs, ks, byState) == xs
    decreases |xs|
  {
    if xs != [] {
      assert forall x :: x in xs[1..] ==> x in xs;
      RestrictAll(xs[1..], ks, byState);
      assert xs == [xs[0]] + xs[1..];
    }
  }

  /** The duplicate mapping holds, in some order, exactly one entry per row of
      the table: the entry `EntryFor` gives that row. */
  lemma DuplicateMappingPerRow(t: Schools, groupByState: bool)
    ensures multiset(DuplicateMapping(t, groupByState))
            == multiset(EntriesOf(t, ByState(t, groupByState), t.rows))
  {
    var byState := ByState(t, groupByState);
    var keys := GroupKeys(t.rows, byState);
    GroupKeysSorted(t.rows, byState);
    EntriesForRestrict(t, byState, keys);
    RestrictAll(t.rows, keys, byState);
  }

  /** One entry per row. */
  lemma DuplicateMappingSize(t: Schools, groupByState: bool)
    ensures |DuplicateMapping(t, groupByState)| == |t.rows|
  {
    DuplicateMappingPerRow(t, groupByState);
    assert |multiset(DuplicateMapping(t, groupByState))| == |DuplicateMapping(t, groupByState)|;
  }

  /** Every entry of the mapping is the entry of some row. */
  lemma DuplicateMappingEntries(t: Schools, groupByState: bool, e: Entry)
    requires e in DuplicateMapping(t, groupByState)
    ensures exists s :: s in t.rows && e == EntryFor(t, ByState(t, groupByState), s)
  {
    DuplicateMappingPerRow(t, groupByState);
    assert e in multiset(EntriesOf(t, ByState(t, groupByState), t.rows));
    var i :| 0 <= i < |t.rows| && EntriesOf(t, ByState(t, groupByState), t.rows)[i] == e;
    assert t.rows[i] in t.rows;
  }

  /** A row's entry keeps its name, its player count and its own state (""
      without a state column), is `high_auto`, and is `no_variation` exactly
      when its group has one row, `duplicate_resolution` otherwise. */
  lemma EntryForFields(t: Schools, groupByState: bool, s: School)
    ensures var byState := ByState(t, groupByState);
            var e := EntryFor(t, byState, s);
            var n := |Group(t.rows, KeyOf(s, byState), byState)|;
            && e.original == s.original
            && e.state == RowState(s, t.hasState)
            && e.confidence == "high_auto"
            && e.playerCount == Some(RowCount(s, t.hasCount))
            && e.source == (if n <= 1 then "no_variation" else "duplicate_resolution")
  {
  }

  /** Without a `player_count` column every entry counts 1 player, for the
      row and for its canonical name. */
  lemma CountDefaultsToOne(t: Schools, groupByState: bool, e: Entry)
    requires !t.hasCount && e in DuplicateMapping(t, groupByState)
    ensures e.playerCount == Some(1) && e.canonicalPlayerCount == Some(1)
  {
    DuplicateMappingEntries(t, groupByState, e);
  }

  /** The docstring's table without its `player_count` column: both rows form
      one group, so the duplicate mapping raises `KeyError`. */
  lemma DocstringWithoutCount()
    ensures CountMissing(Schools(DocstringSchools().rows, true, false), true)
  {
    var t := Schools(DocstringSchools().rows, true, false);
    DocstringKeys(t.rows);
    DocstringWholeGroup(t.rows);
    assert t.rows[0] in t.rows;
  }

  /** A row's standardised name and canonical count are those of a row of its group. */
  lemma EntryForCanonical(t: Schools, byState: bool, s: School)
    requires s in t.rows
    ensures var e := EntryFor(t, byState, s);
            exists x :: x in Group(t.rows, KeyOf(s, byState), byState)
                        && e.standardized == x.original && e.canonicalPlayerCount == Some(RowCount(x, t.hasCount))
  {
    var group := Group(t.rows, KeyOf(s, byState), byState);
    var e := EntryFor(t, byState, s);
    assert s in group;
    if |group| > 1 {
      var c := SelectCanonical(group);
      assert c in group && e.standardized == c.original && e.canonicalPlayerCount == Some(RowCount(c, t.hasCount));
    } else {
      assert e.standardized == s.original && e.canonicalPlayerCount == Some(RowCount(s, t.hasCount));
    }
  }

  /** Rows with the same key get the same standardised name, the name of the
      group's canonical row when the group has several rows. */
  lemma SameKeySameName(t: Schools, byState: bool, s1: School, s2: School)
    requires s1 in t.rows && s2 in t.rows && KeyOf(s1, byState) == KeyOf(s2, byState)
    ensures EntryFor(t, byState, s1).standardized == EntryFor(t, byState, s2).standardized
  {
    var group := Group(t.rows, KeyOf(s1, byState), byState);
    if s1 != s2 {
      assert s1 in group && s2 in group;
      TwoMembers(group, s1, s2);
    }
  }

  lemma TwoMembers(g: seq<School>, a: School, b: School)
    requires a in g && b in g && a != b
    ensures |g| > 1
  {
  }

  /** The schools of the `create_duplicate_mapping` docstring, keyed by `normalize_hs_name`. */
  function DocstringSchools(): Schools {
    Schools([School("Central HS", "CENTRAL", "CA", 10), School("Central High School", "CENTRAL", "CA", 15)], true, true)
  }

  /** The docstring's two rows share the key "CENTRAL" (`Normalize.CentralHsKey`,
      `Normalize.CentralHighSchoolKey`) and the state "CA", so the mapping has
      two entries, both resolving to "Central High School". */
  lemma DocstringDuplicates()
    ensures |DuplicateMapping(DocstringSchools(), true)| == 2
    ensures forall e :: e in DuplicateMapping(DocstringSchools(), true) ==>
              e.standardized == "Central High School" && e.source == "duplicate_resolution"
  {
    var t := DocstringSchools();
    DuplicateMappingSize(t, true);
    forall e | e in DuplicateMapping(t, true)
      ensures e.standardized == "Central High School" && e.source == "duplicate_resolution"
    {
      DuplicateMappingEntries(t, true, e);
      DocstringGroup(t);
    }
  }

  lemma DocstringGroup(t: Schools)
    requires t == DocstringSchools()
    ensures forall s :: s in t.rows ==> Group(t.rows, KeyOf(s, true), true) == t.rows
    ensures SelectCanonical(t.rows) == t.rows[1]
  {
    DocstringKeys(t.rows);
    DocstringWholeGroup(t.rows);
    DocstringMaximum(t.rows);
  }

  lemma DocstringKeys(rows: seq<School>)
    requires rows == DocstringSchools().rows
    ensures forall s :: s in rows ==> KeyOf(s, true) == GroupKey("CENTRAL", "CA")
  {
  }

  lemma DocstringWholeGroup(rows: seq<School>)
    requires rows == DocstringSchools().rows
    ensures Group(rows, GroupKey("CENTRAL", "CA"), true) == rows
  {
    assert Group(rows[1..], GroupKey("CENTRAL", "CA"), true) == rows[1..];
  }

  lemma DocstringMaximum(rows: seq<School>)
    requires rows == DocstringSchools().rows
    ensures SelectCanonical(rows) == rows[1]
  {
    UniqueMaximumWins(rows, 1);
  }

  // ------------------------------------------------------------------
  // The curated prep-school table.

  /** A curated school: a name variant, its canonical name, city and state. */
  datatype Curated = Curated(original: string, standardized: string, city: string, state: string)

  const CuratedCount: nat := 25

  /** The table of `create_prep_school_mapping`, in its order. */
  function CuratedSchool(i: nat): Curated
    requires i < CuratedCount
  {
    if i == 0 then Curated("IMG Academy", "IMG Academy", "Bradenton", "FL")
    else if i == 1 then Curated("Montverde Academy", "Montverde Academy", "Montverde", "FL")
    else if i == 2 then Curated("Oak Hill Academy", "Oak Hill Academy", "Mouth of Wilson", "VA")
    else if i == 3 then Curated("Brewster Academy", "Brewster Academy", "Wolfeboro", "NH")
    else if i == 4 then Curated("Prolific Prep", "Prolific Prep", "Napa", "CA")
    else if i == 5 then Curated("Spire Academy", "Spire Institute", "Geneva", "OH")
    else if i == 6 then Curated("Spire Institute", "Spire Institute", "Geneva", "OH")
    else if i == 7 then Curated("Link Academy", "Link Academy", "Branson", "MO")
    else if i == 8 then Curated("La Lumiere School", "La Lumiere School", "La Porte", "IN")
    else if i == 9 then Curated("New Hope Academy", "New Hope Christian Academy", "Landover Hills", "MD")
    else if i == 10 then Curated("New Hope Christian Academy", "New Hope Christian Academy", "Landover Hills", "MD")
    else if i == 11 then Curated("Hamilton Heights Christian Academy", "Hamilton Heights Christian Academy", "Chattanooga", "TN")
    else if i == 12 then Curated("Northfield Mount Hermon", "Northfield Mount Hermon School", "Gill", "MA")
    else if i == 13 then Curated("Northfield Mount Hermon School", "Northfield Mount Hermon School", "Gill", "MA")
    else if i == 14 then Curated("South Kent School", "South Kent School", "South Kent", "CT")
    else if i == 15 then Curated("Wilbraham & Monson Academy", "Wilbraham & Monson Academy", "Wilbraham", "MA")
    else if i == 16 then Curated("Westtown School", "Westtown School", "West Chester", "PA")
    else if i == 17 then Curated("Worcester Academy", "Worcester Academy", "Worcester", "MA")
    else if i == 18 then Curated("The Governor\'s Academy", "The Governor\'s Academy", "Byfield", "MA")
    else if i == 19 then Curated("Governors Academy", "The Governor\'s Academy", "Byfield", "MA")
    else if i == 20 then Curated("Blair Academy", "Blair Academy", "Blairstown", "NJ")
    else if i == 21 then Curated("Putnam Science Academy", "Putnam Science Academy", "Putnam", "CT")
    else if i == 22 then Curated("St. Andrew\'s School", "St. Andrew\'s School", "Barrington", "RI")
    else if i == 23 then Curated("Tabor Academy", "Tabor Academy", "Marion", "MA")
    else Curated("Choate Rosemary Hall", "Choate Rosemary Hall", "Wallingford", "CT")
  }

  /** The mapping row for a curated school. */
  function CuratedEntry(c: Curated): Entry {
    Entry(c.original, c.standardized, c.state, Some(c.city), "high_manual", "prep_school_curated",
          Some("Manually curated prep/basketball academy"), None, None)
  }

  /** What `create_prep_school_mapping` returns: one row per curated school, in order. */
  function CuratedMapping(): (m: seq<Entry>)
    ensures |m| == CuratedCount
    ensures forall i :: 0 <= i < CuratedCount ==> m[i] == CuratedEntry(CuratedSchool(i))
  {
    seq(CuratedCount, i requires 0 <= i < CuratedCount => CuratedEntry(CuratedSchool(i)))
  }

  lemma PrefixStep(m: seq<Entry>, i: nat)
    requires i < |m|
    ensures m[..i + 1] == m[..i] + [m[i]]
  {
  }

  /** `create_prep_school_mapping`: the loop appending one row per table entry. */
  method CreatePrepSchoolMapping() returns (records: seq<Entry>)
    ensures records == CuratedMapping()
  {
    records := [];
    for i := 0 to CuratedCount
      invariant records == CuratedMapping()[..i]
    {
      PrefixStep(CuratedMapping(), i);
      records := records + [CuratedEntry(CuratedSchool(i))];
    }
    assert CuratedMapping()[..CuratedCount] == CuratedMapping();
  }

  /** A cheap fingerprint of a name: its length and first character. */
  function Code(name: string): int {
    if name == [] then 0 else |name| * 128 + name[0] as int
  }

  /** The curated index with a given fingerprint. */
  function CodeIndex(code: int): nat {
    if code == 1481 then 0
    else if code == 2253 then 1
    else if code == 2127 then 2
    else if code == 2114 then 3
    else if code == 1744 then 4
    else if code == 1747 then 5
    else if code == 2003 then 6
    else if code == 1612 then 7
    else if code == 2252 then 8
    else if code == 2126 then 9
    else if code == 3406 then 10
    else if code == 4424 then 11
    else if code == 3022 then 12
    else if code == 3918 then 13
    else if code == 2259 then 14
    else if code == 3415 then 15
    else if code == 2007 then 16
    else if code == 2263 then 17
    else if code == 2900 then 18
    else if code == 2247 then 19
    else if code == 1730 then 20
    else if code == 2896 then 21
    else if code == 2515 then 22
    else if code == 1748 then 23
    else if code == 2627 then 24
    else CuratedCount
  }

  lemma CodeIndexOf(i: nat)
    requires i < CuratedCount
    ensures CodeIndex(Code(CuratedSchool(i).original)) == i
  {
    if i == 0 { CodeIndexAt0(); }
    else if i == 1 { CodeIndexAt1(); }
    else if i == 2 { CodeIndexAt2(); }
    else if i == 3 { CodeIndexAt3(); }
    else if i == 4 { CodeIndexAt4(); }
    else if i == 5 { CodeIndexAt5(); }
    else if i == 6 { CodeIndexAt6(); }
    else if i == 7 { CodeIndexAt7(); }
    else if i == 8 { CodeIndexAt8(); }
    else if i == 9 { CodeIndexAt9(); }
    else if i == 10 { CodeIndexAt10(); }
    else if i == 11 { CodeIndexAt11(); }
    else if i == 12 { CodeIndexAt12(); }
    else if i == 13 { CodeIndexAt13(); }
    else if i == 14 { CodeIndexAt14(); }
    else if i == 15 { CodeIndexAt15(); }
    else if i == 16 { CodeIndexAt16(); }
    else if i == 17 { CodeIndexAt17(); }
    else if i == 18 { CodeIndexAt18(); }
    else if i == 19 { CodeIndexAt19(); }
    else if i == 20 { CodeIndexAt20(); }
    else if i == 21 { CodeIndexAt21(); }
    else if i == 22 { CodeIndexAt22(); }
    else if i == 23 { CodeIndexAt23(); }
    else { CodeIndexAt24(); }
  }

  lemma CodeIndexAt0() ensures CodeIndex(Code(CuratedSchool(0).original)) == 0 {}
  lemma CodeIndexAt1() ensures CodeIndex(Code(CuratedSchool(1).original)) == 1 {}
  lemma CodeIndexAt2() ensures CodeIndex(Code(CuratedSchool(2).original)) == 2 {}
  lemma CodeIndexAt3() ensures CodeIndex(Code(CuratedSchool(3).original)) == 3 {}
  lemma CodeIndexAt4() ensures CodeIndex(Code(CuratedSchool(4).original)) == 4 {}
  lemma CodeIndexAt5() ensures CodeIndex(Code(CuratedSchool(5).original)) == 5 {}
  lemma CodeIndexAt6() ensures CodeIndex(Code(CuratedSchool(6).original)) == 6 {}
  lemma CodeIndexAt7() ensures CodeIndex(Code(CuratedSchool(7).original)) == 7 {}
  lemma CodeIndexAt8() ensures CodeIndex(Code(CuratedSchool(8).original)) == 8 {}
  lemma CodeIndexAt9() ensures CodeIndex(Code(CuratedSchool(9).original)) == 9 {}
  lemma CodeIndexAt10() ensures CodeIndex(Code(CuratedSchool(10).original)) == 10 {}
  lemma CodeIndexAt11() ensures CodeIndex(Code(CuratedSchool(11).original)) == 11 {}
  lemma CodeIndexAt12() ensures CodeIndex(Code(CuratedSchool(12).original)) == 12 {}
  lemma CodeIndexAt13() ensures CodeIndex(Code(CuratedSchool(13).original)) == 13 {}
  lemma CodeIndexAt14() ensures CodeIndex(Code(CuratedSchool(14).original)) == 14 {}
  lemma CodeIndexAt15() ensures CodeIndex(Code(CuratedSchool(15).original)) == 15 {}
  lemma CodeIndexAt16() ensures CodeIndex(Code(CuratedSchool(16).original)) == 16 {}
  lemma CodeIndexAt17() ensures CodeIndex(Code(CuratedSchool(17).original)) == 17 {}
  lemma CodeIndexAt18() ensures CodeIndex(Code(CuratedSchool(18).original)) == 18 {}
  lemma CodeIndexAt19() ensures CodeIndex(Code(CuratedSchool(19).original)) == 19 {}
  lemma CodeIndexAt20() ensures CodeIndex(Code(CuratedSchool(20).original)) == 20 {}
  lemma CodeIndexAt21() ensures CodeIndex(Code(CuratedSchool(21).original)) == 21 {}
  lemma CodeIndexAt22() ensures CodeIndex(Code(CuratedSchool(22).original)) == 22 {}
  lemma CodeIndexAt23() ensures CodeIndex(Code(CuratedSchool(23).original)) == 23 {}
  lemma CodeIndexAt24() ensures CodeIndex(Code(CuratedSchool(24).original)) == 24 {}

  /** The curated variants are pairwise different. */
  lemma CuratedOriginalsDistinct(i: nat, j: nat)
    requires i < CuratedCount && j < CuratedCount && i != j
    ensures CuratedSchool(i).original != CuratedSchool(j).original
  {
    CodeIndexOf(i);
    CodeIndexOf(j);
  }

  /** The row whose variant is the canonical name of row `i`. */
  function CanonicalIndex(i: nat): nat requires i < CuratedCount {
    if i == 5 then 6
    else if i == 9 then 10
    else if i == 12 then 13
    else if i == 19 then 18
    else i
  }

  /** Every canonical name of the table is itself a variant of the table, and
      that variant's canonical name is the name itself. */
  lemma CanonicalIsVariant(i: nat)
    requires i < CuratedCount
    ensures CanonicalIndex(i) < CuratedCount
    ensures CuratedSchool(CanonicalIndex(i)).original == CuratedSchool(i).standardized
    ensures CuratedSchool(CanonicalIndex(i)).standardized == CuratedSchool(i).standardized
  {
  }

  // ------------------------------------------------------------------
  // Applying a mapping to a frame.

  /** The columns of a mapping frame that `apply_mapping` reads; `confidence`
      is `None` when the frame has no such column. */
  datatype Table = Table(original: seq<Cell>, standardized: seq<Cell>, confidence: Option<seq<Cell>>)

  predicate WellFormed(tb: Table) {
    |tb.standardized| == |tb.original| && (tb.confidence.Some? ==> |tb.confidence.value| == |tb.original|)
  }

  /** The mapping frame built from a list of mapping records. */
  function TableOf(m: seq<Entry>): (tb: Table)
    ensures WellFormed(tb) && |tb.original| == |m|
  {
    Table(seq(|m|, i requires 0 <= i < |m| => Str(m[i].original)),
          seq(|m|, i requires 0 <= i < |m| => Str(m[i].standardized)),
          Some(seq(|m|, i requires 0 <= i < |m| => Str(m[i].confidence))))
  }

  /** `dict(zip(keys, values))`: its keys are the keys listed. */
  function Zip(ks: seq<Cell>, vs: seq<Cell>): (d: map<Cell, Cell>)
    requires |ks| == |vs|
    ensures d.Keys == set k | k in ks
    decreases |ks|
  {
    if ks == [] then map[]
    else
      var n := |ks| - 1;
      assert ks == ks[..n] + [ks[n]];
      Zip(ks[..n], vs[..n])[ks[n] := vs[n]]
  }

  /** A later pair overwrites an earlier one: the value of a key is the value
      paired with its last occurrence. */
  lemma {:induction false} ZipLast(ks: seq<Cell>, vs: seq<Cell>, j: nat)
    requires |ks| == |vs| && j < |ks|
    requires forall l | j < l < |ks| :: ks[l] != ks[j]
    ensures ks[j] in Zip(ks, vs) && Zip(ks, vs)[ks[j]] == vs[j]
    decreases |ks|
  {
    var n := |ks| - 1;
    if j < n {
      ZipLast(ks[..n], vs[..n], j);
    }
  }

  /** `mapping_dict`. */
  function StandardizedDict(tb: Table): map<Cell, Cell>
    requires WellFormed(tb)
  {
    Zip(tb.original, tb.standardized)
  }

  /** `confidence_dict`: empty when the mapping frame has no `confidence` column. */
  function ConfidenceDict(tb: Table): map<Cell, Cell>
    requires WellFormed(tb)
  {
    if tb.confidence.Some? then Zip(tb.original, tb.confidence.value) else map[]
  }

  /** `series.map(d).fillna(series)` at one cell: the dictionary's value when
      there is one and it is not missing, else the cell itself. */
  function MapCell(d: map<Cell, Cell>, x: Cell): Cell {
    if x in d && !d[x].Null? then d[x] else x
  }

  /** `series.map(d).fillna('unstandardized')` at one cell. */
  function ConfidenceCell(d: map<Cell, Cell>, x: Cell): Cell {
    if x in d && !d[x].Null? then d[x] else Str("unstandardized")
  }

  /** `a != b` on two cells of object columns: a missing cell differs from everything. */
  function DiffersCell(a: Cell, b: Cell): Cell {
    Flag(a.Null? || b.Null? || a != b)
  }

  function MapColumn(d: map<Cell, Cell>, xs: seq<Cell>): (ys: seq<Cell>)
    ensures |ys| == |xs| && forall i :: 0 <= i < |xs| ==> ys[i] == MapCell(d, xs[i])
  {
    seq(|xs|, i requires 0 <= i < |xs| => MapCell(d, xs[i]))
  }

  function ConfidenceColumn(d: map<Cell, Cell>, xs: seq<Cell>): (ys: seq<Cell>)
    ensures |ys| == |xs| && forall i :: 0 <= i < |xs| ==> ys[i] == ConfidenceCell(d, xs[i])
  {
    seq(|xs|, i requires 0 <= i < |xs| => ConfidenceCell(d, xs[i]))
  }

  function ChangedColumn(xs: seq<Cell>, ys: seq<Cell>): (zs: seq<Cell>)
    requires |xs| == |ys|
    ensures |zs| == |xs| && forall i :: 0 <= i < |xs| ==> zs[i] == DiffersCell(xs[i], ys[i])
  {
    seq(|xs|, i requires 0 <= i < |xs| => DiffersCell(xs[i], ys[i]))
  }

  predicate Rectangular(cols: map<string, seq<Cell>>, height: nat) {
    forall c | c in cols :: |cols[c]| == height
  }

  /** The columns after `apply_mapping`, each step reading the frame as the
      previous step left it. */
  function Applied(cols: map<string, seq<Cell>>, height: nat, tb: Table,
                   originalCol: string, standardizedCol: string, confidenceCol: string, changedCol: string)
    : (r: map<string, seq<Cell>>)
    requires WellFormed(tb) && Rectangular(cols, height) && originalCol in cols
    ensures Rectangular(r, height)
  {
    var c1 := cols[standardizedCol := MapColumn(StandardizedDict(tb), cols[originalCol])];
    var c2 := if |ConfidenceDict(tb)| > 0
              then c1[confidenceCol := ConfidenceColumn(ConfidenceDict(tb), c1[originalCol])]
              else c1;
    c2[changedCol := ChangedColumn(c2[originalCol], c2[standardizedCol])]
  }

  /** `apply_mapping`: a copy of the frame with the standardized, confidence
      and changed columns added; the frame passed in is left as it was. */
  method ApplyMapping(df: Frame, tb: Table, originalCol: string, standardizedCol: string,
                      confidenceCol: string, changedCol: string) returns (r: Frame)
    requires df.Valid() && WellFormed(tb) && originalCol in df.columns
    ensures fresh(r) && r.Valid() && r.height == df.height
    ensures r.columns == Applied(df.columns, df.height, tb, originalCol, standardizedCol, confidenceCol, changedCol)
  {
    var mappingDict := StandardizedDict(tb);
    var confidenceDict := ConfidenceDict(tb);
    r := df.Copy();
    r.SetColumn(standardizedCol, MapColumn(mappingDict, r.columns[originalCol]));
    if |confidenceDict| > 0 {
      r.SetColumn(confidenceCol, ConfidenceColumn(confidenceDict, r.columns[originalCol]));
    }
    r.SetColumn(changedCol, ChangedColumn(r.columns[originalCol], r.columns[standardizedCol]));
  }

  /** The four column names are different. */
  predicate DistinctColumns(originalCol: string, standardizedCol: string, confidenceCol: string, changedCol: string) {
    originalCol != standardizedCol && originalCol != confidenceCol && originalCol != changedCol
    && standardizedCol != confidenceCol && standardizedCol != changedCol && confidenceCol != changedCol
  }

  /** With distinct column names, row by row: the standardized name is the
      mapped name or the original one, the flag says whether they differ, and
      the confidence column, when the confidence dictionary is not empty, holds
      the mapped confidence or "unstandardized". */
  lemma AppliedRow(cols: map<string, seq<Cell>>, height: nat, tb: Table,
                   originalCol: string, standardizedCol: string, confidenceCol: string, changedCol: string, i: nat)
    requires WellFormed(tb) && Rectangular(cols, height) && originalCol in cols && i < height
    requires DistinctColumns(originalCol, standardizedCol, confidenceCol, changedCol)
    ensures var r := Applied(cols, height, tb, originalCol, standardizedCol, confidenceCol, changedCol);
            var x, d, cd := cols[originalCol][i], StandardizedDict(tb), ConfidenceDict(tb);
            && r[standardizedCol][i] == (if x in d && !d[x].Null? then d[x] else x)
            && (r[changedCol][i] == Flag(true) <==> x.Null? || (x in d && !d[x].Null? && d[x] != x))
            && (|cd| > 0 ==> r[confidenceCol][i] == (if x in cd && !cd[x].Null? then cd[x] else Str("unstandardized")))
  {
  }

  /** With distinct column names, the standardized and changed columns are
      added, the confidence column exactly when the confidence dictionary is
      not empty, and every other column is kept. */
  lemma AppliedColumns(cols: map<string, seq<Cell>>, height: nat, tb: Table,
                       originalCol: string, standardizedCol: string, confidenceCol: string, changedCol: string)
    requires WellFormed(tb) && Rectangular(cols, height) && originalCol in cols
    requires DistinctColumns(originalCol, standardizedCol, confidenceCol, changedCol)
    ensures var r := Applied(cols, height, tb, originalCol, standardizedCol, confidenceCol, changedCol);
            && r.Keys == cols.Keys + {standardizedCol, changedCol} + (if |ConfidenceDict(tb)| > 0 then {confidenceCol} else {})
            && forall c | c in cols && c != standardizedCol && c != confidenceCol && c != changedCol :: r[c] == cols[c]
  {
  }

  /** The docstring example of `apply_mapping`: "Central HS" is mapped, the
      school missing from the mapping keeps its name and is flagged unchanged. */
  lemma ApplyMappingExample(cols: map<string, seq<Cell>>, tb: Table)
    requires cols == map["high_school" := [Str("Central HS"), Str("Lincoln High School")]]
    requires tb == Table([Str("Central HS")], [Str("Central High School")], Some([Str("high_auto")]))
    ensures var r := Applied(cols, 2, tb, "high_school", "high_school_standardized", "hs_confidence", "hs_was_standardized");
            && r["high_school_standardized"] == [Str("Central High School"), Str("Lincoln High School")]
            && r["hs_confidence"] == [Str("high_auto"), Str("unstandardized")]
            && r["hs_was_standardized"] == [Flag(true), Flag(false)]
  {
    var d := StandardizedDict(tb);
    assert d == map[Str("Central HS") := Str("Central High School")];
    assert ConfidenceDict(tb) == map[Str("Central HS") := Str("high_auto")];
    AppliedRow(cols, 2, tb, "high_school", "high_school_standardized", "hs_confidence", "hs_was_standardized", 0);
    AppliedRow(cols, 2, tb, "high_school", "high_school_standardized", "hs_confidence", "hs_was_standardized", 1);
  }

  /** Every value of the dictionary that is also a key maps to itself. */
  predicate Settled(d: map<Cell, Cell>) {
    forall k | k in d && !d[k].Null? :: d[k] in d ==> d[d[k]] == d[k] || d[d[k]].Null?
  }

  /** Mapping twice with a settled dictionary is mapping once. */
  lemma MapCellTwice(d: map<Cell, Cell>, x: Cell)
    requires Settled(d)
    ensures MapCell(d, MapCell(d, x)) == MapCell(d, x)
  {
  }

  /** The prep-school dictionary maps each variant to its canonical name. */
  lemma CuratedDictAt(j: nat)
    requires j < CuratedCount
    ensures var d := StandardizedDict(TableOf(CuratedMapping()));
            Str(CuratedSchool(j).original) in d && d[Str(CuratedSchool(j).original)] == Str(CuratedSchool(j).standardized)
  {
    var tb := TableOf(CuratedMapping());
    forall l | j < l < |tb.original| ensures tb.original[l] != tb.original[j] {
      CuratedOriginalsDistinct(l, j);
    }
    ZipLast(tb.original, tb.standardized, j);
  }

  /** The table's renaming example: "Spire Academy" becomes "Spire Institute". */
  lemma SpireAcademyMapped()
    ensures var d := StandardizedDict(TableOf(CuratedMapping()));
            Str("Spire Academy") in d && d[Str("Spire Academy")] == Str("Spire Institute")
  {
    CuratedDictAt(5);
  }

  lemma CuratedSettled()
    ensures Settled(StandardizedDict(TableOf(CuratedMapping())))
  {
    var tb := TableOf(CuratedMapping());
    var d := StandardizedDict(tb);
    forall k | k in d && !d[k].Null? ensures d[k] in d ==> d[d[k]] == d[k] || d[d[k]].Null? {
      assert k in tb.original;
      var j :| 0 <= j < |tb.original| && tb.original[j] == k;
      CuratedDictAt(j);
      CanonicalIsVariant(j);
      CuratedDictAt(CanonicalIndex(j));
    }
  }

  /** Applying the prep-school mapping to names it already standardized
      changes nothing: every canonical name of the table maps to itself. */
  lemma PrepMappingIdempotent(xs: seq<Cell>)
    ensures var d := StandardizedDict(TableOf(CuratedMapping()));
            MapColumn(d, MapColumn(d, xs)) == MapColumn(d, xs)
  {
    var d := StandardizedDict(TableOf(CuratedMapping()));
    CuratedSettled();
    forall i | 0 <= i < |xs| ensures MapColumn(d, MapColumn(d, xs))[i] == MapColumn(d, xs)[i] {
      MapCellTwice(d, xs[i]);
    }
  }

  // ------------------------------------------------------------------
  // The complete mapping.

  function Originals(m: seq<Entry>): set<string> {
    set e | e in m :: e.original
  }

  /** No two records have the same original name. */
  predicate UniqueOriginals(m: seq<Entry>) {
    forall i, j | 0 <= i < j < |m| :: m[i].original != m[j].original
  }

  /** No record after record `i` has its original name. */
  predicate LastOfName(m: seq<Entry>, i: nat)
    requires i < |m|
  {
    forall j | i < j < |m| :: m[j].original != m[i].original
  }

  /** `drop_duplicates(subset=['high_school_original'], keep='last')`: a record
      stays when no later record has its original name. */
  function KeepLast(m: seq<Entry>): seq<Entry> {
    if m == [] then []
    else (if m[0].original in Originals(m[1..]) then [] else [m[0]]) + KeepLast(m[1..])
  }

  /** Every record kept is the last of its name. */
  lemma {:induction false} KeepLastOnlyLast(m: seq<Entry>, e: Entry)
    requires e in KeepLast(m)
    ensures exists i | 0 <= i < |m| :: m[i] == e && LastOfName(m, i)
  {
    var rest := KeepLast(m[1..]);
    if e in rest {
      KeepLastOnlyLast(m[1..], e);
      var i :| 0 <= i < |m[1..]| && m[1..][i] == e && LastOfName(m[1..], i);
      assert m[i + 1] == e;
      forall j | i + 1 < j < |m| ensures m[j].original != m[i + 1].original {
        assert m[j] == m[1..][j - 1];
      }
    } else {
      assert e == m[0] && m[0].original !in Originals(m[1..]);
      forall j | 0 < j < |m| ensures m[j].original != m[0].original {
        assert m[j] in m[1..];
      }
    }
  }

  /** Every record that is the last of its name is kept. */
  lemma {:induction false} KeepLastKeeps(m: seq<Entry>, i: nat)
    requires i < |m| && LastOfName(m, i)
    ensures m[i] in KeepLast(m)
  {
    if i == 0 {
      forall e | e in m[1..] ensures e.original != m[0].original {
        var j :| 0 <= j < |m[1..]| && m[1..][j] == e;
        assert m[j + 1] == e;
      }
    } else {
      assert m[1..][i - 1] == m[i];
      forall j | i - 1 < j < |m[1..]| ensures m[1..][j].original != m[1..][i - 1].original {
        assert m[1..][j] == m[j + 1];
      }
      KeepLastKeeps(m[1..], i - 1);
    }
  }

  /** Every name has a last record. */
  lemma {:induction false} LastOccurrence(m: seq<Entry>, i: nat)
    requires i < |m|
    ensures exists j | i <= j < |m| :: m[j].original == m[i].original && LastOfName(m, j)
    decreases |m| - i
  {
    if !LastOfName(m, i) {
      var j :| i < j < |m| && m[j].original == m[i].original;
      LastOccurrence(m, j);
    }
  }

  /** The records kept have the names of the records given, each name once. */
  lemma KeepLastNames(m: seq<Entry>)
    ensures Originals(KeepLast(m)) == Originals(m)
    ensures UniqueOriginals(KeepLast(m))
  {
    var r := KeepLast(m);
    forall x | x in Originals(r) ensures x in Originals(m) {
      var e :| e in r && e.original == x;
      KeepLastOnlyLast(m, e);
    }
    forall x | x in Originals(m) ensures x in Originals(r) {
      var e :| e in m && e.original == x;
      var i :| 0 <= i < |m| && m[i] == e;
      LastOccurrence(m, i);
      var j :| i <= j < |m| && m[j].original == x && LastOfName(m, j);
      KeepLastKeeps(m, j);
    }
    KeepLastUnique(m);
  }

  /** Records kept come from the records given. */
  lemma {:induction false} KeepLastSubset(m: seq<Entry>, e: Entry)
    requires e in KeepLast(m)
    ensures e in m
  {
    if e in KeepLast(m[1..]) {
      KeepLastSubset(m[1..], e);
      assert e in m[1..];
    }
  }

  lemma {:induction false} KeepLastUnique(m: seq<Entry>)
    ensures UniqueOriginals(KeepLast(m))
  {
    if m != [] {
      KeepLastUnique(m[1..]);
      if m[0].original !in Originals(m[1..]) {
        KeepLastHeadUnique(m);
      }
    }
  }

  lemma KeepLastHeadUnique(m: seq<Entry>)
    requires m != [] && m[0].original !in Originals(m[1..]) && UniqueOriginals(KeepLast(m[1..]))
    ensures UniqueOriginals(KeepLast(m))
  {
    var rest := KeepLast(m[1..]);
    assert KeepLast(m) == [m[0]] + rest;
    forall x | x in rest ensures x.original != m[0].original {
      KeepLastSubset(m[1..], x);
    }
    ConsUnique(m[0], rest);
  }

  /** A record put in front of records of other, distinct names keeps the
      names distinct. */
  lemma ConsUnique(e: Entry, rest: seq<Entry>)
    requires UniqueOriginals(rest) && forall x | x in rest :: x.original != e.original
    ensures UniqueOriginals([e] + rest)
  {
    var r := [e] + rest;
    forall a, b | 0 <= a < b < |r| ensures r[a].original != r[b].original {
      assert r[b] == rest[b - 1];
      if a > 0 {
        assert r[a] == rest[a - 1];
      }
    }
  }

  /** A record of a block with distinct names, put last, is the only record
      of its name once duplicates are dropped. */
  lemma LastBlockWins(a: seq<Entry>, b: seq<Entry>, i: nat)
    requires UniqueOriginals(b) && i < |b|
    ensures b[i] in KeepLast(a + b)
    ensures forall f | f in KeepLast(a + b) && f.original == b[i].original :: f == b[i]
  {
    var m, k := a + b, |a| + i;
    assert m[k] == b[i];
    forall j | k < j < |m| ensures m[j].original != m[k].original {
      assert m[j] == b[j - |a|];
    }
    KeepLastKeeps(m, k);
    forall f | f in KeepLast(m) && f.original == b[i].original ensures f == b[i] {
      KeepLastOnlyLast(m, f);
      var p :| 0 <= p < |m| && m[p] == f && LastOfName(m, p);
      assert !(p < k) && !(k < p);
    }
  }

  /** A mapping frame without repeated names maps each name to its record's name. */
  lemma UniqueTableValue(r: seq<Entry>, j: nat)
    requires UniqueOriginals(r) && j < |r|
    ensures var d := StandardizedDict(TableOf(r));
            Str(r[j].original) in d && d[Str(r[j].original)] == Str(r[j].standardized)
  {
    var tb := TableOf(r);
    forall l | j < l < |r| ensures tb.original[l] != tb.original[j] {
    }
    ZipLast(tb.original, tb.standardized, j);
  }

  lemma CuratedUnique()
    ensures UniqueOriginals(CuratedMapping())
  {
    forall i, j | 0 <= i < j < CuratedCount ensures CuratedMapping()[i].original != CuratedMapping()[j].original {
      CuratedOriginalsDistinct(i, j);
    }
  }

  /** `build_complete_mapping`: the `KeyError` of `create_duplicate_mapping`
      passes through; otherwise the complete mapping. */
  function BuildCompleteMapping(t: Schools, includePrep: bool, groupByState: bool): (r: Result<seq<Entry>>)
    ensures r.Err? <==> CountMissing(t, groupByState)
    ensures r.Err? ==> r.error == KeyError
    ensures r.Ok? ==> r.value == CompleteMapping(t, includePrep, groupByState)
  {
    if CountMissing(t, groupByState) then Err(KeyError) else Ok(CompleteMapping(t, includePrep, groupByState))
  }

  /** What `build_complete_mapping` returns when the duplicate mapping can be
      built: with the prep schools, the records of both mappings, one per name;
      without them, the duplicate mapping alone. */
  function CompleteMapping(t: Schools, includePrep: bool, groupByState: bool): (r: seq<Entry>)
    ensures includePrep ==> UniqueOriginals(r)
    ensures includePrep ==> Originals(r) == Originals(DuplicateMapping(t, groupByState)) + Originals(CuratedMapping())
    ensures !includePrep ==> r == DuplicateMapping(t, groupByState)
  {
    var duplicates := DuplicateMapping(t, groupByState);
    if includePrep then
      var all := duplicates + CuratedMapping();
      KeepLastNames(all);
      assert Originals(all) == Originals(duplicates) + Originals(CuratedMapping());
      KeepLast(all)
    else duplicates
  }

  /** With the prep schools included, each curated school's record is in the
      complete mapping and is the only record for its name, and the mapping
      sends the name to the curated canonical name. */
  lemma CuratedWins(t: Schools, groupByState: bool, i: nat)
    requires i < CuratedCount
    ensures var r := CompleteMapping(t, true, groupByState);
            var e := CuratedEntry(CuratedSchool(i));
            && e in r && (forall f | f in r && f.original == e.original :: f == e)
            && var d := StandardizedDict(TableOf(r));
               Str(e.original) in d && d[Str(e.original)] == Str(e.standardized)
  {
    var r := CompleteMapping(t, true, groupByState);
    CuratedUnique();
    LastBlockWins(DuplicateMapping(t, groupByState), CuratedMapping(), i);
    var j :| 0 <= j < |r| && r[j] == CuratedMapping()[i];
    UniqueTableValue(r, j);
  }
}
