# Roster data utilities, verified model

This project is a Dafny model of three pieces of a sports-roster data toolkit.
Each piece's properties are proved.

- **High-school name standardisation** (`hs_standardization/`):
  - the matching key `normalize_hs_name` builds from a raw school name;
  - the helpers around the key (parenthetical disambiguator, school type, common names, international schools, display suffix);
  - the choice of one canonical spelling per group of duplicates;
  - the duplicate mapping, the curated prep-school table, and their union;
  - applying a mapping to a frame;
  - matching names against the NCES school directories: the key → records lookup, state/city disambiguation, the standardised name, and the batch pass that writes match columns into a frame.
- **Height codec** (`height_utils/converter.py`): reading heights such as `5-10`, `6'2"`, `6 ft 2 in` or `72` as inches, and writing inches back in three formats.
- **Location splitter** (`location_utils/parser.py`): splitting `City[, Region], Country`, plus the empty-input, alias and fallback front end of the country standardiser.

The modules follow the source files:

| module | file | models |
|---|---|---|
| `Common` | common.dfy | `Option`, `Result` and the Python exceptions raised (`ValueError`, `IndexError`, `OverflowError`) |
| `Text` | text.dfy | the ASCII string operations the code relies on: `upper`, `lower`, `title`, `strip`, `split`, `join`, `in`, `count`, string `<`, `int()` and `str()` of numbers |
| `Frames` | frames.dfy | a DataFrame as a class with a row count and a map from column names to cells; `copy`, column assignment, `at[row, col] =` |
| `Normalize` | normalize.dfy | hs_standardization/normalize.py |
| `Mapping` | mapping.dfy | hs_standardization/mapping.py |
| `Nces` | nces.dfy | the matching half of hs_standardization/nces_data.py |
| `Height` | height.dfy | height_utils/converter.py |
| `LocationParser` | location.dfy | location_utils/parser.py |

Each regular expression is written out as an explicit function over the string. Examples: the suffix patterns of `normalize_hs_name`, the `\bST\.?\s+` rewrite, the final parenthetical group, and the six height grammars.

The code uses loops and mutation in five places, and these are methods:
- `normalize_hs_name` (the suffix loop);
- `create_duplicate_mapping`;
- `create_prep_school_mapping`;
- `create_nces_lookup`;
- `apply_mapping` and `batch_match_to_nces`, which copy a frame and update the copy.

Each method is proved equal to a specification function, and the properties are lemmas about that function.

pandas `groupby` visits its keys in sorted order, and the model keeps that order: the keys are sorted with Python's string order.

## Where the documentation and the code disagree

The model follows the code in each case below.

- **Suffixes:** the code tries each of the four suffix patterns once, in turn. It does not remove "exactly one suffix".
- **`normalize_hs_name("Lincoln HS (North)")`** is `'LINCOLN HS'`, not the documented `'LINCOLN'`. The suffix patterns are anchored at the end and run before the parenthetical is removed (`Normalize.LincolnNorthKey`).
- **Idempotence:** normalising a key again can change it, so `normalize_hs_name` is not idempotent (`Normalize.NormalizeNotIdempotent`).
- **`is_international_school("London Central School")`** is `False`, not the documented `True`. "CENTRAL" is a public marker and the name has no international marker (`Normalize.LondonCentralNotInternational`).
- **Duplicate mapping without prep schools:** the mapping has one entry per row, not one per distinct name. The same name in two states gets two entries. Only the union with the prep table keeps one entry per name.

## Model

| member | source | states |
|---|---|---|
| Normalize.NormalizeKey | hs_standardization/normalize.py:41-72 | the key has no `.`, `,` or `'`, no lower-case letter, no whitespace at either end and no run of whitespace; an empty or blank name has the empty key |
| Normalize.RemoveSuffixes | hs_standardization/normalize.py:47-57 | the loop over the four suffix patterns, in order, removes from the end of the text exactly what `RemoveSuffixesFrom` removes |
| Normalize.NormalizeHsName | hs_standardization/normalize.py:41-72 | the step-by-step rewrite of `normalized`, with the loop over the suffix patterns, computes the key `NormalizeKey` specifies |
| Normalize.SubSuffix | hs_standardization/normalize.py:56-57 | removing an end-anchored suffix pattern never lengthens the name, brings in no lower-case letter and leaves no trailing whitespace |
| Normalize.RemoveSuffixesFrom | hs_standardization/normalize.py:49-57 | the four patterns in turn keep the same three properties |
| Normalize.SaintFromNoST | hs_standardization/normalize.py:60 | text in which no `S` is followed by `T` passes the `ST.` rewrite unchanged |
| Normalize.DeleteMarks | hs_standardization/normalize.py:63 | after the deletion no `.`, `,` or `'` is left, and text without them is unchanged |
| Normalize.DeleteMarksKeepsOthers | hs_standardization/normalize.py:63 | every character other than the three marks occurs as often as before |
| Normalize.DropParenthetical | hs_standardization/normalize.py:67 | a name without a final `(...)` group is unchanged; removal never lengthens it or adds marks or lower-case letters |
| Normalize.CollapseSpace | hs_standardization/normalize.py:70 | every whitespace run becomes one plain space: no two whitespace characters are adjacent and every whitespace character is a space |
| Normalize.CollapseSingleSpaced | hs_standardization/normalize.py:70 | collapsing text that is already single-spaced leaves it unchanged |
| Normalize.Tidy | hs_standardization/normalize.py:70 | collapsing and stripping leaves a well-spaced string |
| Normalize.CentralHighSchoolKey | hs_standardization/normalize.py:34-35 | "Central High School" has the key "CENTRAL" |
| Normalize.SaintMarysKey | hs_standardization/normalize.py:36-37 | "St. Mary's H.S." has the key "SAINT MARYS" |
| Normalize.LincolnNorthKey | hs_standardization/normalize.py:38-67 | "Lincoln HS (North)" has the key "LINCOLN HS": the final group stops the suffix from being removed |
| Normalize.LincolnHsKey | hs_standardization/normalize.py:52-57 | "LINCOLN HS" has the key "LINCOLN" |
| Normalize.NormalizeNotIdempotent | hs_standardization/normalize.py:56-70 | normalising the key of "Lincoln HS (North)" again changes it |
| Normalize.ExtractDisambiguator | hs_standardization/normalize.py:94-98 | the result is empty exactly when no `(...)` group ends the name; otherwise it is the text of the longest final group, has no `)`, and the name ends in `(` + result + `)` |
| Normalize.ExtractDisambiguatorExamples | hs_standardization/normalize.py:88-92 | "Central High School (Phoenix)" gives "Phoenix" and "Lincoln HS" gives "" |
| Normalize.CategorizeSchoolType | hs_standardization/normalize.py:129-156 | the type returned has one of its markers in the upper-cased name, and no type tried earlier does |
| Normalize.CategorizeFirstMatch | hs_standardization/normalize.py:131-156 | a type whose markers occur, when no earlier type's do, is the type returned |
| Normalize.CatholicAcademyIsPrep | hs_standardization/normalize.py:132-140 | "Catholic Academy" has a private marker but is prep, because prep is tried first |
| Normalize.CentralIsPublic | hs_standardization/normalize.py:119-120 | "Central High School" is public |
| Normalize.IsLikelyCommonName | hs_standardization/normalize.py:178-185 | a common name is a non-empty word of upper-case letters |
| Normalize.CommonNamesAreKeys | hs_standardization/normalize.py:159-185 | every common name is its own key, so it can match a normalised name |
| Normalize.IsInternationalSchool | hs_standardization/normalize.py:207-210 | a non-empty country other than "USA" and "United States" makes a school international; otherwise it is international exactly when its type is |
| Normalize.InternationalExamples | hs_standardization/normalize.py:199-205 | "Any School" in Canada is international; "Central High School" in the USA is not |
| Normalize.LondonCentralNotInternational | hs_standardization/normalize.py:199-210 | "London Central School" without a country is not international |
| Normalize.StandardizeSuffix | hs_standardization/normalize.py:235-251 | an empty name, one without "HIGH SCHOOL", "HS" or "H.S." in upper case, or one with an empty key is returned unchanged; any other name becomes its title-cased key, a space and the preferred suffix; a rewritten name reads, letter case aside, as its key, a space and the suffix |
| Normalize.CentralHsDisplay | hs_standardization/normalize.py:228-229 | "Central HS" becomes "Central H.S." |
| Normalize.LincolnHighSchoolDisplay | hs_standardization/normalize.py:230-231 | "Lincoln High School" becomes "Lincoln H.S." |
| Normalize.LincolnDottedDisplay | hs_standardization/normalize.py:232-233 | "Lincoln H.S." with the suffix "High School" becomes "Lincoln High School" |
| Mapping.MaxCount | hs_standardization/mapping.py:43-45 | the largest player count of a group is the count of one of its rows and bounds them all |
| Mapping.Top | hs_standardization/mapping.py:46 | the top candidates are exactly the rows with the given count |
| Mapping.BestOf | hs_standardization/mapping.py:62-66 | the first row after sorting by score descending and then name ascending: a member that no other member is ahead of |
| Mapping.SelectCanonical | hs_standardization/mapping.py:42-66 | the canonical row is a member of the group with the maximum player count, and no row with that count is ahead of it by score or name |
| Mapping.AheadTransitive | hs_standardization/mapping.py:63-64 | the (score, name) order is transitive |
| Mapping.AheadTotal | hs_standardization/mapping.py:63-64 | two different names are always ordered, so the order has no ties |
| Mapping.UniqueMaximumWins | hs_standardization/mapping.py:43-49 | a row with the only maximum count is chosen whatever the scores |
| Mapping.CanonicalIgnoresOrder | hs_standardization/mapping.py:42-66 | the chosen name and count do not depend on the order of the rows |
| Mapping.ScoreHighSchool | hs_standardization/mapping.py:52-60 | "Central High School" scores 100 |
| Mapping.ScoreSpacedHs | hs_standardization/mapping.py:52-60 | "Central HS" scores 50 |
| Mapping.HigherScoreWins | hs_standardization/mapping.py:62-66 | of two rows with the same count, the higher score is chosen |
| Mapping.DocstringCanonical | hs_standardization/mapping.py:33-40 | the counts 10, 15 and 5 choose "Central High School" |
| Mapping.TieGoesToHighSchool | hs_standardization/mapping.py:51-66 | on a tie in count, "Central High School" beats "Central HS" |
| Mapping.InsertKey | hs_standardization/mapping.py:116 | inserting a key adds exactly that key to the set of keys |
| Mapping.InsertKeySorted | hs_standardization/mapping.py:116 | inserting a key keeps the list strictly sorted |
| Mapping.GroupKeys | hs_standardization/mapping.py:110-116 | the group keys are exactly the keys of the rows: the normalised name, plus the state when grouping by state |
| Mapping.GroupKeysSorted | hs_standardization/mapping.py:116 | the groups are visited in strictly increasing key order, each key once |
| Mapping.Group | hs_standardization/mapping.py:116 | a group holds exactly the rows with its key |
| Mapping.Variations | hs_standardization/mapping.py:137-146 | a group of several rows gives one entry per row |
| Mapping.AppendVariations | hs_standardization/mapping.py:137-146 | the inner loop appends the entries of the group's rows, in order |
| Mapping.CreateDuplicateMapping | hs_standardization/mapping.py:109-149 | fails with `KeyError` exactly when the table has no `player_count` column and some group has several rows (the sort at line 43 needs the column); otherwise the loop over the groups builds the duplicate mapping `DuplicateMapping` specifies |
| Mapping.CountDefaultsToOne | hs_standardization/mapping.py:126-127 | without a `player_count` column, every entry of the duplicate mapping has player count and canonical count 1 |
| Mapping.DocstringWithoutCount | hs_standardization/mapping.py:43 | the docstring's two rows without their `player_count` column form one group of two and raise `KeyError` |
| Mapping.DuplicateMappingPerRow | hs_standardization/mapping.py:116-146 | in some order, the mapping holds exactly one entry per row: that row's entry |
| Mapping.DuplicateMappingSize | hs_standardization/mapping.py:116-146 | the mapping has one entry per row of the table |
| Mapping.DuplicateMappingEntries | hs_standardization/mapping.py:116-146 | every entry is the entry of some row |
| Mapping.EntryForFields | hs_standardization/mapping.py:117-146 | a row's entry keeps its name, its player count (1 when the table has no `player_count` column) and its state, has confidence `high_auto`, and has source `no_variation` exactly when its group has one row and `duplicate_resolution` otherwise |
| Mapping.EntryForCanonical | hs_standardization/mapping.py:131-146 | a row's standardised name and canonical count are those of a member of its group |
| Mapping.SameKeySameName | hs_standardization/mapping.py:131-146 | rows with the same key get the same standardised name |
| Mapping.DocstringDuplicates | hs_standardization/mapping.py:96-107 | the docstring's two rows give two entries, both resolving to "Central High School" |
| Mapping.CuratedMapping | hs_standardization/mapping.py:176-216 | the curated mapping has 25 rows, row `i` being the `i`-th table school, `high_manual`, `prep_school_curated` |
| Mapping.CreatePrepSchoolMapping | hs_standardization/mapping.py:204-216 | the loop over the table builds the curated mapping |
| Mapping.CuratedOriginalsDistinct | hs_standardization/mapping.py:176-201 | the 25 curated name variants are pairwise different |
| Mapping.CanonicalIsVariant | hs_standardization/mapping.py:176-201 | every curated canonical name is itself a variant of the table with itself as canonical name |
| Mapping.SpireAcademyMapped | hs_standardization/mapping.py:182 | the curated mapping sends "Spire Academy" to "Spire Institute" |
| Mapping.Zip | hs_standardization/mapping.py:253-263 | `dict(zip(keys, values))` has exactly the keys listed |
| Mapping.ZipLast | hs_standardization/mapping.py:253-263 | a key listed several times takes the value of its last occurrence |
| Mapping.TableOf | hs_standardization/mapping.py:253-263 | the mapping frame of a list of records has one row per record |
| Mapping.MapColumn | hs_standardization/mapping.py:267 | each cell becomes its mapped value when the dictionary has one that is not missing, else stays as it is |
| Mapping.ConfidenceColumn | hs_standardization/mapping.py:270 | each cell becomes its mapped confidence, else "unstandardized" |
| Mapping.ChangedColumn | hs_standardization/mapping.py:272 | each flag says whether the original and standardised cells differ |
| Mapping.Applied | hs_standardization/mapping.py:266-272 | every column of the result has one cell per row of the frame |
| Mapping.ApplyMapping | hs_standardization/mapping.py:252-274 | a fresh copy of the frame, with the same rows, gets the columns `Applied` specifies; the frame passed in is not modified |
| Mapping.AppliedRow | hs_standardization/mapping.py:267-272 | per row: the mapped name or the original; changed exactly when the original is missing or maps to a different name; the mapped confidence or "unstandardized" when the mapping has confidences |
| Mapping.AppliedColumns | hs_standardization/mapping.py:266-272 | the standardised and changed columns are added, the confidence column exactly when the confidence dictionary is not empty, and every other column is kept |
| Mapping.ApplyMappingExample | hs_standardization/mapping.py:240-250 | the docstring's frame gives ["Central High School", "Lincoln High School"], confidences ["high_auto", "unstandardized"] and flags [true, false] |
| Mapping.MapCellTwice | hs_standardization/mapping.py:267 | with a dictionary whose values map to themselves, mapping twice is mapping once |
| Mapping.PrepMappingIdempotent | hs_standardization/mapping.py:176-214 | applying the curated mapping to names it already standardised changes nothing |
| Mapping.KeepLastOnlyLast | hs_standardization/mapping.py:316-319 | every record kept by `drop_duplicates(keep='last')` is the last record of its name |
| Mapping.KeepLastKeeps | hs_standardization/mapping.py:316-319 | every record that is the last of its name is kept |
| Mapping.KeepLastNames | hs_standardization/mapping.py:316-319 | the records kept have the same names as the records given, each name once |
| Mapping.LastBlockWins | hs_standardization/mapping.py:313-319 | a record of the block concatenated last, whose names are distinct, survives and is the only record of its name |
| Mapping.BuildCompleteMapping | hs_standardization/mapping.py:305-323 | the `KeyError` of the duplicate mapping passes through, exactly when it is raised; otherwise the result is the combined mapping `CompleteMapping` specifies |
| Mapping.CompleteMapping | hs_standardization/mapping.py:305-323 | with prep schools the names are unique and are the names of both mappings; without them the result is the duplicate mapping |
| Mapping.CuratedWins | hs_standardization/mapping.py:308-319 | with prep schools each curated record survives, is the only record of its name, and the mapping dictionary sends the name to the curated canonical name |
| Nces.RecordsWithKey | hs_standardization/nces_data.py:407-420 | the records of the rows with a key, in row order, are non-empty exactly when some row has that key |
| Nces.LookupOf | hs_standardization/nces_data.py:405-422 | each non-empty key of the rows maps to the records with that key, in row order; empty keys are absent and no list is empty |
| Nces.CreateNcesLookup | hs_standardization/nces_data.py:405-422 | the loop filling the dictionary of lists builds `LookupOf` |
| Nces.Matching | hs_standardization/nces_data.py:475-487 | the filtered candidates are exactly those whose upper-cased state or city equals the upper-cased value |
| Nces.MatchingFirst | hs_standardization/nces_data.py:475-487 | the first filtered candidate is the first candidate that matches |
| Nces.Disambiguate | hs_standardization/nces_data.py:464-501 | a single candidate is exact; any match is a candidate; an exact match has no candidate count; an ambiguous one counts between 2 and all candidates; an empty list is an `IndexError` |
| Nces.AfterState | hs_standardization/nces_data.py:474-481 | the state step keeps a sub-list of the candidates: all of them, or more than one, all in the given state |
| Nces.CityStep | hs_standardization/nces_data.py:483-501 | the city step fails exactly on no candidates; a unique city match is exact; otherwise the match is ambiguous on a candidate, counting at most all of them and at least 2 when there were several |
| Nces.StateLeftFirst | hs_standardization/nces_data.py:474-501 | without a city, when the state does not single out a candidate, the match is ambiguous on the first candidate left after the state step, counting those left |
| Nces.CityDisambiguates | hs_standardization/nces_data.py:483-490 | the only candidate left after the state step that is in the given city is an exact match |
| Nces.CityNarrows | hs_standardization/nces_data.py:491-501 | when several candidates left after the state step are in the given city, the match is ambiguous on the first of them, counting them, and is in that city |
| Nces.UnknownCityIgnored | hs_standardization/nces_data.py:483-493 | a city that no candidate left after the state step is in changes nothing: the result is as without the city |
| Nces.MatchToNces | hs_standardization/nces_data.py:453-501 | `ValueError` exactly when neither a lookup nor a frame is given; no match exactly when the key is empty or absent; a match is a record listed under the name's key |
| Nces.MatchNeverFails | hs_standardization/nces_data.py:453-464 | with a lookup built by `create_nces_lookup`, matching never raises |
| Nces.SingleCandidateExact | hs_standardization/nces_data.py:466-471 | a single candidate is an exact match whatever the state and city |
| Nces.StateDisambiguates | hs_standardization/nces_data.py:474-480 | the only candidate in the given state is an exact match |
| Nces.UnknownStateIgnored | hs_standardization/nces_data.py:474-483 | a state that no candidate is in keeps every candidate: the result is as without the state |
| Nces.StateNarrows | hs_standardization/nces_data.py:481-501 | when several candidates are in the given state, the match is in that state |
| Nces.NoHintsAmbiguous | hs_standardization/nces_data.py:496-501 | without state and city, several candidates give an ambiguous match on the first, counting them all |
| Nces.MatchedNameHasSameKey | hs_standardization/nces_data.py:458-464 | with a lookup built from prepared rows, a matched directory name has the key of the name matched |
| Nces.GetNcesStandardizedName | hs_standardization/nces_data.py:590-605 | errors are those of the match; without the suffix flag the result is the matched name, or the name given when there is no match; with the flag, a matched name containing "H.S." or "High School" is kept, any other goes through `standardize_suffix` with "H.S.", and so does the name given when there is no match |
| Nces.MatchedHighSchoolKept | hs_standardization/nces_data.py:592-598 | a matched name containing "H.S." or "High School" is returned as it is |
| Nces.MatchedSuffixed | hs_standardization/nces_data.py:592-598 | a matched name with another suffix marker and a non-empty key becomes its title-cased key and "H.S." |
| Nces.MatchedPlainKept | hs_standardization/nces_data.py:592-598 | a matched name without any suffix marker is returned as it is: the flag never adds "H.S." to it |
| Nces.UnmatchedSuffixed | hs_standardization/nces_data.py:600-603 | without a match and with the flag, the name given comes back through `standardize_suffix` with "H.S." |
| Nces.ColumnNameInjective | hs_standardization/nces_data.py:535-542 | the eight added column names are different |
| Nces.Initialized | hs_standardization/nces_data.py:535-542 | after the eight assignments every added column exists and has one cell per row |
| Nces.InitColumns | hs_standardization/nces_data.py:535-542 | the assignments produce the columns `Initialized` specifies |
| Nces.InitializedCells | hs_standardization/nces_data.py:535-542 | the added columns start out missing and every other column is kept |
| Nces.WriteMatch | hs_standardization/nces_data.py:553-561 | the eight writes of a matched row produce `WriteRow` |
| Nces.WriteRowCell | hs_standardization/nces_data.py:553-561 | a matched row's writes set that row's cell of each added column to the match's value and nothing else |
| Nces.WriteRowOther | hs_standardization/nces_data.py:553-561 | a matched row's writes leave every other column unchanged |
| Nces.MatchRow | hs_standardization/nces_data.py:547-562 | the loop body matches the row, writes the match if any, and counts it |
| Nces.FillMatches | hs_standardization/nces_data.py:545-562 | the loop writes every matched row and counts the matches |
| Nces.BatchMatchToNces | hs_standardization/nces_data.py:528-567 | a fresh copy of the frame, with the same rows, gets the added columns filled by the row matches; the count of matched rows, which the source only prints, is returned |
| Nces.ProgressCell | hs_standardization/nces_data.py:546-561 | after the first rows, an added column holds the match's value on the matched rows and is unchanged elsewhere |
| Nces.ProgressOther | hs_standardization/nces_data.py:546-561 | the loop leaves every column other than the added ones unchanged |
| Nces.BatchCells | hs_standardization/nces_data.py:532-562 | every row is kept; the added columns hold the match on matched rows and are missing elsewhere; the other columns are unchanged |
| Nces.CountIsConfidenceCells | hs_standardization/nces_data.py:545-562 | the count returned is the number of rows whose confidence cell is set |
| Height.NearestDouble | height_utils/converter.py:58 | an integer below 2^53 is its own nearest double |
| Height.ReadFloat | height_utils/converter.py:57-60 | a digit string is read as the double nearest its value, or as infinite |
| Height.HeightToInches | height_utils/converter.py:43-113 | `None` and blank strings give no height; an integer is its own value; the only exception is the overflow of an infinite float |
| Height.MatchPatterns | height_utils/converter.py:62-113 | the six grammars tried in turn give a number of inches or no height |
| Height.HyphenShapeMatches | height_utils/converter.py:63-67 | a string of digits, spaces, a hyphen, spaces and digits reads as 12·feet + inches |
| Height.HyphenMatchShape | height_utils/converter.py:63-67 | the hyphen grammar matches exactly the strings of that shape |
| Height.HyphenShapeHeight | height_utils/converter.py:50-67 | a string of digits, spaces, a hyphen, spaces and digits, with an optional final newline, reads as 12·feet + inches |
| Height.FiveTenSpaced | tests/test_height_converter.py:22 | "5 - 10" is 70 |
| Height.SixTwoSpaced | tests/test_height_converter.py:23 | "6- 2" is 74 |
| Height.SixZeroSpaced | tests/test_height_converter.py:24 | "6 -0" is 72 |
| Height.HyphenHeight | height_utils/converter.py:62-67 | `F-I` reads as 12·F + I, with no bound on I |
| Height.HyphenInchesUnbounded | height_utils/converter.py:63-67 | "10-6" is 126 |
| Height.QuoteHeight | height_utils/converter.py:69-74 | `F'I`, `F'I"` and their `′`/`″` spellings read as 12·F + I |
| Height.FeetQuoteHeight | height_utils/converter.py:76-80 | `F'` and `F′` read as 12·F |
| Height.TextHeight | height_utils/converter.py:82-91 | `F ft I in`, with the words in any case and any of their forms and any whitespace run, empty included, between the parts, reads as 12·F + I; the inch numeral (then 0) and the inch word may each be left out, and without an inch word whitespace may follow the last part |
| Height.TextShapeMatches | height_utils/converter.py:82-91 | every string of the shape numeral, whitespace, feet word, whitespace, optional inch digits, whitespace, optional inch word is matched by the text grammar, which reads its two numerals |
| Height.FiveTenCompact | tests/test_height_converter.py:50 | "5ft10in" is 70 |
| Height.SixTwoCompact | tests/test_height_converter.py:51 | "6ft2in" is 74 |
| Height.SixFeetSpaced | tests/test_height_converter.py:55 | "6 ft" is 72 |
| Height.SixFeetCompact | tests/test_height_converter.py:58 | "6ft" is 72 |
| Height.FeetTextShadowed | height_utils/converter.py:83-101 | whatever the feet-only text grammar matches, the text grammar has already matched with 0 inches |
| Height.InchTextHeight | height_utils/converter.py:103-110 | `N in`, with any inch word in any case and any whitespace run, empty included, before it, reads as N |
| Height.SeventyFourCompact | tests/test_height_converter.py:65 | "74in" is 74 |
| Height.TwoFootMarksRejected | height_utils/converter.py:112-113 | "5'10'11" matches no grammar and is no height |
| Height.DigitStringHeight | height_utils/converter.py:56-58 | a digit string below 2^53 reads as its own value |
| Height.BlankHeight | height_utils/converter.py:50-54 | a whitespace-only string is no height |
| Height.NotAFloatText | height_utils/converter.py:56-60 | `float()` refuses text whose first character is no digit, sign or point and which is not `nan`, `inf` or `infinity` |
| Height.NoLeadingDigitNoMatch | height_utils/converter.py:62-113 | no pattern matches text that does not begin with a digit |
| Height.NonNumericHeight | height_utils/converter.py:50-113 | stripped text that is no float and does not begin with a digit is no height |
| Height.InvalidHeight | tests/test_height_converter.py:88 | "invalid" is no height |
| Height.AbcHeight | tests/test_height_converter.py:90 | "abc" is no height |
| Height.NotFloatAt | height_utils/converter.py:57-60 | a string with a character no float literal uses there is not read as a float |
| Height.InchesToHeightStr | height_utils/converter.py:135-149 | `None` or a negative number gives `None`; an unknown format raises `ValueError`; otherwise feet and inches below 12 that add up to the number are written in the format |
| Height.InchesWritten | height_utils/converter.py:138-147 | the text is the quotient and remainder by 12 in the format |
| Height.FormattedReadsBack | height_utils/converter.py:138-147 | feet and inches written in any format read back as 12·feet + inches |
| Height.InchesRoundTrip | height_utils/converter.py:116-149 | every number of inches written in any format reads back as that number |
| Height.HyphenStringRoundTrip | height_utils/converter.py:63-67 | a hyphen height without leading zeros and with fewer than 12 inches reads as its number, and that number is written back as the same text |
| LocationParser.AliasResolved | location_utils/parser.py:79-82 | the text is replaced by its alias when its upper-cased form has one |
| LocationParser.StandardizeCountryName | location_utils/parser.py:62-141 | a missing, empty or blank country gives `None`; without the registry, the stripped text and no codes; with it, the registry's answer for the alias-resolved stripped text |
| LocationParser.AliasIgnoresCase | location_utils/parser.py:79-82 | spellings of an alias that differ in case and surrounding whitespace reach the registry as the same country |
| LocationParser.EnglandIsUnitedKingdom | location_utils/parser.py:19-20 | "england" and "England" both reach the registry as "United Kingdom" |
| LocationParser.StripEach | location_utils/parser.py:196 | each piece is stripped |
| LocationParser.Pieces | location_utils/parser.py:191-196 | the stripped location splits into one more piece than it has commas |
| LocationParser.ParseCityCountry | location_utils/parser.py:188-225 | `None` for a missing, blank or comma-free location; a result always has a non-empty city and country text |
| LocationParser.CountryEntry | location_utils/parser.py:219-223 | the country entry is the standardiser's answer exactly when asked to standardise, the raw text otherwise |
| LocationParser.CityPart | location_utils/parser.py:203-209 | the city is the pieces before the last joined by ", " |
| LocationParser.ParsedParts | location_utils/parser.py:196-223 | a location with a comma is parsed exactly when the city and the last piece are non-empty; then the country text is the last piece and the city the earlier pieces joined |
| LocationParser.CityCountryRejoin | location_utils/parser.py:196-209 | city + ", " + country text is the stripped pieces of the input joined by ", " |
| LocationParser.NoCommaNoLocation | location_utils/parser.py:198-200 | "Paris" is not parsed |
| LocationParser.EmptyCityOrCountry | location_utils/parser.py:211-212 | ", England" and "London, " are not parsed |
| LocationParser.TrailingComma | location_utils/parser.py:211-212 | a location ending in a comma has an empty country and is not parsed |
| LocationParser.LondonEngland | location_utils/parser.py:167-171 | "London, England" without standardising gives city "London" and country "England" |
| Text.Split | location_utils/parser.py:196 | `split(',')` gives one more piece than there are commas, and no piece contains a comma |
| Text.JoinSplit | location_utils/parser.py:196-209 | joining the pieces of a split with the separator gives the string back |

## Left out

- Missing values (`pd.isna`, `NaN` keys): names, states and cities are strings. The missing-name branches of `normalize_hs_name`, `extract_disambiguator`, `categorize_school_type` and `standardize_suffix` are not modelled. A missing name cell in the batch pass is read as the empty name.
- Nces.OptionalCell: a state or city cell that is missing or not a string is read as no state or city. In the source a `NaN` or boolean cell would reach `.upper()` and raise.
- Non-ASCII text: `upper`, `lower`, `title`, `strip` and the regex classes `\s`, `\d` and `\b` follow their ASCII behaviour. The `′` and `″` marks of the height grammar are modelled.
- Height.HeightToInches: float arguments and float strings with a point, an exponent, `nan` or `inf` are not computed numerically. A string `float()` reads as a fraction or with an exponent gives `RoundedFloat(text)` instead of `int(round(...))`. Integers and signed digit groups are exact, including the rounding to the nearest double above 2^53.
- Height.TextHeight: the text starts with its numeral and, when it has an inch word, ends with it. Leading whitespace, and whitespace after the inch word, which `strip` removes before any grammar is tried, are outside this lemma.
- Height.InchTextHeight: the text starts with its numeral and ends with the inch word. Whitespace before or after, which `strip` removes, is outside this lemma.
- Height.InchesToHeightStr: takes an optional integer. A float argument and its `round` are not modelled.
- The NCES loaders and file helpers (`get_data_directory`, `find_latest_*`, `load_ccd_data`, `load_pss_data`, `load_and_prepare_all_nces`, `download_instructions_*`, `print_download_instructions`) and the column reshaping of `prepare_nces_for_matching` are file I/O and static text. A prepared directory is given as a sequence of `NcesRow` records. `batch_match_to_nces` takes that sequence and does not load it.
- The summary print of `batch_match_to_nces` is output only. It divides by the number of rows, so it fails on an empty frame.
- Nces.BatchMatchToNces: requires the name column to exist (or to be one of the added columns). The source raises `KeyError` at `row[name_col]` (hs_standardization/nces_data.py:547) on the first row when it is missing; that error is not modelled. The matched count is only printed by the source (hs_standardization/nces_data.py:564-567); the model returns it so that its value can be stated.
- Mapping.ApplyMapping: requires the original-name column to exist, and its mapping table always has its columns. The source raises `KeyError` for a missing original column (hs_standardization/mapping.py:267), and for the column-less frame that an empty list of mappings gives (hs_standardization/mapping.py:148 and 216, raising at 254); these errors are not modelled.
- pycountry: the exact-name, alpha-2, alpha-3 and fuzzy lookups of `standardize_country_name` are one function parameter, `Registry`, applied to the alias-resolved text. Whether the library is installed is a boolean parameter.
- pandas internals: sort stability, the column order of a frame, dtypes, and the row index (it is the default integer index). Frames are modelled as named columns of cells.
- `web_scraper/scraper.py`, the `__init__.py` files and `setup.py`: network fetching and packaging. They are not part of this model.
