# Wikidata place grouping — a Dafny model

This project models the data preparation in `WikidataClient`, the class a
Laravel application uses to fetch historical police and persecution sites from
Wikidata and sort them into map-marker categories:

- the whitespace normalisation applied to a SPARQL query before it is sent
  (`trim`, then every run of two or more `\s` characters becomes one space);
- `filterPlaceData`, which reduces every property wrapper of a result row to
  its `value` entry;
- `convertPlaceData`, which turns the `coordinates` string
  `lat,lng|lat,lng|…` into an ordered list of `{lat, lng}` records;
- `groupFilteredPlacesByType`, which strips the entity prefix from the
  row's instance URLs. It then appends the normalised row to every category
  of `PLACE_GROUPS_IDS` that shares a Q-id with it, and logs one warning for a
  row that no category takes;
- the category table `PLACE_GROUPS_IDS` itself.

Modules:

- `Text` (`text.dfy`) models the PHP string built-ins these use: `trim`,
  the `\s\s+` replacement, `explode`, `implode` and `str_replace`.
- `Query` (`query.dfy`) models the query normalisation.
- `Places` (`places.dfy`) models one row and the two reshaping steps.
- `Classifier` (`classifier.dfy`) models the category table and the grouping.

Rows are maps from property name to wrapper map. After filtering, a place maps
each property to a reduced `Wrapper` or, for `coordinates`, to `Points`. The
grouping returns a map from category name to its places, plus the sequence of
warnings the logger would have received.

The grouping is described three times:

- by the methods, which follow the loops of the source;
- by the functions `Group` and `Warnings`, which say what a category and
  the warning log hold after a prefix of the rows, one row at a time;
- by a reference definition that filters all normalised rows (or all
  warnings) by a flag per row, with no loop order at all.

The methods' postconditions tie the first two together, and the lemmas
`GroupKeeps` and `WarningsKeep` tie the second to the third. The lemmas state the
properties the program promises: key completeness, membership exactly when a
Q-id is shared, input order with at most one copy per group, one warning per
unmatched row, the shape of the parsed coordinates, and idempotence of the
query normalisation.

## Model

Some definitions carry no contract of their own; the rows of the lemmas
about them state what they mean. `Classifier.Matches` (line 244) is stated
by `Classifier.MatchesShared`. `Classifier.WarningOf` (lines 251-256) is
stated by `Classifier.WarningsExact`. `Places.Normalized` (line 235), which
`Classifier.NormalizePlace` computes, is stated by `Places.NormalizedShape`
and `Places.NormalizedKeepsValues`. `Classifier.Group` (lines 243-248) is
stated by `Classifier.GroupStep`, `Classifier.GroupKeeps` and
`Classifier.GroupMembers`, and `Classifier.Warnings` (lines 250-257) by
`Classifier.WarningsStep`, `Classifier.WarningsKeep` and
`Classifier.WarningsExact`.

| member | source | states |
|---|---|---|
| Text.Trim | app/Http/Clients/WikidataClient.php:186 | `trim`: the result is a contiguous slice of the input, everything cut off at either end is in the trim set, neither end of the result is in it, and a string with no trimmable end is returned unchanged |
| Text.Collapse | app/Http/Clients/WikidataClient.php:186 | the `\s\s+` → space replacement: it never lengthens the string, empties only the empty string, and keeps a leading non-space character and the whitespace class of the first character |
| Text.CollapseRun | app/Http/Clients/WikidataClient.php:186 | between text ending and text starting with a non-`\s` character, a run of two or more `\s` becomes exactly one space, a single `\s` stays as it is, and the text on each side is replaced on its own |
| Text.CollapseConcat | app/Http/Clients/WikidataClient.php:186 | the replacement distributes over a cut right after a non-`\s` character |
| Text.CollapseLeadingRun | app/Http/Clients/WikidataClient.php:186 | a leading run of `\s` followed by text or by nothing becomes one space when it has two or more characters and is kept when it has one |
| Text.CollapseKeepsTrailingSpace | app/Http/Clients/WikidataClient.php:186 | a string ending in `\s` still ends in `\s` after the replacement |
| Text.CollapseSeparatesTokens | app/Http/Clients/WikidataClient.php:186 | `"a  b"` becomes `"a b"` |
| Text.CollapseNoDoubleSpace | app/Http/Clients/WikidataClient.php:186 | after the replacement no two adjacent characters are both `\s` |
| Text.CollapseFixpoint | app/Http/Clients/WikidataClient.php:186 | the replacement leaves a string without adjacent whitespace unchanged |
| Text.CollapseKeepsLast | app/Http/Clients/WikidataClient.php:186 | a final non-space character survives the replacement as the final character |
| Text.CollapseKeepsText | app/Http/Clients/WikidataClient.php:186 | the replacement keeps every non-whitespace character, in order |
| Text.Split | app/Http/Clients/WikidataClient.php:239 | `explode`: one piece more than there are separators, and no piece holds the separator |
| Text.JoinSplit | app/Http/Clients/WikidataClient.php:239 | `implode` undoes `explode` |
| Text.SplitJoin | app/Http/Clients/WikidataClient.php:239 | `explode` undoes `implode` for separator-free pieces |
| Text.StripAll | app/Http/Clients/WikidataClient.php:238 | `str_replace(p, '', s)` never lengthens its subject |
| Text.StripAllAbsent | app/Http/Clients/WikidataClient.php:238 | a subject not containing the pattern is left as it is |
| Text.StripAllAround | app/Http/Clients/WikidataClient.php:238 | removal distributes over a character that cannot be part of the pattern (such as `\|`) |
| Query.NormalizeQuery | app/Http/Clients/WikidataClient.php:186 | the sent query never holds two adjacent whitespace characters, and only whitespace changes: the non-whitespace characters of the trimmed query survive in order |
| Query.NormalizeQueryTrimmed | app/Http/Clients/WikidataClient.php:186 | when neither end of the trimmed query is a form feed, the result neither starts nor ends with whitespace or NUL and has no double whitespace |
| Query.NormalizeQueryTrimmedOnlyIf | app/Http/Clients/WikidataClient.php:186 | when an end of the trimmed query is a form feed, the result starts or ends with whitespace, so the condition above is exact |
| Query.NoFormFeedFreeEnds | app/Http/Clients/WikidataClient.php:186 | a query holding no form feed at all meets that condition |
| Query.NormalizedFixpoint | app/Http/Clients/WikidataClient.php:186 | normalising an already normalised query changes nothing |
| Query.NormalizeQueryIdempotent | app/Http/Clients/WikidataClient.php:186 | when neither end of the trimmed query is a form feed, normalising twice equals normalising once |
| Query.FormFeedEscapesTrim | app/Http/Clients/WikidataClient.php:186 | as written: `"\f X"` normalises to `" X"`, which starts with a space, and normalising it again gives `"X"` |
| Query.NormalizeQueryCorrected | app/Http/Clients/WikidataClient.php:186 | with the form feed added to the trim set, every result is normalised (no whitespace or NUL at either end, no double whitespace), and only whitespace changes |
| Query.NormalizeQueryCorrectedIdempotent | app/Http/Clients/WikidataClient.php:186 | with the form feed added to the trim set, normalisation is idempotent for every query |
| Query.TrimAgrees | app/Http/Clients/WikidataClient.php:186 | trimming with two character sets that treat the string's characters alike gives the same result |
| Query.CorrectionAgrees | app/Http/Clients/WikidataClient.php:186 | on queries without a form feed the corrected and the written normalisation agree |
| Places.OnlyValue | app/Http/Clients/WikidataClient.php:273 | `Arr::only($wrapper, 'value')`: the keys are the wrapper's keys intersected with `{value}`, and the kept value is copied |
| Places.FilterPlaceData | app/Http/Clients/WikidataClient.php:270-277 | the key set is unchanged, and every property becomes its wrapper reduced to `value` |
| Places.Segments | app/Http/Clients/WikidataClient.php:299 | the coordinates split into one segment more than there are `\|` |
| Places.PointOf | app/Http/Clients/WikidataClient.php:301-306 | the point's halves are comma-free: the segment is `lat,lng` exactly, or begins with `lat,lng,` |
| Places.FirstTwoFields | app/Http/Clients/WikidataClient.php:301-306 | a segment holding a comma has at least two fields, and its first two fields and their commas are its prefix |
| Places.ParseCoordinates | app/Http/Clients/WikidataClient.php:299-307 | the number of points is the number of `\|` plus one, and point i is the first and second comma-field of segment i |
| Places.ParseFormatted | app/Http/Clients/WikidataClient.php:288-298 | pairs written as `lat,lng` joined by `\|` parse back to the same points in the same order, for any non-empty list |
| Places.ParseOnePoint | app/Http/Clients/WikidataClient.php:299-309 | a single pair `52.1,9.2` gives a one-element list, not a bare point |
| Places.ConvertPlaceData | app/Http/Clients/WikidataClient.php:285-312 | the key set is unchanged, every entry but `coordinates` is untouched, and `coordinates` becomes the parsed point list |
| Places.NormalizedShape | app/Http/Clients/WikidataClient.php:235 | filter then convert: same keys, every other property reduced to `value`, `coordinates` parsed |
| Places.NormalizedKeepsValues | app/Http/Clients/WikidataClient.php:235-237 | the `value` of `instanceUrls` and of `item` survive filtering and conversion unchanged |
| Classifier.PlaceGroupsIdsShape | app/Http/Clients/WikidataClient.php:20-48 | the table has eight distinct category names, exactly `events`, `extPolicePrisons`, `fieldOffices`, `laborEducationCamps`, `memorials`, `prisons`, `statePoliceHeadquarters`, `statePoliceOffices` |
| Classifier.InstanceQIds | app/Http/Clients/WikidataClient.php:238-239 | at least one piece, none holding `\|`, and the pieces joined by `\|` give the instance URLs with every entity prefix removed |
| Classifier.InstanceQIdsOfEntityUrls | app/Http/Clients/WikidataClient.php:237-239 | stripping the entity prefix and splitting on `\|` recovers the Q-ids from their joined entity URLs |
| Classifier.ArrayIntersect | app/Http/Clients/WikidataClient.php:244 | `array_intersect`: every element kept is in both lists, every element in both is kept, and the result is empty exactly when no element of the first list is in the second |
| Classifier.MatchesShared | app/Http/Clients/WikidataClient.php:244 | a non-empty `array_intersect` of the instance Q-ids with the category's Q-ids means exactly that they share one |
| Classifier.Positions | app/Http/Clients/WikidataClient.php:234-248 | the flagged positions, each once, strictly increasing, and every flagged position present |
| Classifier.GroupStep | app/Http/Clients/WikidataClient.php:243-248 | one more row is appended to a category exactly when it matches |
| Classifier.GroupsAfterRow | app/Http/Clients/WikidataClient.php:243-248 | the inner loop's result, taken category by category, is the group of the longer prefix of rows |
| Classifier.WarningsStep | app/Http/Clients/WikidataClient.php:250-257 | one more row adds a warning exactly when no category takes it |
| Classifier.GroupKeeps | app/Http/Clients/WikidataClient.php:234-248 | the group built row by row equals the reference definition: all normalised rows, filtered by whether the category takes each one |
| Classifier.KeepPositions | app/Http/Clients/WikidataClient.php:234-248 | filtering by flags keeps exactly the elements at the flagged positions, in order |
| Classifier.GroupMembers | app/Http/Clients/WikidataClient.php:234-248 | membership and order: a row is in a group if and only if its instance Q-ids meet the category's, rows keep input order, and each appears at most once |
| Classifier.WarningsKeep | app/Http/Clients/WikidataClient.php:250-257 | the warnings built row by row equal the reference definition: all rows' warnings, filtered by whether no category takes each row |
| Classifier.WarningsAfterRow | app/Http/Clients/WikidataClient.php:241-257 | given the inner loop's found flag, one more row adds its warning exactly when the flag is false |
| Classifier.WarningsExact | app/Http/Clients/WikidataClient.php:250-257 | exactly one warning per unmatched row, none for matched rows, each with the raw instance URLs and the item; a row is warned about if and only if it is in no group |
| Classifier.EmptyCategoryStaysEmpty | app/Http/Clients/WikidataClient.php:243-248 | a category with no Q-ids receives no place, whatever the rows |
| Classifier.AddToGroups | app/Http/Clients/WikidataClient.php:243-248 | over a map keyed by exactly the category names, as line 232 builds it: the inner loop keeps the key set, appends the place once to each matching category, leaves the entry of every other category as it was, and reports whether one matched |
| Classifier.GroupPlaces | app/Http/Clients/WikidataClient.php:230-262 | the loops build, for each category, its `Group` of the rows, keyed exactly by the category names, and the `Warnings` of the rows |
| Classifier.GroupFilteredPlacesByType | app/Http/Clients/WikidataClient.php:230-262 | key completeness: the result has exactly the eight category keys, and each holds its `Group` over `PLACE_GROUPS_IDS`, and the warnings are `Warnings` |
| Classifier.HitsOfEntityUrls | app/Http/Clients/WikidataClient.php:237-244 | a place whose instances are the entity URLs of some Q-ids is taken by exactly the categories listing one of them |
| Classifier.EventsAndMemorialsStayEmpty | app/Http/Clients/WikidataClient.php:21-36 | `events` and `memorials`, which list no Q-ids, stay empty for every input |
| Classifier.GroupOfOne | app/Http/Clients/WikidataClient.php:243-248 | a single row is in a group exactly when it matches the category |
| Classifier.WarningsOfOne | app/Http/Clients/WikidataClient.php:250-257 | a single row draws a warning exactly when no category takes it |
| Classifier.OneRowGroups | app/Http/Clients/WikidataClient.php:243-248 | a single row lands in exactly the categories that take it |
| Classifier.OneRowWarnings | app/Http/Clients/WikidataClient.php:250-257 | given the set of names of exactly the categories taking a single row, the row draws its warning exactly when no category of the table carries one of those names |
| Classifier.OnlyInstance | app/Http/Clients/WikidataClient.php:237-244 | a row with a single instance Q-id is taken by exactly the categories listing that Q-id |
| Classifier.TwoInstances | app/Http/Clients/WikidataClient.php:237-244 | a row with two instance Q-ids is taken by exactly the categories listing either of them (multi-membership) |
| Classifier.PrisonIdOnlyInPrisons | app/Http/Clients/WikidataClient.php:37-39 | `Q40357` is listed by `prisons` and by no other category |
| Classifier.PrisonOnly | app/Http/Clients/WikidataClient.php:37-39 | a prison lands in `prisons` only, and draws no warning |
| Classifier.CampIdOnlyInCamps | app/Http/Clients/WikidataClient.php:33-35 | `Q277565` is listed by `laborEducationCamps` and by no other category |
| Classifier.PrisonAndCampHits | app/Http/Clients/WikidataClient.php:33-39 | a prison that is also a labour education camp is taken by exactly those two categories |
| Classifier.PrisonAndCamp | app/Http/Clients/WikidataClient.php:33-39 | a place that is both a prison and a labour education camp is in both groups |
| Classifier.UnlistedId | app/Http/Clients/WikidataClient.php:20-48 | `Q5` is listed by no category |
| Classifier.UnknownInstanceWarns | app/Http/Clients/WikidataClient.php:250-257 | a place whose only instance no category lists is in no group and draws exactly one warning |

## Left out

- The HTTP request to the SPARQL endpoint and the response handling (`app/Http/Clients/WikidataClient.php:188-215`) are left out: they are network I/O. The model starts from the already decoded list of result rows.
- The SPARQL query text (`app/Http/Clients/WikidataClient.php:117-173`) and the property table `PLACE_PROPERTIES` are left out. The grouping never reads them.
- `mergeItemsData` and `groupLocationsByType` are left out. They are stubs that return an empty array.
- The logger (`Log::warning`) is modelled by the returned sequence of warnings. The log message text and log levels are not modelled.
- Places.ConvertPlaceData: requires every `|`-segment to hold a comma. Without one, the source reads an undefined array index; PHP turns that into a notice and a null, which the model does not represent.
- Classifier.GroupFilteredPlacesByType: requires `instanceUrls`, `item` and `coordinates` to hold a `value` in every row. These three are among the properties listed in `PLACE_PROPERTIES` (`app/Http/Clients/WikidataClient.php:53-69`); the source checks none of them, and a row missing one would make it read null. The source reads `item` only for the warning of an unmatched row (line 255), so requiring it on matched rows too is stricter than the source.
- PHP arrays are ordered maps. The result's key order (that of `PLACE_GROUPS_IDS`) is not modelled, because Dafny maps are unordered. The table itself is an ordered sequence, and each group's element order is modelled.
- Classifier.ArrayIntersect: keeps the elements but not the original array keys that PHP's `array_intersect` preserves. Only the count of the result is used.
- PHP strings are byte strings. The model uses `char`. The whitespace class is the six ASCII characters `\s` matches without the `u` modifier.
- Places.ParseOnePoint: only the one-pair coordinates string is stated as a literal example. Multi-point strings are covered by `Places.ParseFormatted` for every list of points.
- Classifier.AddToGroups: the source's inner loop sits inside `groupFilteredPlacesByType`. The model gives it its own method so that each proof stays small.
- Classifier.GroupPlaces: runs the loops over any category table with distinct names. `Classifier.GroupFilteredPlacesByType` applies it to `PLACE_GROUPS_IDS`.

## Findings

| source | as written | input that shows it | evidently intended | confidence | as-written member | corrected member |
|---|---|---|---|---|---|---|
| app/Http/Clients/WikidataClient.php:186 | `trim` strips space, tab, LF, CR, NUL and VT but not the form feed, while `\s` does match the form feed; a leading form feed survives `trim` and is then merged with a following space into a single leading space | `"\f X"` becomes `" X"`; normalising again gives `"X"` | the sent query has no leading or trailing whitespace and normalising is idempotent | low (the endpoint ignores the extra space); not executed | Query.FormFeedEscapesTrim | Query.NormalizeQueryCorrectedIdempotent |
