# Trivia leaderboard scores, modelled in Dafny

The modelled program builds a trivia league leaderboard. It fetches result
pages one by one from an upstream site. It cuts each page into HTML
tables, one table per weekly round, and adds up every team's score over
all rounds and pages. Then it pads the rounds a team missed with zeros and
sorts the teams by total. This project models the pipeline that does this
work: `getScores` and the sort in `formatScores`. It proves what that
pipeline does.

Modules, in pipeline order:

- `Wrappers`: `Option` and `Result`.
- `JsText`: the JavaScript pieces the pipeline leans on:
  - `trim`, over the ECMAScript white space set;
  - ASCII `toUpperCase`;
  - `parseInt`, with its sign, its `0x` prefix, its longest digit run and its NaN;
  - numbers that may be NaN, and `+` on them.
- `Extract`: lines 32-44. Tag stripping, the header row, and one record per
  data row. A record is a `Map` from header (or `undefined`) to cell text.
  The `TypeError`s raised when a `match` finds nothing are errors here.
- `TeamName`: line 49. The key a raw team name is filed under: the first
  non-empty `(...)` group is removed, then the text is trimmed and
  upper-cased.
- `Scores`: lines 47-104, as functions:
  - one row, one table and one page of rows;
  - the merge of the later pages' map;
  - `total_rounds` and the padding;
  - the recursive page chain, over an upstream given as a list of pages.

  A `Board` is the JavaScript `Map`: its keys in insertion order plus the
  entry under each key. A `rounds` array is a sequence of slots, where a
  slot is a hole or a number.
- `Aggregate`: the same steps as the in-place code performs them. A
  `ScoreMap` class is updated by the row loop, the merge loop and the
  padding loop. Each method is proved to leave the map equal to the
  corresponding `Scores` function.
- `Totals`: a team's total equals the sum of its rounds. This holds when
  every credited score is a number and no team appears twice in one
  table.
- `Chain`: properties of the page chain:
  - which pages are fetched, that no other page is read, and when the
    chain succeeds;
  - which slot each table of a page fills;
  - every level returns a padded map;
  - the known duplicate row never matters.
- `Ranking`: lines 108-109. The entries in insertion order, and a stable
  sort by the comparator `b.total - a.total`.

Three behaviours of the code are easy to miss. The model keeps each:

- **The round index restarts on every page.** The code passes the
  `reduce` index, which is the table's position within its own page.
  Rounds from different pages are only joined end to end by the merge. A
  team that first appears on a later page gets no leading zeros for the
  earlier pages, so its rounds are not realigned.
- **Padding happens at every level of the chain.** Each recursive call
  pads its own merged map before it returns it.
- **"total equals the sum of rounds" is not unconditional.** A team that
  appears twice in one table has its slot overwritten while its total
  grows. A score that is not a number makes the total NaN. `Totals`
  proves the invariant under exactly the two conditions that exclude
  these cases.

## Model

| member | source | states |
|---|---|---|
| JsText.Plus | index.mjs:58 | JavaScript `+=` on the totals: a number exactly when both sides are numbers, and then their sum |
| JsText.TrimStart | index.mjs:49 | the leading part removed is all white space, the rest is kept, and it does not start with white space |
| JsText.TrimEnd | index.mjs:49 | the trailing part removed is all white space, the rest is kept, and it does not end with white space |
| JsText.Trim | index.mjs:49 | `trim`: no contract of its own; its meaning is given by `TrimStart`, `TrimEnd`, `TrimIgnoresPadding` and `TrimIgnoresTrailing` |
| JsText.TrimIgnoresPadding | index.mjs:49 | `trim` of a text with any white space before and after it is `trim` of the text |
| JsText.TrimIgnoresTrailing | index.mjs:49 | white space after a text does not change its `trim` |
| JsText.IndexOf | index.mjs:49 | the first position of a character, or absence when the text lacks it |
| JsText.UpperChar | index.mjs:49 | `toUpperCase` on one character: a-z map to A-Z, everything else is unchanged |
| JsText.Upper | index.mjs:49 | `toUpperCase` keeps the length of the text |
| JsText.UpperLetters | index.mjs:49 | `toUpperCase` keeps the length, turns each letter a-z into its capital, and keeps every other character |
| JsText.DigitRun | index.mjs:58 | the longest prefix of digits in the radix: every character in it is a digit, and the next one is not |
| JsText.ParseDigits | index.mjs:58 | `parseInt` of a body gives a number exactly when the body starts with a digit of the radix, and NaN otherwise |
| JsText.ParseInt | index.mjs:58-64 | `parseInt` with leading white space and an optional sign: no contract of its own; its meaning is given by `ParseDigits`, `ParseIntDecimal`, `ParseIntNumeral` and `ParseIntNegativeNumeral` |
| JsText.ParseIntDecimal | index.mjs:58 | `parseInt` reads back the decimal numeral of every natural number, and the numeral with a minus sign as its negation |
| JsText.ParseIntNumeral | index.mjs:58 | any non-empty run of decimal digits, leading zeros included, parses to its value |
| JsText.ParseIntNegativeNumeral | index.mjs:58 | a minus sign followed by decimal digits parses to the negated value |
| Extract.StripTags | index.mjs:35 | the result is no longer than the input, and no `<` in it is followed by a `>`, so no tag remains |
| Extract.StripTagsPlainText | index.mjs:37 | text without `<` passes through unchanged |
| Extract.StripTagsFixedPoint | index.mjs:37 | text with no tag left in it passes through unchanged |
| Extract.StripTagsIdempotent | index.mjs:37 | stripping twice is stripping once |
| Extract.StripTagsDeletesTag | index.mjs:37 | a `<…>` span is deleted whole; the text before it is kept and the text after it is stripped in turn |
| Extract.RecordOf | index.mjs:38-41 | the `reduce` that builds a row's `Map`: no contract of its own; its meaning is given by `RecordOfKeys`, `RecordOfValues` and `RecordOfAligned` |
| Extract.RecordOfKeys | index.mjs:38-41 | a data row's record holds exactly the keys of its cells: the header at each cell's position, or `undefined` past the last header |
| Extract.RecordOfValues | index.mjs:38-41 | under each key, the record holds the stripped text of the last cell stored there |
| Extract.RecordOfAligned | index.mjs:38-41 | with distinct headers and no extra cells, header `i` maps to the stripped text of cell `i` |
| Extract.HeaderTexts | index.mjs:35 | one header per `<th>` span, each the span's stripped text |
| Extract.ExtractRows | index.mjs:36-42 | rows are extracted exactly when every data row has a `<td>` span; then there is one record per row, built from that row's cells, in order |
| Extract.ExtractTable | index.mjs:33-35 | a table without rows, or a header row without `<th>`, is an error; otherwise one record per data row |
| Extract.ExtractTableRecords | index.mjs:33-43 | a table reads exactly when it has rows, its header row has a `<th>` span and every later row a `<td>` span; the three failures carry their own errors; record `i` is data row `i + 1` keyed by the header row's stripped texts |
| Extract.ExtractPage | index.mjs:32-44 | on success there is one row list per table |
| Extract.ExtractPageTables | index.mjs:32-44 | no tables gives the empty list; success exactly when every table extracts; tables stay in document order; a failure carries the first failing table's error |
| TeamName.GroupClose | index.mjs:49 | the `)` that closes a group opened at the start, with at least one character inside and no `)` before it |
| TeamName.GroupCloseExactly | index.mjs:49 | a group opened at the start has no match exactly when no `)` follows or the first `)` follows the `(` at once; otherwise it closes at the first `)` |
| TeamName.StripFirstGroup | index.mjs:49 | removing the first group never lengthens the name |
| TeamName.StripFirstGroupNoOpen | index.mjs:49 | a name without `(` keeps everything |
| TeamName.StripFirstGroupNoClose | index.mjs:49 | a name without `)` keeps everything |
| TeamName.StripFirstGroupRemoves | index.mjs:49 | `base(note)rest` becomes `base` + `rest` when `note` is non-empty: only the first group goes, and a later group in `rest` stays |
| TeamName.StripFirstGroupAfter | index.mjs:49 | text in front that holds no `(` is kept, and the search goes on after it |
| TeamName.StripFirstGroupKeepsEmpty | index.mjs:49 | an empty `()` is no match: it is kept, and the first non-empty group after it is the one removed |
| TeamName.StripFirstGroupBefore | index.mjs:49 | text at the end that holds no `)` is kept |
| TeamName.StripFirstGroupUpper | index.mjs:49 | upper-casing before or after removing the group gives the same text |
| TeamName.Normalise | index.mjs:49 | the team key: group removed, then trimmed, then upper-cased; no contract of its own; its meaning is given by `NormaliseIgnoresCase`, `NormaliseIgnoresPadding` and `NormaliseIgnoresAnnotation` |
| TeamName.NormaliseIgnoresCase | index.mjs:49 | names that differ only in letter case get the same key |
| TeamName.NormaliseIgnoresPadding | index.mjs:49 | names that differ only in surrounding white space get the same key |
| TeamName.NormaliseIgnoresAnnotation | index.mjs:49 | a name followed by a non-empty `(...)` annotation and trailing white space gets the name's own key |
| Scores.ScoreOf | index.mjs:58 | `parseInt(row.get('Score'))`, NaN when the row has no `Score`: no contract of its own; `AddRow`, `AddRowsSlot` and the `parseInt` rows give its meaning |
| Scores.IsDroppedDuplicate | index.mjs:52 | the test for the known duplicate row: no contract of its own; `AddRow`, `DropInRows` and `GetScoresIgnoresDuplicate` give its meaning |
| Scores.RowKey | index.mjs:49-54 | the key a row is credited under, or none when the row is dropped: no contract of its own; `AddRow`, `AddRowsSlot` and `AddRowsElsewhere` give its meaning |
| Scores.SetSlot | index.mjs:59 | `rounds[i] = v` on a sparse array: slot `i` holds `v`; the length grows to `i + 1` if it was shorter; new slots are holes; no other slot changes |
| Scores.Credit | index.mjs:56-67 | an existing team gets the score added to its total and its slot overwritten; a new team is appended with the score as its total, alone at the index after holes; no other team changes; keys stay well formed |
| Scores.AddRow | index.mjs:48-67 | a row without `Team Name` throws; the known duplicate leaves the map unchanged; any other row is credited under its normalised name |
| Scores.AddRows | index.mjs:48-68 | the only error a table can raise is the missing team name; the key order stays duplicate-free and matches the map's keys |
| Scores.AddRowsElsewhere | index.mjs:48-68 | rows credited under other names leave a team's entry, and its presence, as they were |
| Scores.AddRowsSlot | index.mjs:48-68 | after a table, slot `index` of a team's rounds holds the score of the last row for that team; an earlier row for it is overwritten |
| Scores.AddRowsKeepsSlot | index.mjs:48-68 | the rows of round `index` leave every other filled slot of every team as it was |
| Scores.AddRowsFails | index.mjs:48-68 | a table fails exactly when one of its rows has no `Team Name` |
| Scores.AddTables | index.mjs:47-70 | a page's `reduce` keeps the keys well formed, and its only error is the missing team name |
| Scores.AddTablesKeepsSlot | index.mjs:47-70 | tables from position `i` on leave every slot below `i` as it was |
| Scores.AddTablesSlot | index.mjs:47-70 | table `t` of a page is round `t`: slot `t` of a team's rounds holds the score of the last row for it in table `t`, whatever the later tables hold |
| Scores.Unseen | index.mjs:76-84 | the later keys this page lacks, in order, and nothing else |
| Scores.UnseenDistinct | index.mjs:76-84 | the keys appended by the merge contain no duplicates |
| Scores.MergeEntry | index.mjs:77-83 | one turn of the merge loop: no contract of its own; `MergeKeysTeams` gives its meaning |
| Scores.MergeKeys | index.mjs:76-84 | the merge loop over the later keys: no contract of its own; `MergeKeysOrder`, `MergeKeysKeys` and `MergeKeysTeams` give its meaning |
| Scores.MergeKeysOrder | index.mjs:76-84 | the merged key order is this page's keys followed by the later keys this page lacked, in the later order |
| Scores.MergeKeysKeys | index.mjs:76-84 | after the merge loop a key is present exactly when it was present before or is one of the later keys |
| Scores.MergeKeysTeams | index.mjs:76-84 | for every key in both: summed totals and concatenated rounds; a later-only key is inserted unchanged; a current-only key is untouched |
| Scores.Merge | index.mjs:76-84 | the merged map's key order lists every key once |
| Scores.MergeContents | index.mjs:76-84 | the order and key set of the merged map; a shared team gets `t_cur + t_next` and `rounds_cur ++ rounds_next`, so rounds are not realigned; a later-only team is inserted unchanged; a current-only team is untouched |
| Scores.MaxLength | index.mjs:87-92 | the `reduce` over the rounds lengths: no contract of its own; `MaxLengthIsMax` gives its meaning |
| Scores.MaxLengthIsMax | index.mjs:87-92 | the reduce's result bounds every rounds length, equals one of them, and is 0 for no keys |
| Scores.TotalRounds | index.mjs:87-92 | `total_rounds`: no contract of its own; `TotalRoundsIsMax` gives its meaning |
| Scores.TotalRoundsIsMax | index.mjs:87-92 | `total_rounds` is the longest rounds array, and 0 for an empty map |
| Scores.Falsy | index.mjs:97 | `!value.rounds[i]`: a hole, a slot past the end, 0 or NaN; no contract of its own; `PadEqualizes` gives its meaning |
| Scores.PadSlots | index.mjs:96-99 | one team's padded rounds: no contract of its own; `PadEqualizes`, `SumPadSlots` and `Aggregate.PadTeam` give its meaning |
| Scores.Pad | index.mjs:95-101 | keeps the key order and key set and stays well keyed; `PadEqualizes` and `PadBalanced` give the padded contents |
| Scores.PadEqualizes | index.mjs:86-101 | padding keeps keys, order and totals. Every team ends with exactly `total_rounds` slots. A truthy slot is unchanged; a hole, 0 or NaN below `total_rounds` becomes 0; every slot is then a number |
| Scores.MergePadKeepsSlot | index.mjs:76-101 | a filled slot of the page's own map keeps its place through the merge and the padding; a NaN in it becomes 0 |
| Scores.FetchPage | index.mjs:28-29 | a page past the end of the injected list has no tables |
| Scores.TablesOf | index.mjs:28-44 | the tables read from one page: no contract of its own; `ExtractPageTables`, `GetScoresSucceeds` and `ReadsOnlyFetched` give its meaning |
| Scores.RequestsNext | index.mjs:73 | whether a page asks for the next one: no contract of its own; `FetchedConsecutive` gives its meaning |
| Scores.Fetched | index.mjs:73 | the pages a chain reads: no contract of its own; `FetchedConsecutive` and `ReadsOnlyFetched` give its meaning |
| Scores.GetScores | index.mjs:26-104 | a successful result has a well-formed, duplicate-free key order |
| Aggregate.ScoreMap.constructor | index.mjs:47 | `new Map()`: no keys |
| Aggregate.ScoreMap.ScoreRow | index.mjs:48-67 | the in-place row step leaves the map equal to `AddRow`'s result, and unchanged when it throws |
| Aggregate.ScoreMap.ScoreTables | index.mjs:47-70 | the nested table and row loops compute `AddTables` |
| Aggregate.ScoreMap.FoldIn | index.mjs:76-84 | the merge loop leaves the map equal to `Merge` of the old map and the later one |
| Aggregate.ScoreMap.PadRounds | index.mjs:86-101 | the padding loop leaves the map equal to `Pad` of the old map |
| Aggregate.ScoreMap.PadTeamAt | index.mjs:95-100 | only the team under the key changes, and only its rounds are padded |
| Aggregate.ScoreMap.Combine | index.mjs:76-101 | one level of the page chain after the recursive call: merge, then pad |
| Aggregate.PadTeam | index.mjs:96-99 | the `for` loop over one rounds array yields `PadSlots` |
| Aggregate.PadSlotsStep | index.mjs:96-99 | one more turn of the loop pads exactly one more slot |
| Aggregate.ScorePage | index.mjs:46-70 | a fresh map filled from a page's tables equals `AddTables` from the empty map, or carries its error |
| Totals.SumSetPast | index.mjs:59-62 | writing a score past the end of a rounds array adds exactly that score to the sum |
| Totals.CreditBalanced | index.mjs:56-67 | crediting a numeric score to a team that has not played that round keeps every total equal to the sum of its rounds |
| Totals.AddRowBalanced | index.mjs:48-67 | one row of a consistent table keeps totals balanced and does not touch the other teams' rounds |
| Totals.AddRowsBalanced | index.mjs:48-68 | a table with numeric scores and no team twice keeps every total equal to the sum of its rounds |
| Totals.AddTablesBalanced | index.mjs:47-70 | so does a page of such tables, each table being a new round |
| Totals.MergeBalanced | index.mjs:76-84 | summing totals and concatenating rounds keeps totals equal to sums |
| Totals.SumPadSlots | index.mjs:95-100 | padding never changes the sum of a rounds array without NaN |
| Totals.PadBalanced | index.mjs:86-101 | padding keeps every total equal to the sum of its rounds |
| Totals.GetScoresBalanced | index.mjs:26-104 | for an upstream whose pages all have numeric scores and no team twice per table, every total in the result equals the sum of its rounds, none of them NaN |
| Chain.FetchedConsecutive | index.mjs:73 | the chain fetches consecutive pages. Every page but the last had a table and was scored; the last did not request another. The chain ends no later than the first page past the list |
| Chain.ReadsOnlyFetched | index.mjs:26-104 | `getScores(page)` reads no page outside the ones it fetches: two upstreams that agree on those pages give the same result |
| Chain.GetScoresFirstRounds | index.mjs:47-103 | each page counts its rounds from 0: round `t` of a team in `getScores(page)` is the score of its last row in table `t` of that page, a NaN read as 0 |
| Chain.GetScoresSucceeds | index.mjs:26-104 | `getScores` succeeds exactly when every page it fetches can be read and scored |
| Chain.GetScoresPadded | index.mjs:86-103 | whatever any level returns has one rounds length for all teams, and only numbers in them |
| Chain.DropInRows | index.mjs:51-54 | the known duplicate row, inserted anywhere in a table, leaves that table's effect unchanged |
| Chain.AddTablesAlike | index.mjs:47-70 | two lists of tables that score alike table by table score alike as a page |
| Chain.DropInTables | index.mjs:51-54 | the known duplicate row, inserted anywhere in any table of a page, leaves the page's map unchanged |
| Chain.GetScoresAlike | index.mjs:26-104 | `getScores` depends on each page only through whether it reads, how many tables it has, and what they score to |
| Chain.GetScoresIgnoresDuplicate | index.mjs:51-54 | the known duplicate row, inserted anywhere in any table of any page, leaves `getScores` unchanged from every starting page |
| Ranking.Entries | index.mjs:108 | `[...scores_object.entries()]`: no contract of its own; `EntriesOnePerTeam` gives its meaning |
| Ranking.Compare | index.mjs:109 | the comparator `b[1].total - a[1].total`: no contract of its own; `Minus`, `InsertDescending` and `InsertStable` give its meaning |
| Ranking.KeepsAhead | index.mjs:109 | the comparator read as "keep `a` first" (a result that is not positive, or NaN): no contract of its own; `InsertDescending` and `InsertStable` give its meaning |
| Ranking.Insert | index.mjs:109 | one insertion step of the sort: no contract of its own; `InsertPermutes`, `InsertDescending`, `InsertStable` and `InsertDistinct` give its meaning |
| Ranking.Sort | index.mjs:108-109 | the stable sort by the comparator: no contract of its own; `SortPermutes`, `SortDescending`, `SortStable` and `SortDistinct` give its meaning |
| Ranking.Ranked | index.mjs:108-109 | the sorted entries: no contract of its own; `RankedRows` and `RankedOrder` give its meaning |
| Ranking.Minus | index.mjs:109 | JavaScript `-` in the comparator: a number exactly when both totals are numbers, and then their difference |
| Ranking.SortPermutes | index.mjs:108-109 | the sorted entries are a permutation of the entries |
| Ranking.InsertPermutes | index.mjs:109 | placing one entry into the sorted rest adds exactly that entry |
| Ranking.InsertDescending | index.mjs:109 | placing an entry by the comparator keeps numeric totals non-increasing |
| Ranking.SortDescending | index.mjs:109 | with numeric totals the sort yields non-increasing totals |
| Ranking.InsertStable | index.mjs:109 | an entry is placed ahead of every entry with an equal total |
| Ranking.SortStable | index.mjs:109 | with numeric totals, the entries with each total keep their insertion order, as the stable `Array.prototype.sort` does |
| Ranking.InsertDistinct | index.mjs:109 | placing an entry for a new team keeps one entry per team |
| Ranking.SortDistinct | index.mjs:109 | sorting keeps one entry per team |
| Ranking.EntriesOnePerTeam | index.mjs:108 | `entries()` gives one pair per key, with that key's scores, and no key twice |
| Ranking.RankedRows | index.mjs:108-110 | the leaderboard rows are a permutation of the entries: one row per team of the map, carrying that team's scores |
| Ranking.RankedOrder | index.mjs:108-109 | when all totals are numbers, rows come by non-increasing total and equal totals keep insertion order |

## Left out

- The HTTP server, the favicon branch and the port binding (index.mjs lines 1-23) are not modelled. They are I/O.
- The network `fetch` and `response.text()` (lines 28-29) are not modelled. The upstream is a list of pages given as a parameter, and a page past its end has no tables.
- The regular expressions of lines 32, 34, 35 and 37 are not modelled as a regex engine. A page arrives already cut into tables, a table into rows, and a row into its `<th>` and `<td>` span texts. Tag stripping is modelled as the deletion of each `<…>` span. `.` not matching a line break is not modelled.
- `toUpperCase` is modelled for ASCII letters only. Other scripts' case mappings, and mappings that change a string's length, are not modelled.
- Numbers are modelled as exact integers or NaN. JavaScript numbers are IEEE doubles, so `parseInt` of a very long numeral, the `+=` on totals (`JsText.Plus`) and the comparator's subtraction (`Ranking.Minus`) agree with the model only while values stay below 2^53 in magnitude. The sign of a negative zero is not modelled.
- Scores.GetScores: the recursive page chain is modelled as a pure function. Its in-place steps are modelled as methods: `ScorePage` for the row loops and `Combine` for the merge and padding loops. No single imperative method runs the whole chain.
- Aggregate: a `rounds` array is a value. JavaScript's sharing of one array object between the current map and the later pages' map is not modelled. That map is dropped after the merge, so the sharing cannot be observed.
- JsText.Upper: its own contract gives only the length; the letter-by-letter mapping is stated by the lemma `UpperLetters`, so that the pipeline's proofs do not carry a quantifier for every name they see.
- Extract.ExtractTable: its own contract gives the two header errors and the record count; when a table reads, and that each record is keyed by the header row, is stated by the lemma `ExtractTableRecords`, for the same reason.
- TeamName.GroupClose: its own contract gives only the group it finds; when it finds none is stated by the lemma `GroupCloseExactly`.
- Scores.AddRows: its own contract gives the error kind and well-formed keys; what a table does to each team is stated by `AddRowsFails`, `AddRowsSlot`, `AddRowsElsewhere` and `AddRowsKeepsSlot`.
- Scores.AddTables: its own contract gives the error kind and well-formed keys; which slot each table fills is stated by `AddTablesSlot` and `AddTablesKeepsSlot`.
- Ranking.SortDescending: the order is promised only when every total is a number. With a NaN total the comparator is not consistent, and `Array.prototype.sort` leaves the whole order, ties included, to the implementation. The model still places such entries by reading a NaN comparison as 0, and `SortStable` and `RankedOrder` prove that this placement keeps equal totals in insertion order; that tie order is the model's own choice, not something JavaScript promises.
- The HTML template and the rendering of each row (index.mjs lines 110-158) are not modelled. They are presentation only.
