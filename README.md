# Participant roster of the Purwakarta competition, modelled in Dafny

The application shows the participants of a school competition held at
Purwakarta. Each participant is a record with these fields:

- name (`Nama Lengkap Siswa/i`);
- school (`Sekolah Asal Siswa/i`);
- `Level`;
- competition field (`Bidang Kompetisi`: `Matematika`, `Sains`, or `Mengikuti keduanya …` for pupils who take both).

This project models the functions of `src/App.jsx` that the records pass
through, and the CSV writer beside them:

- **Loading** (`Loader`). Every text field is trimmed. The name is title-cased
  (`toTitleCaseSmart`, modules `TitleCase` and `Normalize`). The school name
  is title-cased and, when it matches the `SD/SDS (Plus) <n> Al Muhajirin`
  pattern, rewritten to the canonical `SDS Plus <n> AlMuhajirin` (`School`).
- **Level list** (`Views.AllLevels`). The distinct levels in sort order.
- **Filtering** (`Filter`). Filters by level, subject (`mapel`) and search text.
  A record whose field is `Mengikuti keduanya…` becomes a Matematika row
  and/or a Sains row.
- **Room assignment** (`Rooms`). Rows are grouped by subject and level. Each
  group gets its rooms from a fixed table. With two rooms, the first
  `ceil(n/2)` rows of a group go to the first room and the rest to the
  second. Every row gets a `Ruang` field and keeps its place.
- **Room views** (`Views`). The list of room names, the room filter, and the
  totals per category.
- **CSV text** (`Csv`). `downloadCSV`, which nothing calls, would write the
  header line and one line of quoted cells per row. A reader (`Csv.Parse`) recovers the header and the
  cells.

Supporting modules:

- `Text`: JavaScript's `trim`, `toLowerCase`, `\s` and `\w`, `includes`, `join`, and the order `sort()` uses.
- `Records`: objects as ordered association lists, with `r[k]`, `{...r, k: v}`, `Object.keys` and `String(x)`.
- `Opt`: an option type.
- `TokenView`: `toTitleCaseSmart` read as one pass over the tokens of the lowered text. It is the bridge for the proofs that normalising twice is normalising once.

Loops and in-place updates become methods with loop invariants. Each method
is proved to compute a specification function: `Filter.Filter` computes
`FilterSpec`, `Rooms.AssignRooms` computes `Assigned`, and
`Loader.LoadRecord` computes `Loaded`. The properties are lemmas about those
functions.

Four behaviours of `src/App.jsx` worth noting:

- **Header names in the CSV export are not quoted.** A CSV text therefore
  reads back faithfully only when no header name holds a comma or a line
  feed. `Csv.CsvRoundTrip` requires exactly that.
- **`totalKeduanya` tests the untrimmed field.** The filter tests the trimmed
  one. On loaded data the two agree (`Views.LoadedDual`).
- **The `QlP` replacement is dead code.** The title-cased text can never
  contain the token `QlP` (`Normalize.QlpRuleNeverFires`).
- **`downloadCSV` is defined but never called.** It is not exported, and the
  only export button writes a PDF (src/App.jsx:242-297). The CSV text is
  therefore modelled for the function on its own, not as a stage the records
  reach.

## Model

| member | source | states |
|---|---|---|
| Text.TrimEnds | src/App.jsx:78-80 | the result of `trim()` is a slice of the input with only whitespace cut off either side, and neither starts nor ends with whitespace |
| Text.TrimmedEnds | src/App.jsx:78-80 | a text is its own trim iff it is empty or neither starts nor ends with whitespace |
| Text.TrimIdempotent | src/App.jsx:78-80 | trimming twice is trimming once |
| Text.StrLessTotal | src/App.jsx:98 | the sort order compares any two distinct texts one way or the other |
| Text.StrLessTransitive | src/App.jsx:98 | the sort order is transitive |
| Records.GetPut | src/App.jsx:208 | after `{...r, k: v}`, field `k` reads `v` and every other field reads as before |
| Records.KeysPut | src/App.jsx:208 | writing an existing field keeps the key order; a new field goes last |
| Records.PutKeepsUnique | src/App.jsx:208 | a record stays an object with distinct keys when a field is written |
| Records.DecimalRoundTrip | src/App.jsx:105 | `String(n)` of an integer level is a minus sign exactly when `n < 0`, then digits that read back as the magnitude |
| Records.DecimalTrimmed | src/App.jsx:105 | a numeric level's text is unchanged by `trim()` |
| TitleCase.TitleWordsIsCapFrom | src/App.jsx:30-38 | the split, map and join capitalisation equals the character-level definition `CapFrom` |
| TitleCase.TitleWordsAt | src/App.jsx:29-38 | the output is as long as the input; a character is upper-cased iff it opens the text or follows whitespace or a hyphen, and is lower-cased otherwise; whitespace and hyphens stay in place |
| TitleCase.TitleWordsOfJoin | src/App.jsx:30-38 | plain words joined by single spaces or hyphens come out capitalised word by word, separators kept |
| TitleCase.HyphenCapIsCapFrom | src/App.jsx:34-37 | capitalising each hyphen-separated part agrees with the character-level definition |
| Normalize.TokensPartition | src/App.jsx:41-55 | the token list concatenates back to the text, and word and non-word runs alternate (the `\b` positions) |
| Normalize.TokensOfAlternating | src/App.jsx:41-55 | an alternating list of maximal runs is exactly the token list of its concatenation |
| Normalize.ApplyRulesIsLookup | src/App.jsx:41-52 | when no replacement is the key of a later rule, the chain of replaces equals one table lookup per word |
| Normalize.AcronymRulesDoNotChain | src/App.jsx:41-52 | no acronym replacement is the key of a later rule |
| Normalize.AcronymsWholeWords | src/App.jsx:41-52 | the acronym fix-up keeps the token count and replaces each token by its table lookup; a word inside a longer word is left alone |
| Normalize.WholeWords | src/App.jsx:41-52 | for any table of word-to-word replacements in which no replacement feeds a later rule, the chain of `\b…\b` replaces keeps the token count and replaces each token by its lookup |
| Normalize.NotAcronym | src/App.jsx:41-52 | a token that cannot be a table key is not changed |
| Normalize.QlpRuleNeverFires | src/App.jsx:51 | no token of title-cased text is `QlP`, so dropping that rule changes nothing |
| Normalize.EmptyNameUnchanged | src/App.jsx:28 | the empty name is returned unchanged |
| Normalize.SditExample | src/App.jsx:29-57 | `sdit nurul iman` in any case becomes `SDIT Nurul Iman` |
| Normalize.AlMuhajirinSeparatedExample | src/App.jsx:55 | `al muhajirin` or `al-muhajirin` in any case becomes `AlMuhajirin` |
| Normalize.AlMuhajirinJoinedExample | src/App.jsx:55 | `almuhajirin` in any case becomes `AlMuhajirin` |
| Normalize.CollapsePrefix | src/App.jsx:55 | tokens before any `al` or `almuhajirin` go through the fix-up unchanged, whatever follows them |
| Normalize.CollapseNoMatch | src/App.jsx:55 | tokens holding no `al` and no `almuhajirin` in any case go through the fix-up unchanged |
| Normalize.CollapseTriple | src/App.jsx:55 | at the first match, `al`, one space or hyphen and `muhajirin` in any case become `AlMuhajirin`; the tokens before it are kept and the fix-up goes on after it |
| Normalize.CollapseWord | src/App.jsx:55 | at the first match, the single word `almuhajirin` in any case becomes `AlMuhajirin`, with the same context |
| TokenView.TitleCaseByTokens | src/App.jsx:27-57 | title-casing a non-empty text equals one pass over the tokens of its lowered form: capitalise, look up the acronym, merge `al`+`muhajirin` |
| TokenView.TitleCaseEnds | src/App.jsx:27-57 | title-casing gives the empty text only for the empty text, and keeps whether the first and the last character are whitespace |
| TokenView.TitleCaseTrimmed | src/App.jsx:27-57 | a trimmed name stays trimmed after title-casing |
| TokenView.TitleCaseIdempotent | src/App.jsx:27-57 | title-casing twice gives what title-casing once gives |
| School.SchoolPartsOfText | src/App.jsx:62-63 | completeness: every text the school pattern describes is parsed into the pieces it was made of |
| School.SchoolPartsSound | src/App.jsx:62-63 | soundness: whatever the parser accepts matches the pattern and prints back to the input, so the captured number is unique |
| School.NormalizeMatched | src/App.jsx:59-66 | a name whose title-cased form matches becomes `SDS Plus <digits> AlMuhajirin`, with a non-empty run of digits |
| School.NormalizeUnmatched | src/App.jsx:59-69 | a name whose title-cased form matches nothing is only title-cased |
| School.SdPlusDropsTail | src/App.jsx:62-66 | `SD Plus <n> AlMuhajirin` followed by a non-word character and more text on one line becomes `SDS Plus <n> AlMuhajirin` |
| School.SdPlusAlPlace | src/App.jsx:27-66 | `sd plus <n> al muhajirin, <place>` in any case title-cases to `SD Plus <n> AlMuhajirin, <Place>` and normalises to `SDS Plus <n> AlMuhajirin`, for any digits and any plain place word |
| School.PurwakartaExample | src/App.jsx:27-66 | `SD Plus 5 Al Muhajirin, Purwakarta` in any case title-cases to `SD Plus 5 AlMuhajirin, Purwakarta` and normalises to `SDS Plus 5 AlMuhajirin` |
| School.NormalizeSchoolNameIdempotent | src/App.jsx:59-69 | normalising a school name twice gives what normalising it once gives |
| School.NormalizeSchoolNameTrimmed | src/App.jsx:59-69 | a trimmed school name stays trimmed after normalising |
| Loader.TrimAll | src/App.jsx:78-80 | the loop over the keys trims every text field in place and leaves other values alone |
| Loader.LoadRecord | src/App.jsx:76-88 | loading a record gives `Loaded`: trimmed, then name and school normalised |
| Loader.LoadedFields | src/App.jsx:77-87 | field by field, a loaded record holds the trimmed text, normalised for name and school; other values and missing fields are as before |
| Loader.LoadedKeys | src/App.jsx:77-87 | loading keeps the field names and their order, and keeps them distinct |
| Loader.LoadedTrimmed | src/App.jsx:77-87 | every text field of a loaded record is its own trim |
| Loader.LoadedIdempotent | src/App.jsx:76-88 | loading a loaded record gives it back unchanged |
| Loader.LoadIdempotent | src/App.jsx:76-88 | loading a loaded dataset gives it back unchanged |
| Filter.Filter | src/App.jsx:101-135 | the filter loop returns `FilterSpec`: each record's rows, record after record |
| Filter.Visit | src/App.jsx:104-132 | one pass of the loop body pushes exactly `RowsOf`: nothing when the level test or the search fails, the expanded rows for a dual-subject record, the record itself when the subject fits |
| Filter.FilterAppend | src/App.jsx:103-133 | the output keeps input order: filtering a concatenation concatenates the results |
| Filter.Dropped | src/App.jsx:105-131 | a record gives no row iff it fails the level test or the search, or it is a single-subject record of another subject |
| Filter.SingleKept | src/App.jsx:129-131 | a passing single-subject record is emitted once, unchanged |
| Filter.WithFieldFields | src/App.jsx:121-126 | the expanded row differs from the record only in its competition field |
| Filter.DualExpanded | src/App.jsx:117-127 | a passing dual record gives Matematika then Sains when no subject is chosen, and one row when Matematika or Sains is chosen; other fields are equal |
| Filter.RowsPass | src/App.jsx:105-115 | every emitted row comes from a record that passes the level test and the search |
| Filter.NoCriteriaLength | src/App.jsx:101-135 | with no criterion set, the output has one row per record plus one per dual-subject record |
| Rooms.Half | src/App.jsx:193 | `Math.ceil(n / 2)`: twice the result is `n` or `n + 1` |
| Rooms.GroupKeysAt | src/App.jsx:144-146 | each row's group key is its trimmed field and trimmed level |
| Rooms.KeyOfRow | src/App.jsx:144-146 | the key computation gives the row's group key |
| Rooms.GroupRows | src/App.jsx:142-149 | the grouping loop builds `Groups`: one row appended to its key's list at a time, a key's list starting empty |
| Rooms.GroupsComplete | src/App.jsx:142-149 | the finished grouping map has exactly the keys that occur, each with all its rows in input order and as many rows as the key occurs |
| Rooms.GroupsSpec | src/App.jsx:142-149 | the grouping function holds a key iff it occurs, with that key's rows in order |
| Rooms.GroupSize | src/App.jsx:142-149 | a group holds as many rows as its key occurs |
| Rooms.GroupMembers | src/App.jsx:142-149 | every row in a group has that group's key |
| Rooms.GroupAssignments | src/App.jsx:189-195 | the rank-to-room map of one group is `Assignments`: one room for every rank, or the first `ceil(n/2)` ranks to the first of two rooms and the rest to the second, or empty |
| Rooms.AllAssignments | src/App.jsx:185-197 | every group gets the assignment map for its room list and size, and no other key is present |
| Rooms.AssignmentsLookup | src/App.jsx:206 | looking up a rank in a group's map, with `''` for a missing rank, gives `RoomAt` |
| Rooms.CountsSize | src/App.jsx:200-207 | the index tracker holds a key iff it has occurred, with the number of times it has occurred |
| Rooms.RankBelowSize | src/App.jsx:205 | a row's rank within its group is less than the group's size |
| Rooms.PlaceStep | src/App.jsx:204-207 | the tracker gives the row's rank in its group, and the lookup gives that rank's room |
| Rooms.PlaceRows | src/App.jsx:200-209 | the result loop returns `Assigned`: every row with its room added, in input order |
| Rooms.AssignRooms | src/App.jsx:137-212 | the whole room assignment returns `Assigned`, including `[]` for no rows |
| Rooms.Assigned | src/App.jsx:201-209 | one output row per input row |
| Rooms.AssignedAt | src/App.jsx:201-209 | output row `i` is input row `i` with its room written |
| Rooms.AssignedFields | src/App.jsx:208 | an output row holds its room in `Ruang` and equals its input row in every other field; `Ruang` goes last if it was new |
| Rooms.RoomsForShape | src/App.jsx:151-182 | a room list has at most two rooms, none with an empty name, and two rooms are distinct |
| Rooms.RoomIsListed | src/App.jsx:190-207 | a row's room is `''` iff its group has no room; otherwise it is one of its group's rooms, and the only one when there is one |
| Rooms.TwoRoomPrefix | src/App.jsx:192-194 | in a two-room group, after any prefix of the rows, the first room has the first `ceil(n/2)` of them and the second room has the rest |
| Rooms.TwoRoomSplit | src/App.jsx:192-194 | a two-room group of `n` rows puts `ceil(n/2)` rows in the first room and `floor(n/2)` in the second |
| Rooms.MatematikaLevel1 | src/App.jsx:152-155 | when every row is Matematika Level 1, output row `i` receives `Ruang 1 Mekkah` in `Ruang` iff `i < ceil(n/2)`, otherwise `Ruang 2 Jeddah` |
| Rooms.FiveRowsExample | src/App.jsx:192-194 | of five Matematika Level 1 rows, the first three receive `Ruang 1 Mekkah` and the last two `Ruang 2 Jeddah` |
| Views.InsertSorted | src/App.jsx:98 | inserting into a strictly sorted list keeps it strictly sorted and adds exactly the new text |
| Views.SortSpec | src/App.jsx:98 | the sorted list is strictly increasing and holds exactly the texts it was given |
| Views.SortedUnique | src/App.jsx:98 | two strictly increasing lists with the same texts are equal |
| Views.SortOrderFree | src/App.jsx:96-98 | the sorted list does not depend on the order in which the set was filled |
| Views.AllLevels | src/App.jsx:95-99 | the level list is strictly increasing, and holds a text iff some record has a truthy level whose `String` is that text |
| Views.AllRooms | src/App.jsx:214-221 | the room list is strictly increasing, and holds a text iff it is the non-empty trimmed room of some row |
| Views.AssignedRoomsListed | src/App.jsx:151-221 | every room in the room list is a room of the table for the group of the row that carries it |
| Views.RoomsForTrimmed | src/App.jsx:151-182 | the room names of the table are their own trim |
| Views.KeepRoomMembers | src/App.jsx:225 | the room filter keeps a row iff it is in the room, and keeps no more rows than it is given |
| Views.KeepRoomAppend | src/App.jsx:225 | the room filter keeps the input order |
| Views.ByRoomCount | src/App.jsx:223-226 | with a room chosen, the view has exactly one row per input row of that room |
| Views.OneCategory | src/App.jsx:229-231 | no row counts as both Matematika and Sains, and a dual row counts as neither |
| Views.TallyBound | src/App.jsx:228-231 | the total is the number of rows, and the three category counts add up to at most the total |
| Views.LoadedDual | src/App.jsx:231 | on a loaded record, the untrimmed dual test of the totals agrees with the filter's trimmed one (src/App.jsx:117) |
| Views.BothCountsExtraRows | src/App.jsx:228-231 | on loaded data with no criterion set, the filtered table (src/App.jsx:101-135) has `total + totalKeduanya` rows |
| Csv.Quote | src/App.jsx:13 | a quoted cell starts and ends with `"` |
| Csv.EscapeLength | src/App.jsx:12 | escaping adds one character per `"` in the text |
| Csv.ParseQuotedEscape | src/App.jsx:12-13 | a quoted, escaped cell reads back as its text, and the reader stops right after the closing quote |
| Csv.ParseLineCells | src/App.jsx:10-14 | a data line reads back as its cell texts |
| Csv.ParseLinesTable | src/App.jsx:9-14 | the data lines read back as the table of every row's cell texts |
| Csv.SplitJoin | src/App.jsx:8-9 | splitting the header line at commas gives back the header names when none holds a comma |
| Csv.HeaderFirst | src/App.jsx:8-9 | the text up to the first line feed is the header line when no header name holds a line feed |
| Csv.CsvRoundTrip | src/App.jsx:7-15 | for header names without commas or line feeds, reading the CSV text gives the first row's keys and every row's cell texts |
| Csv.CsvRecords | src/App.jsx:7-15 | no rows gives no text; otherwise there is one data line and one data record per row, the `k`-th made from row `k` |
| Csv.EmptyCell | src/App.jsx:11-13 | a missing or `null` field gives the empty quoted cell `""` |
| Csv.CellAt | src/App.jsx:10-13 | cell `k` of a line is the quoted text of field `headers[k]` |

## Left out

- Rendering: the React components, state hooks and `useMemo` caching (src/App.jsx:232-398). The filter criteria and the chosen room are parameters here.
- PDF export (src/App.jsx:242-296): it is a call into the jsPDF library, and its layout is not modelled.
- The file download in `downloadCSV` (the `Blob`, object URL and link element, src/App.jsx:16-24) and its file name: browser I/O. Only the CSV text is modelled. The `!rows` guard becomes "a list of records".
- The dataset (`label_data_clean.json`) is not part of this model. It is an input, `data`.
- Field values are texts, integers and `null`. Floating-point numbers, booleans and nested objects are not modelled, nor is `String(x)` of them.
- `toLowerCase` and `toUpperCase` are modelled on ASCII letters only. Other letters, such as accented ones, keep their case in the model.
- The sort order compares characters as Dafny code points. JavaScript compares UTF-16 code units, which differ only for characters outside the Basic Multilingual Plane.
- The group key `subject|level` is modelled as a pair. In the source, a field or level containing `|` would be split back differently at src/App.jsx:187.
- Rooms.AllAssignments: the groups are visited in an unspecified order, not in `Map` insertion order. Each group's assignment depends only on that group, so the result is the same.
- Views.AllLevels: a level stored as the number `1` and one stored as the text `"1"` are two entries in a JavaScript `Set`. The model keeps the list of level texts, so they are one entry.
- toTitleCaseSmart: only text input is modelled. The source returns a non-text input unchanged, but it is only called on texts.
- Csv.CsvRoundTrip: requires a first row with at least one field and header names without commas or line feeds, because header names are written unquoted.
