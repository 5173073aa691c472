# pb_tracker core in Dafny

pb_tracker is a Discord bot for Old School RuneScape clans. It collects each
player's boss personal bests (PBs) and keeps them in a Google Sheet: one row
per player, one column per boss, and each cell holds the best time in whole
seconds. This project models the bot's pure core as Dafny functions over
immutable values and proves properties of them.

**Text parsers**
- `parse_rsprofile_properties` and `simple_unescape` (src/bot.py) read a
  RuneLite `rsprofile--1.properties` text (modules `Patterns`, `Escapes`,
  `RsProfile`).
- `_parse_pb` and `parse_profile` (src/profile_parser.py) and
  `lookup_user_profile` (pb-puller.py) are the same parsers with other
  choices (module `ProfileParser`). They take a list of lines instead of a
  file.
- `parse_boss_txt` and the selection of `bossing-info/*.txt` entries from
  an uploaded zip (bot.py) live in module `Bossing`. The zip's files are
  given as (path, text) pairs.

**Sheet reconciliation.** These functions exist in both src/bot.py (the
properties bot) and bot.py (the zip bot):
- `col_to_letter` is in module `Columns`.
- `ensure_boss_columns`, `build_header_map`, `find_user_row`, and the row
  that `add_user_row` appends, are in module `Sheet`.
- `update_best_times` is in module `Reconcile`.

The sheet is a value `Store = seq<seq<string>>`:
- Row 0 is the header row.
- A cell past the end of a row reads as empty.
- `update_cell` is a point update that extends the row when needed.
- `write_headers` overwrites the start of row 0.
- `sheet.append` adds a row at the end.

The two bots are one function parameterised by `Bot`. They differ in two
ways. bot.py's row search reads `values[r][0]` without a guard, so an empty
row before the player's row is an error there. src/bot.py rebuilds the header
map from the re-read sheet after an append.

Supporting modules:
- `Text`: ASCII strip, lower-casing, replace, split/join, splitlines and basename.
- `Numbers`: `int()`, and `float()` followed by `round()` with ties to even.
- `Assoc`: Python dicts as association lists that keep first-insertion order. The account choice and the order of results depend on that order.
- `Sorting`: the stable `list.sort` by a string key.
- `Wrappers`: `Option` and `Result`.
- `Records`: the `{"boss", "fastest"}` entries.

Key behaviour of `update_best_times`:
- Every entry is compared with the snapshot of the player's row read before the loop, never with the cell as already rewritten.
- The model keeps this. It proves that monotonicity and idempotence hold for batches whose labels are distinct ignoring case.
- `Reconcile.DuplicateLabelSlowerWins` shows a duplicate label whose slower time wins.

Behaviour of the code that the model keeps:
- A personal-best line splits at the last `=` that leaves a non-empty value, because the `(.+)=(.+)$` pattern is greedy. src/profile_parser.py splits at the first `=`.
- Labels are unescaped, and values rounded, only when the chosen account's entries are collected (src/bot.py:237-249), not while lines are folded. Two raw labels that unescape alike therefore give two entries.
- `parse_profile` also returns accounts that have no PB lines, with an empty dict.
- The username cell is always written, not only when it differs.
- A player is identified by column 0 (the Discord id) alone.
- There is no per-account isolation of failures. Every error ends the update.

## Model

| member | source | states |
|---|---|---|
| Columns.ColToLetter | src/bot.py:27-34 | for n >= 0 a non-empty string of capital letters, the bijective base-26 name of n + 1; for negative n the loop never runs and the result is "" |
| Columns.ColumnNameRoundTrip | src/bot.py:27-34 | decoding the letters of column n gives n back |
| Columns.ColumnIndexRoundTrip | src/bot.py:27-34 | every non-empty string of capital letters names exactly one column |
| Columns.ColumnNameInjective | src/bot.py:27-34 | distinct columns get distinct letters |
| Columns.ColumnNameExamples | bot.py:24-30 | 0 is "A", 1 "B", 25 "Z", 26 "AA", 701 "ZZ", as in the bot.py copy |
| Escapes.Unescape | src/bot.py:168-177 | unescaping never lengthens a label and leaves a label without backslash as it is |
| Escapes.UnescapeEscape | src/bot.py:173-176 | the four replacements invert the properties-file escaping of space, ':', '=' and '\\' |
| Escapes.UnescapeBetween | src/bot.py:173-176 | one escaped separator between plain text is unescaped exactly once |
| Escapes.UnescapeDocExample | src/bot.py:170 | "duke\\ sucellus" becomes "duke sucellus" |
| Escapes.UnescapeBackslashExample | src/bot.py:176 | a doubled backslash becomes one |
| Numbers.ParseIntShow | src/bot.py:153-156 | `int()` of a time written to a cell gives the time back |
| Numbers.ParseIntShowInjective | src/bot.py:159-161 | distinct times are written as distinct texts |
| Numbers.RoundHalfEven | src/bot.py:242 | `round()` is within one half of its argument and picks the even integer on a tie |
| Numbers.RoundHalfEvenUnique | src/bot.py:242 | exactly one integer meets that description |
| Numbers.ParseSecondsShow | src/bot.py:241-242 | a whole number of seconds is coerced to itself |
| Numbers.ParseDecimalShow | src/profile_parser.py:13 | `float()` of an integer text is that integer |
| Text.Strip | src/bot.py:197 | the stripped line has no surrounding white space and a trimmed line is left alone |
| Text.StripInfix | src/bot.py:197 | the stripped line is what is left of the line once a white-space prefix and a white-space suffix are cut off |
| Text.StripIdempotent | src/bot.py:204 | stripping a stripped value changes nothing |
| Text.JoinSplit | src/profile_parser.py:10-12 | joining the dot-split key with dots gives the key back |
| Text.SplitJoin | src/profile_parser.py:10-12 | splitting parts joined by a separator they do not contain gives the parts back |
| Text.SplitJoinLines | src/bot.py:196 | `splitlines` of lines joined by newlines gives those lines back |
| Text.ReplaceAllShrinks | src/bot.py:173-176 | replacing by something no longer than the pattern never lengthens |
| Text.Basename | bot.py:196 | the base name has no '/', ends the path, and is preceded by '/' when shorter than it |
| Text.BasenameAfter | bot.py:196 | the base name of a directory plus a separator-free name is that name |
| Assoc.Get | src/bot.py:234 | `dict.get` is None exactly when the key is absent |
| Assoc.Put | src/bot.py:204 | dict assignment: the key maps to the value, other keys are unchanged, and a new key goes last |
| Assoc.PutNested | src/bot.py:216 | `setdefault(h, {})[b] = v` updates the inner dict of `h` alone |
| Assoc.PutAllLastWins | bot.py:107 | folding assignments gives each key the value of its last assignment |
| Sorting.LexLeTotal | src/bot.py:252 | any two string keys are comparable |
| Sorting.LexLeTransitive | src/bot.py:252 | string comparison is transitive |
| Sorting.LexLeAntisymmetric | src/bot.py:252 | keys that compare both ways are equal |
| Sorting.SortBySorted | src/bot.py:252 | the sorted list is ordered by the key |
| Sorting.SortByPermutes | src/bot.py:252 | sorting neither adds nor loses an entry (same multiset) |
| Sorting.SortByStable | src/bot.py:252 | entries with equal keys keep their relative order |
| Patterns.LineBody | src/bot.py:188-190 | the `(.+)$` group is non-empty, has no newline, and is the rest of the line less at most one final newline |
| Patterns.LineBodyAccepts | src/bot.py:188-190 | any non-empty newline-free rest, with or without a final newline, matches |
| Patterns.WordLen | src/bot.py:188 | the `(\w+)` run is the longest prefix of word characters |
| Patterns.MatchDecl | src/bot.py:188-189 | a matched declaration line is the prefix, an identifier, the field tag and a non-empty value |
| Patterns.MatchDeclLine | src/bot.py:188-189 | a declaration line built from an identifier and a value matches with exactly them |
| Patterns.DeclareLastWins | src/bot.py:201-211 | an account's type and display name are the stripped values of its last type and displayName lines |
| Patterns.DeclareTypeOrder | src/bot.py:225 | the accounts of `types` come in the order of their first type line |
| Patterns.MatchPb | src/bot.py:190 | a matched PB line is the prefix, an identifier, a dot, a non-empty label, '=' and a non-empty value |
| Patterns.MatchPbGreedy | src/bot.py:190 | the label/value split is at the last '=' that leaves a non-empty value |
| Patterns.MatchPbLine | src/bot.py:190 | a PB line whose value has no '=' matches with exactly its parts |
| Patterns.FoldPbsLastWins | src/bot.py:216 | each (account, label) holds the value of its last PB line |
| Patterns.FoldPbsKeys | src/bot.py:216 | an account is in `pbs` exactly when some line records a PB for it |
| Patterns.FoldPbsOrder | src/bot.py:216 | the accounts of `pbs` come in the order of their first PB line, as dict insertion order gives |
| Patterns.FoldPbsFirst | src/bot.py:216 | the first account of a non-empty `pbs` is the account of the first PB line |
| Patterns.FoldPbsEmpty | src/bot.py:216 | no account is recorded exactly when no record is a PB |
| RsProfile.CollectPbsEmpty | src/bot.py:196-220 | `pbs` is empty exactly when no line records a PB |
| RsProfile.FirstEligible | src/bot.py:225-228 | the loop stops at the first STANDARD account with PBs, or runs out |
| RsProfile.ChooseAccount | src/bot.py:224-232 | the chosen account has PBs; when some STANDARD account has PBs it is the first such account in `types` order, and otherwise it is the first account with PBs |
| RsProfile.ChosenAccount | src/bot.py:224-232 | the same choice in terms of the lines: the chosen account has a PB line; taking the accounts in the order of their first type line, it is eligible (last type line STANDARD and a PB line) whenever one is, no account before it is eligible, and with none eligible it is the first account with PBs, which is the account of the first PB line |
| RsProfile.EligibleAgree | src/bot.py:225-228 | the loop's test (type STANDARD and an entry in `pbs`) agrees, account by account in type-line order, with eligibility read off the lines |
| RsProfile.ChosenEntries | src/bot.py:213-217 | each label of the chosen account holds the value of its last PB line |
| RsProfile.CollectMembers | src/bot.py:237-249 | an entry is returned exactly for each label whose value parses, under its unescaped label |
| RsProfile.ParseProperties | src/bot.py:180-253 | `boss_data` is ordered by lower-cased label |
| RsProfile.ParsePropertiesNoPbs | src/bot.py:219-220 | without PB lines the result is (None, []) |
| RsProfile.ParsePropertiesResult | src/bot.py:234-252 | the name is the chosen account's last display name; the times are exactly its parsed entries, reordered stably by key |
| ProfileParser.SplitCount | src/profile_parser.py:10-11 | the key splits into one more part than it has dots |
| ProfileParser.ParsePbOutcomes | src/profile_parser.py:7-15 | IndexError exactly when the key before the first '=' has fewer than two dots; (None, None, None) exactly when there is no '=' or the value is no number |
| ProfileParser.ParsePbText | tests/profile_parser_test.py:19-27 | `personalbest.rsprofile.H.N=V` parses to (H, N, value of V) |
| ProfileParser.ParseDotted | src/profile_parser.py:9-13 | the hash is the third dotted part and the name is the rest rejoined with dots |
| ProfileParser.ParsePbInvalid | tests/profile_parser_test.py:30-32 | "invalid string" gives (None, None, None) |
| ProfileParser.FirstIndexError | src/profile_parser.py:41-42 | the first line whose `_parse_pb` raises, if any |
| ProfileParser.ParseProfileFails | src/profile_parser.py:41-42 | `parse_profile` raises exactly when some PB line has a key with too few dots |
| ProfileParser.SelectByModeLastWins | src/profile_parser.py:46-48 | a display name maps to the value of the last account of the mode with that name |
| ProfileParser.LastSelectedIs | src/profile_parser.py:46-48 | that account has the mode and the name, and there is none exactly when no account of the mode has the name |
| ProfileParser.SelectedByGets | src/profile_parser.py:46-48 | an account is selected exactly when some account's looked-up type is the mode and looked-up name is the name, and the selected one is such |
| ProfileParser.SelectionByLines | src/profile_parser.py:29-48 | selection in terms of the lines: last declared type equal to the mode and last declared name |
| ProfileParser.ParseProfileKeys | src/profile_parser.py:46-48 | the keys are exactly the display names of accounts whose last type is the mode |
| ProfileParser.ParseProfileValues | src/profile_parser.py:41-48 | each value is the selected account's PBs with the last line per name winning, empty without PB lines |
| ProfileParser.LookupUserProfileResult | pb-puller.py:33-37 | the hash of the last STANDARD account with the name; KeyError exactly when there is none |
| Bossing.StatOfSkips | bot.py:92-104 | blank lines, lines without a space and lines not starting with an integer are skipped |
| Bossing.StatOfText | bot.py:97-107 | the line "n label" states label with value n |
| Bossing.ParseBossTxtLastWins | bot.py:90-108 | each label holds the number of its last line |
| Bossing.ParseBossTxtOfLines | bot.py:90-108 | a file of distinct statistics reads back as those statistics |
| Bossing.BossNameOf | bot.py:196 | the boss name has no '/' |
| Bossing.BossFileNamed | bot.py:189-196 | `bossing-info/<name>.txt` is selected and names boss `name` |
| Bossing.SelectBossEntries | bot.py:188-203 | at most one entry per file |
| Bossing.SelectBossEntriesMembers | bot.py:188-203 | an entry is in the batch exactly when some selected file with a `Fastest Kill` line names it and gives its time |
| Bossing.SelectBossEntriesCons | bot.py:189-203 | the batch is built file by file in archive order: the first file's entry, if any, comes before those of the rest, so two files naming the same boss give two entries in archive order |
| Bossing.SelectBossEntriesSkips | bot.py:189-202 | other files, and files without `Fastest Kill`, contribute nothing |
| Sheet.SetCell | src/bot.py:98-105 | one cell takes the value; every other cell and row is unchanged |
| Sheet.SetCellSame | src/bot.py:98-105 | writing a cell its own value leaves the sheet as it was |
| Sheet.WriteHeaders | src/bot.py:47-54 | the header row is overwritten from column A; the other rows are unchanged |
| Sheet.NewBosses | src/bot.py:62-63 | the new bosses are exactly the requested ones that no non-empty header matches ignoring case |
| Sheet.NewBossesOrder | src/bot.py:63 | the comprehension keeps request order: the new bosses of a concatenation are those of each part in turn, and a single boss is kept exactly when no header knows it |
| Sheet.EnsureBossColumns | src/bot.py:57-69 | the result starts with the headers (or the defaults), the write happens exactly when a boss was missing, and then the written row is those headers followed by the new bosses in request order |
| Sheet.EnsureCovers | src/bot.py:62-66 | every requested boss has a header equal to it ignoring case |
| Sheet.EnsureIdempotent | bot.py:47-57 | for boss names that are non-empty, a second call with the same bosses writes nothing and returns the same headers |
| Sheet.HeaderIndex | src/bot.py:72-73 | the last column whose lower-cased header is the key, or none |
| Sheet.BuildHeaderMapIndex | src/bot.py:72-73 | the header map sends a key to that column |
| Sheet.FindUserRow | src/bot.py:76-82 | the first row at index 1 or later that is non-empty and starts with the id; never the header row; bot.py fails at an earlier empty row |
| Sheet.FindUserRowAgree | bot.py:62-66 | without empty rows the two searches agree |
| Sheet.NewRow | src/bot.py:85-88 | the appended row has the id, the username and blanks, one per header; fewer than two headers is an IndexError |
| Reconcile.WriteColumn | src/bot.py:143-161 | an entry writes only to its header's column, and only when the snapshot cell holds no integer or a larger one |
| Reconcile.Merge | src/bot.py:143-163 | the loop touches only the player's row and counts at most one per entry |
| Reconcile.MergeCount | src/bot.py:159-163 | the count is the number of entries that write |
| Reconcile.MergeCells | src/bot.py:143-161 | each cell ends with the time of the last entry writing it, or keeps its content |
| Reconcile.Prepare | src/bot.py:121-138 | the player's row lies after the header row, holds the id, and has the username written over the snapshot |
| Reconcile.FindFirstRow | src/bot.py:76-82 | the search returns the first row of the player |
| Reconcile.PrepareFound | src/bot.py:115-138 | an existing row is the snapshot; the map uses the ensured headers; only the header row and that row change |
| Reconcile.PrepareAppended | src/bot.py:121-127 | a new row is appended and read back; too few headers, or an append into the header row of an empty sheet, is an error |
| Reconcile.AppendFinds | src/bot.py:121-127 | a row appended below rows of other players is found again as the last row, with the username written and the rows above unchanged |
| Reconcile.UpdateBestTimes | src/bot.py:108-163 | the player's row lies after the header row, and the count is at most the batch size |
| Reconcile.UpdateFound | src/bot.py:108-163 | with an existing row: count, the final row cell by cell, other rows unchanged, and the header row |
| Reconcile.UpdateAppended | bot.py:117-147 | without a row: the append's errors, or the new last row filled in and the other rows unchanged |
| Reconcile.UpdateEmptyRow | bot.py:62-66 | bot.py fails at an empty row before the player's |
| Reconcile.HeaderRowKept | src/bot.py:115-118 | after an update the header row is the ensured headers if written, else unchanged |
| Reconcile.ExpectedNeverWorse | src/bot.py:159-161 | a boss cell holding an integer ends holding one no larger |
| Reconcile.ExpectedDistinct | src/bot.py:147-161 | with distinct labels an entry's cell ends with its time if that improves, else as it was |
| Reconcile.ExpectedKeepsBest | bot.py:140-147 | with distinct labels each entry's cell ends with an integer no larger than its time |
| Reconcile.DuplicateLabelSlowerWins | src/bot.py:133-161 | with a repeated label the later, slower time is the one left in the cell |
| Reconcile.UpdateIdempotent | src/bot.py:108-163 | a second update with the same batch leaves the sheet as it is and counts 0, for labels that are non-empty, distinct ignoring case and not the id or username header |
| Reconcile.BotsAgree | bot.py:110-149 | without empty rows, the two bots produce the same update, unless the header row is empty and left unwritten |
| Reconcile.AppendAgree | bot.py:119-123 | without empty rows and with the ensured headers on the header row, both bots append and find the same row |
| Reconcile.PrepareAgreeMissing | bot.py:110-123 | for a player without a row, both bots prepare the same state |

## Left out

- Discord message handling, replies and client set-up (src/bot.py:258-318, bot.py:152-238) are asynchronous I/O.
- Reading the environment and building credentials and the Sheets client (src/bot.py:11-24, bot.py:10-21) is configuration.
- The aiohttp download and the zip decompression (bot.py:181-198) are I/O. The model starts from the (path, text) pairs of the archive, decoded.
- The Google Sheets calls are pure operations on the store value:
  - `get_sheet` is modelled as the store itself. Its `A1:ZZ` range, which caps a read at 702 columns, is not modelled.
  - Google's trimming of trailing empty cells and rows is not modelled.
  - The A1 range strings are not modelled beyond `col_to_letter`.
- `sheet.append` puts the row directly after the last row of the store. Google's table detection may differ.
- A cell written with an integer is read back as its decimal text (`IntToString`). The sheet's own number formatting is not modelled.
- `open()` and the file paths of src/profile_parser.py and pb-puller.py are left out, as is the module-level `print` at pb-puller.py:40. The functions take the file's lines.
- util/update_clan_list.py is an HTTP client for an external API and is not part of this model.
- Python `str.strip`, `str.lower`, `\w` and `int()` are modelled on ASCII only. Unicode white space, letters and digits are not modelled. `int()` accepts an optional sign and ASCII digits; underscores are not accepted.
- `float()` is modelled on plain decimal notation: surrounding white space, an optional sign, and digits with at most one '.' and at least one digit on some side of it (so "5", "-1.25", ".5" and "5."). Any other text is no number: src/bot.py:240-243 then skips the entry, and `_parse_pb` returns (None, None, None). Python also accepts exponents (`float("1e3")` is 1000.0), "inf", "nan" and underscores. For those, `_parse_pb` returns a value where the model returns (None, None, None). For exponents and underscores, src/bot.py keeps an entry that the model skips. For "nan", `round()` raises ValueError and the entry is skipped, as in the model. For "inf", `round()` raises OverflowError, which the `except ValueError` at src/bot.py:243 does not catch, whereas the model skips the entry. Values are exact reals, so binary rounding of floats is not modelled.
- `os.path.basename` uses '/' as the only separator (POSIX).
- Reconcile.UpdateAppended: the re-fetch after an append is assumed to see the sheet as this process left it. Concurrent writes by others are not modelled.
- Reconcile.UpdateBestTimes: the guard at src/bot.py:130-131 never fires, because a found row index is always below the row count. When the appended row is not found again, Python goes on with index -1: it reads the last row and writes to sheet row 0, which is not a valid A1 row. The model reports `RowNotFound` instead.
- Sheet.EnsureIdempotent: it is stated only for non-empty boss names. The `if h` filter skips empty headers, so an empty label (from a line such as `personalbest.rsprofile.abc. =5`) is never known and is appended again on every call.
- Numbers.ParseInt: digit strings of any length parse. Python 3.11 and later make `int()` raise ValueError beyond 4300 digits, which src/bot.py:152-155 would treat as a cell with no value.
- Reconcile.UpdateIdempotent: it is stated only for labels that are distinct ignoring case, non-empty, and other than the id and username headers. With a repeated label the second run can improve again (see Reconcile.DuplicateLabelSlowerWins), and a label equal to "Username" overwrites the username cell.
