# A verified model of `tui.py`

`tui.py` is a curses front end for operating environments. It reads a list of
environments from `config.ini`, lets the user pick an environment, an
environment type, a Kubernetes namespace and an action, lists pods, shows pod
logs over ssh, and shows MariaDB and Cassandra connection commands read from an
`application.conf`. This project models the logic under the terminal drawing and
the subprocess calls, and proves what that logic guarantees.

The modules follow the pieces of the script:

- `Text` (text.dfy): the Python string operations the script relies on.
  These are `str.lower` on ASCII, `sub in s`, `s[:-1]`, `strip`,
  `strip('"')`, `split(',')`, `splitlines` and `split()[0]`.
  Each has a contract that says what it computes.
- `Keys` (keys.dfy): curses key codes and the abstract key events the two
  interactive loops dispatch on.
- `Selector` (selector.dfy): `select_option`.
  - Pure functions and lemmas cover sentinel insertion, the search filter, the
    reaction to one key, the scroll window and the menu lines.
  - The class `Selector.Selector` has the loop variables of the source as
    fields (`filtered`, `query`, `row`, `scroll`).
  - The method `Selector.SelectOption` runs that class over a finite sequence
    of keys.
- `KeywordMatch` and `Highlight` (highlight.dfy): the case-insensitive pattern
  `(error|warning|success)`, the leftmost non-overlapping matches `finditer`
  finds, and the cutting of a line into plain and coloured segments.
- `Viewer` (viewer.dfy): `display_text`, meaning the clamped scroll position,
  the page of highlighted lines, and the loop over keys.
- `Config` (config.dfy): the per-value parsing and grouping in `load_config`.
- `AppConf` (appconf.dfy): the `application.conf` reader and the two
  connection commands. The two regular expressions are written out as
  scanners.
- `Commands` (commands.dfy): the ssh/kubectl command strings, and the pod
  names taken from `kubectl get pods --no-headers`.
- `Navigation` (navigation.dfy): the nested menu loops of `main`, as a state
  machine over selections that ends by returning or by an uncaught
  `IndexError`.

The model follows the code as written:

- The viewer closes on Up at the first line and on Down on the last page.
  Neither is a scroll move, so both fall through to the final `else: break`.
  The docstring at line 201 says only that "any other key" exits.
- Enter on an empty filtered list fails with the `IndexError` of
  `filtered_options[current_row]`. There is no empty-selection error.
- The menus have no skip entries, and the viewer has no `/` search.
- "Go Back" in the namespace menu breaks onto the `return` of line 484. It
  therefore ends the program instead of returning to the environment type
  menu.
- The `IndexError` of an Enter on an empty filtered list is caught nowhere and
  leaves `main` through `curses.wrapper` (line 487). Only the namespace and
  pod menus can raise it, because only they turn search on.

## Model

| member | source | states |
|---|---|---|
| Text.Lower | tui.py:93 | `str.lower()` on ASCII: same length, each letter mapped by `LowerChar` (A-Z to a-z, everything else unchanged) |
| Text.ContainsIff | tui.py:93 | the left-to-right substring scan `sub in s` holds exactly when `sub` occurs at some position of `s` |
| Text.DropLast | tui.py:97 | `s[:-1]`: the empty string stays empty, otherwise the result plus the last character is `s` |
| Text.Strip | tui.py:34 | `strip()` leaves no whitespace at either end and never lengthens the string; its body is `StripBy(s, IsSpace)`, whose contract fixes the result (`Text.StripByUnique`) |
| Text.StripBy | tui.py:278 | `strip(chars)` returns a stretch of the string with only stripped characters before and after it, and none at its ends |
| Text.StripByUnique | tui.py:34 | two results meeting the contract of `StripBy` are equal, so that contract determines what `strip` returns |
| Text.Split | tui.py:34 | `split(sep)`: at least one part, no part holds the separator, and joining the parts with it gives the string back |
| Text.SplitJoin | tui.py:34 | joining parts free of the separator and splitting again returns the parts |
| Text.SplitLength | tui.py:35 | a string has exactly one more part than it has separators |
| Text.SplitLines | tui.py:205 | `splitlines()`: no lines exactly for the empty string, and no line holds a line boundary |
| Text.SplitLinesOne | tui.py:205 | a non-empty text with no line boundary is one line |
| Text.SplitLinesCons | tui.py:205 | a line without boundaries, one boundary (`\r\n`, or a single break character other than a `\r` right before `\n`) and a rest give that line followed by the lines of the rest |
| Text.SplitLinesJoin | tui.py:205 | lines without boundaries joined by `\n`, the last one non-empty, split back into the same lines |
| Text.StripAround | tui.py:273 | `strip()` of a text with whitespace around it and no whitespace at its ends is that text |
| Text.StripBlank | tui.py:273-274 | a line of whitespace strips to the empty string |
| Text.StripStartsWith | tui.py:273-274 | after leading whitespace, the first other character is the first character of the stripped line |
| Text.IndexFromIs | tui.py:269 | the search for a character stops at its first occurrence |
| Text.FirstToken | tui.py:400-402 | `split()[0]`: none exactly for an all-whitespace line, otherwise a non-empty maximal whitespace-free run preceded only by whitespace |
| Keys.FromCode | tui.py:85-96 | Enter is KEY_ENTER, 10 or 13; Backspace is KEY_BACKSPACE or 127; 32..126 are printable characters with that code; Up, Down and the viewer's Page Up, Page Down and End (lines 244-253) are exactly their key codes; the two loops take `Key` values, and `FromCode` records how `getch` codes become those values (neither `Selector` nor `Viewer` calls it) |
| Selector.SentinelPlacement | tui.py:54-58 | the options stay one unchanged block, with "Go Back" in front exactly when requested and absent, and "Exit" at the back likewise |
| Selector.SentinelsIdempotent | tui.py:55-58 | adding the sentinels again changes nothing, and a sentinel occurs once when added and otherwise as often as in the options |
| Selector.WithSentinels | tui.py:54-58 | definition; see lemmas `Selector.SentinelPlacement` and `Selector.SentinelsIdempotent` |
| Selector.Filter | tui.py:93 | the filter result is never longer than the list |
| Selector.FilterMembers | tui.py:93 | an entry is in the filtered list exactly when it is in the full list and its lower-cased label contains the lower-cased query |
| Selector.Matches | tui.py:93 | definition of the filter test; see lemma `Selector.FilterMembers` |
| Selector.FilterCount | tui.py:93 | a matching entry keeps every duplicate; a non-matching entry is absent |
| Selector.FilterKeepsOrder | tui.py:93 | the filtered list embeds in the full list in increasing positions, so the filter keeps the original order |
| Selector.FilterAll | tui.py:96-98 | an empty query (for example after Backspace) yields the whole list, sentinels included |
| Selector.FilterNarrows | tui.py:91-93 | a longer query refilters the previous result to the same list as filtering the originals |
| Selector.AdjustScroll | tui.py:71-74 | after the adjustment the cursor is in the window `scroll .. scroll + visible - 1`, and a window already showing it is left alone |
| Selector.WindowMovesLeast | tui.py:71-74 | no window that shows the cursor is closer to the old window start |
| Selector.Window | tui.py:75 | Python's clamping slice, for a non-negative stop: at most `count` elements, each the element at `start + i`, and exactly `min(count, len - start)` when in range |
| Selector.MenuLines | tui.py:75-82 | one line per visible entry: the cursor's entry is prefixed by "> ", every other entry by two spaces, and sentinels show their own text |
| Selector.CursorIsShown | tui.py:71-82 | once the window is adjusted, the cursor's entry is on screen and it is the only line marked "> " |
| Selector.ReactKeepsInv | tui.py:84-100 | every key that keeps the loop running preserves "filtered is the filter of the full list by the query, and the cursor is 0 or in range" |
| Selector.CursorMoves | tui.py:85-88 | Up and Down move the cursor by one and stop at the ends; list, query and window are untouched |
| Selector.EnterChooses | tui.py:89-90 | Enter fails exactly on an empty filtered list; otherwise it returns the entry at the cursor, which is listed and matches the query |
| Selector.QueryEdits | tui.py:91-100 | with search, a character is appended or Backspace drops one, the list becomes exactly the matching entries in order, and cursor and window reset to 0; without search nothing changes |
| Selector.React | tui.py:84-100 | definition of one key's effect; see lemmas `Selector.ReactKeepsInv`, `Selector.CursorMoves`, `Selector.EnterChooses` and `Selector.QueryEdits` |
| Selector.Run | tui.py:66-100 | definition of the loop over keys; see lemmas `Selector.RunSelectsListed`, `Selector.NoSearchNeverCrashes` and `Selector.EnterOnNoMatchCrashes`, and method `Selector.SelectOption` |
| Selector.RunSelectsListed | tui.py:66-100 | whatever keys are pressed, a selection is an entry of the full list |
| Selector.NoSearchNeverCrashes | tui.py:66-90 | without search a non-empty menu never fails on Enter |
| Selector.EnterOnNoMatchCrashes | tui.py:89-93 | typing a character that matches nothing and then Enter fails |
| Selector.Selector.constructor | tui.py:54-64 | the full list is the options with their sentinels, the window height is `max_rows - 4`, and the state starts unfiltered at the top |
| Selector.Selector.FollowCursor | tui.py:71-74 | only the window start changes, to `AdjustScroll` of the old one |
| Selector.Selector.HandleKey | tui.py:84-100 | the new state and the returned entry or failure are those of `React`, and the invariant is kept |
| Selector.SelectOption | tui.py:41-100 | the outcome is that of `Run` from the initial state over the keys |
| KeywordMatch.WordAtLower | tui.py:204 | an alternative matches at a position exactly when the lower-cased stretch there equals its spelling |
| KeywordMatch.WordAtPointwise | tui.py:204 | an alternative matches exactly when the line, lower-cased letter by letter, spells it |
| KeywordMatch.KeywordAt | tui.py:204 | the alternative found matches at the position; when none is found, no alternative matches there |
| KeywordMatch.AlternativesExclusive | tui.py:204 | at most one alternative matches at a position, so the order in which they are tried does not matter |
| KeywordMatch.NextMatch | tui.py:218 | the next match found is at or after the current position and some keyword matches there |
| KeywordMatch.NextMatchLeftmost | tui.py:218 | no keyword matches between the current position and the next match found |
| Highlight.ColorOf | tui.py:225-233 | definition of the colour chain; see lemma `Highlight.MatchColor` |
| Highlight.MatchColor | tui.py:225-233 | the colour chosen from the lower-cased matched text is the pair of the matching alternative (1, 2 or 3), never `A_NORMAL` |
| Highlight.FreeStretch | tui.py:218-222 | the plain text before a match holds no keyword anywhere |
| Highlight.SegmentsRebuildLine | tui.py:218-240 | the text of the segments, one after another, is the line exactly |
| Highlight.SegmentsWellColored | tui.py:218-240 | each keyword segment has the colour of its lower-cased text, and each plain segment is non-empty and keyword-free |
| Highlight.SegmentsFrom | tui.py:218-240 | definition of the segments from a position; see lemmas `Highlight.SegmentationCorrect` and `Highlight.SegmentationUnique` |
| Highlight.Segments | tui.py:218-240 | definition of the segments of a line; see lemmas `Highlight.SegmentationCorrect` and `Highlight.SegmentationUnique` |
| Highlight.SegmentsLeftmost | tui.py:218-222 | no keyword match starts inside a plain segment: every match is taken at the leftmost position `finditer` reaches |
| Highlight.SegmentsPlainRunsMaximal | tui.py:218-240 | no two plain segments are adjacent: the text between two matches is one segment |
| Highlight.SegmentationCorrect | tui.py:218-240 | for a whole line, the segments rebuild it, every segment is well coloured, no match starts inside plain text, and no two plain segments are adjacent |
| Highlight.SegmentsUnique | tui.py:218-240 | segments with those four properties from a position are the segments from that position |
| Highlight.SegmentationUnique | tui.py:218-240 | segments of a whole line with those four properties are `Segments(line)`, so the properties describe the segmentation completely (for `successuccess` they rule out `succes` + `success`) |
| Highlight.HighlightLine | tui.py:218-240 | the `finditer` loop produces the segmentation of the line |
| Viewer.MaxTop | tui.py:249-253 | `max(0, len(lines) - display_height)` is at least `len - h`, and it is either 0 or `len - h` |
| Viewer.ScrollKeepsRange | tui.py:244-253 | every scroll move keeps `0 <= current_line <= MaxTop` |
| Viewer.ScrollCloses | tui.py:244-255 | the viewer closes exactly on a non-scroll key, on Up at the first line, or on Down at the last page |
| Viewer.ScrollSteps | tui.py:244-253 | Up and Down move by exactly one; End goes to `MaxTop`, from which End and Page Down stay and Down closes |
| Viewer.PagesUndo | tui.py:248-251 | Page Up undoes a Page Down that did not reach the last page, and Page Down undoes a Page Up that did not reach the top |
| Viewer.Scroll | tui.py:244-255 | definition of one key's effect; see lemmas `Viewer.ScrollKeepsRange`, `Viewer.ScrollCloses`, `Viewer.ScrollSteps` and `Viewer.PagesUndo` |
| Viewer.BrowseAppend | tui.py:210-255 | keys read in two runs: the second starts where the first stopped, unless the first closed the viewer |
| Viewer.BrowseInRange | tui.py:210-255 | after any sequence of keys the position is in range |
| Viewer.Browse | tui.py:210-255 | definition of the loop over keys; see lemmas `Viewer.BrowseAppend`, `Viewer.BrowseInRange`, `Viewer.PageDownsReachEnd` and `Viewer.FiftyLines` |
| Viewer.PageDownsReachEnd | tui.py:248-249 | enough Page Downs reach `MaxTop` without closing the viewer |
| Viewer.FiftyLines | tui.py:244-249 | with 50 lines and a 10-line page, five Page Downs show line 40 and a further Down closes the viewer |
| Viewer.Rows | tui.py:213-214 | a page draws `min(h, len - top)` lines and never reads past the text |
| Viewer.FullPage | tui.py:208-214 | within range a page is full, or holds every line when there are fewer |
| Viewer.Frame | tui.py:213-240 | a page has one row of segments per drawn line |
| Viewer.FrameShowsLines | tui.py:213-240 | each drawn row spells out its line, with every keyword in its colour |
| Viewer.RenderFrame | tui.py:213-240 | the drawing loop produces `Frame` of the lines |
| Viewer.DisplayText | tui.py:205-255 | position and closing are those of `Browse` over the keys from line 0, the position stays in range, and the page shown is the frame at that position |
| Config.Fields | tui.py:34 | one field per comma-separated part (one more than the commas), each part stripped |
| Config.ParseValueFields | tui.py:34-37 | a value is dropped exactly when it has fewer than three commas; otherwise name, type, repository and jumphost are the first four stripped parts, and the context is the stripped fifth part or none when that part is missing or blank |
| Config.ParseValue | tui.py:34-37 | definition of the reading of one value; see lemmas `Config.ParseValueFields`, `Config.ExtraFieldsIgnored` and `Config.FormatThenParse` |
| Config.FromFields | tui.py:35-37 | definition on the stripped fields; see lemma `Config.ParseValueFields` |
| Config.ExtraFieldsIgnored | tui.py:36-37 | fields after the fifth do not change the result |
| Config.FormatThenParse | tui.py:34-37 | an entry written as a comma-separated value parses back to the same entry |
| Config.EntriesFor | tui.py:38 | the entries recorded for a name are a selection of the records |
| Config.Records | tui.py:33-38 | definition of the records in input order; see lemmas `Config.RecordOfValue` and `Config.RecordsAppend` |
| Config.RecordOfValue | tui.py:34-38 | one value gives its parsed entry, or nothing when it has fewer than four fields |
| Config.RecordsAppend | tui.py:33-38 | the records of two runs of values are the records of the first followed by those of the second |
| Config.GroupEntries | tui.py:32-38 | each name is listed once, exactly the names with entries are listed, and a name's entries are those recorded for it in input order |
| Config.Group | tui.py:38 | definition of the appends into the defaultdict; see lemmas `Config.GroupEntries` and `Config.NamesGrow` |
| Config.Grouped | tui.py:32-39 | definition of the result of `load_config`; see lemmas `Config.RecordsAppend` and `Config.GroupEntries`, and method `Config.LoadConfig` |
| Config.NamesGrow | tui.py:32-38 | more values never remove or reorder a name: names keep first-seen order |
| Config.LoadConfig | tui.py:32-39 | the loop builds the grouping of the values |
| AppConf.BlockAt | tui.py:269 | a block body found at a position holds no `}` (the body is non-greedy) |
| AppConf.BlockFrom | tui.py:269 | the search position is at or after the start, and a block starts there |
| AppConf.FindBlock | tui.py:269 | the block found holds no `}` |
| AppConf.BlockLeftmost | tui.py:269 | no block starts before the one the search finds |
| AppConf.BlockFromFirst | tui.py:269 | the search reports the first position at which a block starts |
| AppConf.BlockAtFormat | tui.py:269 | `NAME GAP { BODY } ...` at a position is a block there with body `BODY` |
| AppConf.BlockOfFormat | tui.py:269-271 | `NAME GAP { BODY }` anywhere in the file, with no block starting before it, is the block found, whatever precedes or follows it |
| AppConf.MatchKeyValue | tui.py:275 | a match has a non-empty key of word characters and a non-empty raw value |
| AppConf.MatchNeedsEquals | tui.py:275 | a match needs a word key, then `=` after optional whitespace, then a value after more optional whitespace |
| AppConf.RawValue | tui.py:275 | the raw value at a non-space position is non-empty |
| AppConf.RawValueToken | tui.py:275 | `\S+`: a value not opening with a quote is the whole run of non-whitespace there |
| AppConf.RawValueUnclosed | tui.py:275 | a quote never closed on the line falls back to `\S+`, opening quote included |
| AppConf.KeyIsWordPrefix | tui.py:275 | the key is the longest word prefix of the line, and something follows it |
| AppConf.MatchAtPositions | tui.py:275 | when the word ends, whitespace, `=` and whitespace lead to a value, the match is the key and the value there |
| AppConf.QuotedIn | tui.py:275 | a quoted value runs to the next quote |
| AppConf.QuotedMatch | tui.py:275 | on `key = "value"` with any spacing the match is the key and the quoted value |
| AppConf.ParseKeyValue | tui.py:275-278 | the value has lost its surrounding quotes: it neither starts nor ends with `"` |
| AppConf.StripQuotes | tui.py:278 | stripping quotes from `"value"` gives `value` when it holds no quote |
| AppConf.QuotedRoundTrip | tui.py:275-278 | `key = "value"` reads back as the pair `(key, value)` |
| AppConf.TokenMatch | tui.py:275 | on `key = token` with any spacing, followed by whitespace and anything, the match is the key and the token |
| AppConf.TokenRoundTrip | tui.py:275-278 | `key = token` reads back as the key and the token with its quotes stripped |
| AppConf.BlankLineSkipped | tui.py:273-274 | a line of whitespace gives no entry |
| AppConf.CommentSkipped | tui.py:273-274 | a line whose first non-space character is `#` gives no entry, whatever follows |
| AppConf.QuotedLine | tui.py:273-278 | an indented `key = "value"` line with whitespace around it gives `(key, value)` |
| AppConf.LineEntry | tui.py:273-278 | definition of one line's entry; see lemmas `AppConf.BlankLineSkipped`, `AppConf.CommentSkipped`, `AppConf.QuotedLine` and `AppConf.TokenRoundTrip` |
| AppConf.EntriesOf | tui.py:272-278 | one entry per line of the block, in order, each as `BlankLineSkipped`, `CommentSkipped`, `QuotedLine` and `TokenRoundTrip` describe |
| AppConf.AssignedKeys | tui.py:276-279 | the dictionary holds exactly the keys that some line assigns |
| AppConf.LastAssignmentWins | tui.py:279 | the value kept for a key is the one from its last line |
| AppConf.Assign | tui.py:276-279 | definition of the assignments one after another; see lemmas `AppConf.AssignedKeys` and `AppConf.LastAssignmentWins` |
| AppConf.Assignments | tui.py:272-279 | definition of the dictionary a block gives; see lemmas `AppConf.AssignedKeys` and `AppConf.LastAssignmentWins`, and method `AppConf.ParseBlock` |
| AppConf.BlockMap | tui.py:439-449 | definition of `if rep_match:` and its loop; see method `AppConf.ParseApplicationConf` |
| AppConf.ParseBlock | tui.py:272-279 | the loop builds the assignments of the block's lines |
| AppConf.ParseApplicationConf | tui.py:437-460 | the two dictionaries are the assignments of the first `reporting` and `cassandra` blocks, or empty when there is no block; the never-called `parse_application_conf` (lines 264-290) holds the same code |
| AppConf.MariaDbJoin | tui.py:468 | the MariaDB command is its eight words joined by spaces |
| AppConf.CassandraJoin | tui.py:474 | the Cassandra command is its seven words joined by spaces |
| AppConf.MariaDbPlaceholder | tui.py:461-468 | for any block, the MariaDB placeholder appears exactly when the reporting block gave nothing |
| AppConf.CassandraPlaceholder | tui.py:462-474 | for any block, the Cassandra placeholder appears exactly when the cassandra block gave nothing |
| AppConf.MariaDbSplit | tui.py:468 | the MariaDB command of four space-free settings cuts at spaces into its eight words |
| AppConf.CassandraSplit | tui.py:474 | the Cassandra command of four space-free settings cuts at spaces into its seven words |
| AppConf.MariaDbWords | tui.py:461-468 | the placeholder appears exactly when the reporting block gave nothing; otherwise, when host, port, username and password hold no space, the words are `mysql -h HOST -P PORT -u USER -pPASSWORD`, with defaults localhost, 3306, root and empty for missing settings |
| AppConf.CassandraWords | tui.py:469-474 | the placeholder appears exactly when the cassandra block gave nothing; otherwise, when host, port, username and password hold no space, the words are `cqlsh HOST PORT -u USER -p PASSWORD`, with defaults localhost, 9042 and empty |
| AppConf.MariaDbCommand | tui.py:461-468 | definition of the MariaDB command; see lemmas `AppConf.MariaDbPlaceholder` and `AppConf.MariaDbWords` |
| AppConf.CassandraCommand | tui.py:462-474 | definition of the Cassandra command; see lemmas `AppConf.CassandraPlaceholder` and `AppConf.CassandraWords` |
| AppConf.ConnectionReport | tui.py:475 | definition of the report text; see lemma `AppConf.ReportLines` |
| AppConf.ReportLines | tui.py:475 | when neither command holds a line break, the viewer (splitting at line 205) shows five lines: the MariaDB heading, the MariaDB command, an empty line, the Cassandra heading and the Cassandra command |
| AppConf.DatabaseOutput | tui.py:428-476 | definition of the text shown for the MariaDB action; see lemmas `AppConf.NotFoundLine` and `AppConf.ReportLines`, and method `AppConf.ParseApplicationConf` |
| AppConf.NotFoundLine | tui.py:429-430 | without a configuration file the viewer shows the one line naming the namespace (for a namespace without line breaks) |
| Commands.ContextFlag | tui.py:167 | definition of the optional `--context` part (also used at lines 181 and 420); see lemmas `Commands.ContextWords` and `Commands.FlagWords` |
| Commands.KubectlCommand | tui.py:167-169 | definition of the generic command; see lemmas `Commands.KubectlWords` and `Commands.CommandsAgree` |
| Commands.GetPodsCommand | tui.py:181-183 | definition of the pod listing command; see lemma `Commands.CommandsAgree` |
| Commands.LogsCommand | tui.py:420 | definition of the logs command; see lemma `Commands.CommandsAgree` |
| Commands.CommandsAgree | tui.py:167-183 | the pod listing (181-183) and the logs command (420) are the generic kubectl command of 167-169 with `get pods --no-headers` and with `logs POD` |
| Commands.ContextWords | tui.py:167 | the `--context` words appear exactly when a non-empty context is set |
| Commands.FlagWords | tui.py:167 | cut at spaces, the context flag contributes exactly the context words |
| Commands.KubectlWords | tui.py:167-169 | cut at spaces, the command is `ssh`, the jumphost, `'kubectl`, the context words, `-n`, the namespace, then the command's own words |
| Commands.PodNames | tui.py:398-402 | at most one pod per line, and each pod is a non-empty whitespace-free token |
| Commands.PodNamesAppend | tui.py:399-402 | the pods of two runs of lines are the pods of each, in order |
| Commands.PodOfRow | tui.py:400-402 | the pod of a `NAME  COLUMNS` row is its name |
| Commands.PodTable | tui.py:397-402 | a table of rows lists exactly its names, in order |
| Commands.CollectPods | tui.py:398-402 | the loop collects `PodNames` of the lines of the output |
| Navigation.Start | tui.py:303-311 | the program ends before any menu exactly when there are no environments |
| Navigation.Next | tui.py:311-487 | definition of one selection; see lemmas `Navigation.EndsIff`, `Navigation.BackGoesUp`, `Navigation.NoJumphostStays`, `Navigation.PodMenuIff` and `Navigation.StoppedStays` |
| Navigation.BackGoesUp | tui.py:318-484 | "Go Back" returns to the enclosing loop; from the namespace menu this ends the program (line 484) |
| Navigation.EndsIff | tui.py:311-487 | the program returns exactly on "Exit" in the environment menu or "Go Back" in the namespace menu, crashes exactly on a failing selection, and stays where it stopped |
| Navigation.NonSearchMenusNeverFail | tui.py:313-417 | every menu except the namespace and pod menus calls `select_option` with search off and a sentinel, so no keys make it fail; only those two menus can crash the program |
| Navigation.NoJumphostStays | tui.py:384-389 | without a jumphost every Kubernetes action stays in the Kubernetes menu |
| Navigation.PodMenuIff | tui.py:396-419 | the pod menu opens exactly on Show Logs in the Kubernetes menu with a jumphost and listed pods |
| Navigation.RunAppend | tui.py:311-484 | selections in two runs: the second continues from where the first left off |
| Navigation.Run | tui.py:311-487 | definition of the selections one after another; see lemmas `Navigation.RunAppend` and `Navigation.RunSound`, and method `Navigation.Session` |
| Navigation.StoppedStays | tui.py:311-487 | once the program has returned or crashed, no selection changes anything |
| Navigation.RunSound | tui.py:384-419 | along any run, the pod menu only appears for an environment type with a jumphost |
| Navigation.Session | tui.py:303-487 | the menu reached and the number of selections read agree with `Run`; reading stops only when the program stops or the selections run out, and the menu reached is `Run` over all the selections |

## Left out

- Terminal drawing is not modelled: `addstr`, colours, `clear`, `refresh` and `curs_set`. The viewer's column clipping against `max_cols` (lines 222-240) is also left out. The viewer's rows are modelled as segments, with no screen positions.
- The menu title, the search bar text and the viewer's prompt line are left out. Only the menu lines and the page rows are modelled.
- Terminal resizing is not modelled. The selector reads its height once (line 63), and the viewer also reads its size once (line 207).
- `subprocess` and git are not modelled: `clone_or_pull_repo` (lines 102-122), and running ssh and kubectl (lines 170-173, 184-188 and 421-425). The model builds the command strings. The output of `kubectl get pods` is an input to `CollectPods`.
- `find_kubernetes_namespaces` needs a filesystem walk and PyYAML. `find_application_conf` needs a filesystem walk. Neither is modelled. Their results come in through the navigation model: `World.namespacesFound`, whether a file was found, and `DatabaseOutput`'s content.
- Reading and opening files is not modelled (lines 266-268 and 432-436). `ParseApplicationConf` starts from the file's contents. When the read at line 433 fails, the script parses the error message of line 436 instead of the file; in the model that message is simply the content handed to `DatabaseOutput`.
- `parse_application_conf` (lines 257-294) is never called: `main` repeats its parsing inline at lines 437-460, and that copy is the one modelled. Its `except` (lines 291-293), which would reset both dictionaries, is dead code and is left out.
- `strip_credentials` (lines 13-22) is not modelled. It is a wrapper over `urllib.parse` and is used only in the environment-type label.
- configparser's section and key handling (lines 30-33) is not modelled. `LoadConfig` takes the values in the order configparser yields them.
- Only ASCII is handled. Case folding covers only ASCII letters, and `\w` means only ASCII letters, digits and `_`. Python's Unicode `lower()` and `re.IGNORECASE` can fold more characters. Those characters are what make the `A_NORMAL` branch of lines 232-233 reachable, so in this model that branch is never taken (`Highlight.MatchColor`).
- Selector.Entry: an option that equals the string "Go Back" or "Exit" is represented by the sentinel itself. The source's `in` test and its label exception (line 77) treat such options the same way.
- The texts shown for the actions are not modelled: "No pods found or error executing command." (lines 393-395), the pod messages (lines 405-406), the log output (lines 423-426) and the Cassandra action's notice (lines 477-481). The navigation model records only which menu comes next.
- Navigation.Next: the nested `while True` loops of `main` are flattened into one state machine. The model tracks which loop is running, not the loop variables such as the chosen namespace. The outcome of the external work is an input (`World`).
- Error handling for failed commands is not modelled (`CalledProcessError` at lines 172-173 and 187-188). The pod listing is modelled only through its output text.
