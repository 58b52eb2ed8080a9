# Single-file daily notes, in Dafny

A model of the pure logic of an Obsidian plugin that keeps every daily note in one
markdown file, newest first. The file is a text whose lines are date headings
(`### 29-05-2024, Wednesday`), their entries, and, at month boundaries, a `---` rule
with a heading one level shallower naming the month.

The model covers six parts of the plugin:

- **Today's section** (`DailyNotes`). When the file is opened, `updatedNote` puts today's
  heading and a dummy entry at the top, unless some line already starts with that
  heading. On the first of a month it also adds a rule and a heading for the month
  that just ended.
- **Backdated notes** (`CalendarView`). `insertNoteForDate` splices a note above the
  first heading dated before the target, or appends it. `containsNoteForDate` finds the
  first line containing a date's heading. `onClickDate` offers to create a note when
  there is none, or goes to it.
- **Heading-level migration** (`SettingsTab`). A new heading type is accepted only when
  it is `h1` to `h6`. Every line that is 1 to 6 `#`, a space, and text that strictly
  parses as a date then gets its marker replaced by the new one.
- **Path and heading helpers** (`Utils`). The file path, the heading level, the heading
  marker and the heading of a date.
- **Rename bookkeeping** (`DailyNotes`). `onRename` is a map from settings to settings,
  over a renamed `File(path, basename)` or `Folder(path)`.
- **The month grid** (`Calendar`). `getMonthWeeks`, `isWeekend` and the
  "adjacent-month" flag of a day cell.

Supporting modules:

- `Strings` writes out the JavaScript string operations the code relies on: `split`
  and `join` on one character, `startsWith`, `includes`, `indexOf`, `replace` with a
  string pattern, `repeat`, `substring`, `lastIndexOf`, and `parseInt` of one character.
  `parseInt` can give `NaN` and `repeat` can throw `RangeError`; both are written out.
- `Moments` represents moment.js as a record of uninterpreted functions over day
  numbers: format, strict parse, lenient parse, day of month, month, start and end of
  month, locale weekday and ISO weekday. Facts about moment.js that a proof needs are
  hypotheses of that lemma.
- `Config` holds the settings record and its defaults.

The file `main.ts` at the repository root is an older copy of `src/main.ts` and
`src/settings.ts`. The logic modelled here is identical in both copies, so one member
models both, and the table cites either copy.

## Model

| member | source | states |
|---|---|---|
| Strings.ParseIntChar | src/utils.ts:36 | `parseInt` of one character is a number exactly for a decimal digit, and then it is that digit's value 0 to 9; anything else, including a missing character, is NaN |
| Strings.RepeatNum | src/utils.ts:40 | `"#".repeat(n)` is n copies for n ≥ 0, is "" for NaN, and throws (None) exactly for a negative count |
| Strings.Substring | src/main.ts:73-74 | `substring` takes the slice between its bounds in either order, a negative start counts as 0, and both bounds at or below 0 give "" |
| Strings.LastIndexOf | src/main.ts:74 | the result is -1 exactly when the character does not occur; otherwise it is an occurrence with none after it |
| Strings.IndexOf | src/settings.ts:133 | -1 exactly when the pattern occurs nowhere; otherwise the pattern occurs at the result and at no earlier offset |
| Strings.ReplaceFirst | src/settings.ts:133 | `replace` with a string pattern leaves the text unchanged when the pattern does not occur, and replaces the leading occurrence when the text starts with it |
| Strings.SecondToken | src/ui/calendarView.tsx:142 | `split(" ", 2)[1]` is undefined (None) exactly when the line has no space |
| Strings.SecondTokenValue | src/ui/calendarView.tsx:142 | when defined, the token is the text right after the first space: it holds no space, and it ends at the next space or at the end of the line |
| Strings.TakeUntil | src/settings.ts:127 | the text a regex `(.*)` captures holds no stop character and ends at the first one |
| Strings.SplitCount | src/ui/calendarView.tsx:134 | a text splits into more than one line exactly when it contains the separator |
| Strings.SplitJoin | src/settings.ts:137 | joining newline-free lines and splitting the result again gives the same lines |
| Strings.JoinEmbedded | src/ui/calendarView.tsx:135-136 | a list element with a newline inside joins to the same text as its two halves given as separate elements |
| Strings.JoinSplit | main.ts:346-359 | splitting a text and joining the pieces gives the text back |
| Strings.SplitAfterLines | src/main.ts:194-196 | text put in front as whole lines splits into those lines, followed by the lines of the old text |
| Utils.FilePath | src/utils.ts:11-19 | the path ends with the note name plus ".md", and at the vault root it is just that file name (the folder part is stated by `DailyNotes.FilePathParts`) |
| Utils.HeadingLevel | src/utils.ts:35-37 | the level is the digit after "h", or NaN when the second character is missing or not a digit |
| Utils.HeadingMd | src/utils.ts:39-41 | the marker is made only of "#", has as many as the heading level, and is empty for a NaN level |
| Utils.HeadingForDate | src/utils.ts:43-48 | a date's heading starts with the marker and a space, and the rest is exactly the date formatted with the configured pattern |
| Utils.TodayHeading | src/main.ts:209-215 | today's heading is the heading of the date `today` |
| Utils.DefaultSettingsShape | src/main.ts:17-22 | the default settings give level 3, the marker "###" and the path "Daily Notes.md" at the vault root |
| DailyNotes.FilePathParts | src/utils.ts:11-19 | the file path ends with the note name plus ".md"; the text before its last "/" is the location; and it has a "/" exactly when the location is not the root |
| DailyNotes.MonthHeading | src/main.ts:183-190 | the month heading ends with a space and yesterday formatted "MMMM YYYY", after level − 1 "#" (none for NaN); it throws (None) exactly at level 0 |
| DailyNotes.UpdatedNote | src/main.ts:172-202 | the text is unchanged when some line starts with today's heading; otherwise it starts with today's section and ends with the old text; on other days than the 1st exactly the section is added; it throws only on the 1st at level 0 |
| DailyNotes.UpdatedNoteLines | main.ts:184-202 | line by line, a changed text is today's heading, the dummy entry, on the 1st "", "---" and the month heading, and then every old line unchanged |
| DailyNotes.UpdatedNoteIdempotent | main.ts:176-206 | opening the file again on the same day changes nothing more |
| DailyNotes.ParentPath | src/main.ts:74 | the part before the last "/", so that part plus "/" is a prefix and no "/" follows; "" when there is no "/" |
| DailyNotes.ParentPathOf | main.ts:78 | the folder of `dir + "/" + file` is `dir` when the file name has no "/" |
| DailyNotes.OnRename | src/main.ts:65-79 | an exact rename of the file changes only the note name, to the new base name; a folder rename whose path is a prefix of the file path changes only the location; any other rename changes nothing; heading type and date format never change |
| DailyNotes.RenameFolderPrefix | main.ts:76-80 | a folder rename whose path is a string prefix of the location sets the location to the new path plus the rest of the old location |
| DailyNotes.RenameAncestorFolder | src/main.ts:60-76 | after renaming an ancestor folder on a "/" boundary, the recomputed file path is the path the note file moved to, and the note name is kept |
| DailyNotes.RenameSiblingFolderMovesNote | src/main.ts:72-76 | renaming a folder whose name is only a string prefix of the note's folder, and not an ancestor, still changes the location |
| DailyNotes.OnRenameBounded | src/main.ts:72-76 | with the folder rule checked on a "/" boundary, the location changes only for a folder that contains the file; file renames and real ancestor renames behave as before |
| DailyNotes.RenameBoundedKeepsSibling | src/main.ts:72-76 | the bounded rule leaves the settings unchanged when a sibling folder that is only a string prefix is renamed |
| SettingsTab.ValidHeadingType | src/settings.ts:73-74 | the pattern `^h[1-6]$` accepts exactly the six names "h1" to "h6" |
| SettingsTab.ValidHeadingTypeLevel | src/settings.ts:73-81 | an accepted heading type gives a level from 1 to 6 and a marker of 1 to 6 "#" |
| SettingsTab.OnHeadingTypeChange | src/settings.ts:73-84 | an invalid value changes neither the settings nor the file; a valid value is stored first, and the file, when it exists, is migrated with the new level's marker and the stored date format |
| SettingsTab.HeadingTypeChangeLevel | main.ts:295-307 | after a valid change, every line that qualified (it matched the pattern and its text strictly parsed) matches the pattern with exactly the chosen level, and the other settings are kept |
| SettingsTab.HashRun | src/settings.ts:127 | the count of leading "#" is maximal: all those characters are "#" and the next one is not |
| SettingsTab.HeadingMatch | src/settings.ts:127-131 | the pattern `^(#{1,6}) ` matches with at most one group length; None exactly when it matches with none |
| SettingsTab.MigrateLine | src/settings.ts:130-134 | a line is kept exactly when the pattern does not match or its text does not strictly parse; a line that matches and parses becomes the new marker followed by the old text from the space on |
| SettingsTab.MigrateLines | src/settings.ts:130-135 | the migration keeps the number of lines and treats each line on its own |
| SettingsTab.MigratedLineLevel | src/settings.ts:128-133 | every line that matches and strictly parses is rewritten into one that matches the pattern with exactly the new marker's length and captures the same date text as before |
| SettingsTab.MigrateLineIdempotent | main.ts:352-357 | rewriting a line a second time with the same marker changes nothing |
| SettingsTab.MigrateLinesIdempotent | src/settings.ts:130-135 | migrating all lines a second time changes nothing |
| SettingsTab.UpdateHeadings | src/settings.ts:123-138 | for a marker without a newline, the migrated text splits into exactly the migrated lines: same count and order, each line changed only as a migrated line |
| SettingsTab.UpdateHeadingsIdempotent | main.ts:340-364 | running the migration again with the same level and format leaves the text as it is |
| SettingsTab.DeepLinesKept | main.ts:349 | a line that starts with seven or more "#" never matches and is never rewritten |
| CalendarView.FindIncluding | src/calendarView.tsx:111 | `findIndex` gives the first index whose line contains the heading, and none exactly when no line does |
| CalendarView.ContainsNoteForDate | src/ui/calendarView.tsx:157-167 | null exactly when no line contains the date's heading; otherwise a valid line index, that line contains the heading, and no earlier line does |
| CalendarView.NoteOnFirstLine | src/calendarView.tsx:107-117 | a text whose first line is the date's heading has its note at index 0 |
| CalendarView.OnClickDate | src/ui/calendarView.tsx:57-74 | nothing happens without the file; creation is offered exactly when no line contains the heading; otherwise it goes to a line that contains it |
| CalendarView.LegacyOnClickDate | src/calendarView.tsx:55-72 | nothing happens without the file; it only ever goes to a line after the first |
| CalendarView.LegacyClickDiffers | src/calendarView.tsx:61 | the two click handlers differ exactly when the note is on line 0; the older one then offers creation where the current one goes to line 0 |
| CalendarView.LegacyMissesTodayAtTop | src/calendarView.tsx:59-68 | right after today's section is added at the top, the older handler offers to create today's note, which exists; the current one goes to it |
| CalendarView.LineDateCases | src/ui/calendarView.tsx:140-142 | a line without the heading marker has no date; a marked line without a space has the lenient parse of `undefined`; otherwise the date is the lenient parse of the text after the first space, up to the next one |
| CalendarView.HeadingLineDate | src/ui/calendarView.tsx:140-142 | a date's own heading reads back as the lenient parse of the formatted date up to its first space |
| CalendarView.FirstOlder | src/ui/calendarView.tsx:138-149 | the insertion point is the first line dated strictly before the target; lines without the marker, with no valid date, or dated on or after the target are passed over; None exactly when no line is older |
| CalendarView.InsertNoteForDate | src/ui/calendarView.tsx:128-155 | the index returned is the first line dated before the target; it is the old line count plus one exactly when no line is older |
| CalendarView.InsertNoteLines | src/ui/calendarView.tsx:128-155 | after insertion the lines are the old ones with the heading and the dummy entry put in front of the first older line, whose index is returned; with no older line they are appended and the index is the old line count plus one |
| CalendarView.InsertBefore | src/ui/calendarView.tsx:145-148 | with an older line at index i, the note is spliced in front of line i and i is returned |
| CalendarView.InsertAtEnd | src/ui/calendarView.tsx:151-154 | with no older line, the note's two lines come after all old lines and the old line count plus one is returned |
| CalendarView.SplitJoinLines | src/ui/calendarView.tsx:135-136 | lines without a newline, with the heading and the dummy entry as two lines between them, read back one for one once joined and split again |
| CalendarView.InsertKeepsNewestFirst | src/ui/calendarView.tsx:138-154 | when the dated lines run newest first, they still do after the insertion, provided the new heading parses back to its date and the dummy entry does not parse |
| CalendarView.InsertedNewestFirst | src/ui/calendarView.tsx:143-147 | a note dated `date`, put after lines not older and before an older line, keeps newest-first order |
| CalendarView.InsertTwiceDuplicates | src/ui/calendarView.tsx:143-145 | a heading with the target's own date is passed over, so inserting the same date twice gives two copies of the note, next to each other |
| CalendarView.DeeperHeadingMatches | src/ui/calendarView.tsx:140 | a heading with one more "#" contains the date's heading, so the lookup finds it, and it passes the marker test of the insertion loop |
| CalendarView.CreatedNoteIsFound | src/ui/calendarView.tsx:128-167 | when a date had no note, after inserting one the lookup finds the new heading: at the returned index, or one line before it when the note was appended |
| Calendar.RowCount | src/ui/calendar.tsx:198 | the number of weeks is the count of week starts not after the last day: the last row starts on or before it and the next one would start after it |
| Calendar.GetMonthWeeks | src/ui/calendar.tsx:189-208 | the loop builds exactly the grid whose row r, column c holds the grid's first day plus 7r + c, with as many rows as start on or before the month's last day |
| Calendar.GridCoversMonth | src/ui/calendar.tsx:190-205 | the grid starts 0 to 6 days before the 1st, with the 1st at column `weekday(1st)` of row 0; every day of the month is in the grid; every row holds a day of the month |
| Calendar.GridRows | src/ui/calendar.tsx:198-205 | a month of 28 to 31 days fills four to six rows |
| Calendar.IsWeekend | src/ui/calendar.tsx:185-187 | for an ISO weekday from 1 to 7, a day is a weekend day exactly when it is day 6 or 7 |
| Calendar.IsAdjacentMonth | src/ui/calendar.tsx:155 | the day the calendar shows is never flagged as belonging to another month |
| Calendar.WeekendColumns | src/ui/calendar.tsx:185-187 | when ISO weekdays repeat every seven days, the weekend class of a cell is the same in every row of its column |
| Calendar.AdjacentMonthCells | src/ui/calendar.tsx:153-156 | a cell is flagged as belonging to a neighbouring month exactly when it lies before the 1st or after the month's last day; in row 0 these are the first `weekday(1st)` cells |

## Left out

- Obsidian host calls are not modelled: reading and processing the vault file, looking a file up by path, opening tabs and leaves, registering events, and `Notice` messages. The file's text, or its absence, is a parameter (`doc: Option<string>`), and the result text is what the `process` callback returns.
- `positionCursor`, `scrollToNote`, `goToNote` and `openOrCreateDailyNotesFile` are not modelled. They only move the editor cursor or open views, and `positionCursor` loops over a fresh file read with no bounds checks.
- The React rendering is not modelled: `Calendar`, `Navigation`, `Columns`, `DayNames`, `MonthDates` and the icons. Keyboard navigation and `nextMonth`/`prevMonth`/`nextYear`/`prevYear` are left out too, since they are moment.js arithmetic with month-end clamping.
- The `today` flag of a day cell is not modelled, because it reads the clock. "Today" is a parameter everywhere else.
- moment.js is uninterpreted: formatting, strict and lenient parsing, locale weekdays and month boundaries. Facts about it appear only as lemma hypotheses. Examples are a seven-day ISO weekday cycle, months of 28 to 31 days, and a heading that parses back to its own date.
- Dates are whole days. The source compares moments with `isBefore`/`isAfter` at millisecond precision, but a parsed heading and a clicked calendar day both fall at the start of a day, so only days are kept.
- `createNoteForDate` and the creation dialog are not modelled. They call `insertNoteForDate`, which is modelled, and then write the file.
- `debounce` on the heading-type field and loading and saving the settings are not modelled. They concern timing and persistence.
- Strings.ReplaceFirst: does not model the `$` substitution patterns of `String.prototype.replace`, because the replacement is a run of "#", which has none.
- The dummy entry is `"- entry"`, as in `src/main.ts:24`. `src/ui/calendarView.tsx` imports it from a file that is not part of this model, and the model assumes it is the same text.
- The code does not have the following behaviour, and the model does not add it:
  - No frontmatter block is skipped, so qualifying lines anywhere in the file are migrated.
  - Inserting a note does not stop at a heading with the same date; it passes it over and inserts again (`CalendarView.InsertTwiceDuplicates`).
  - Inserting a backdated note adds no month separator.
  - Month headings are not migrated; only lines whose text strictly parses with the date format are rewritten.
  - When no heading is older, the note is appended at the end of the file, not put at the top.
- Characters are Unicode scalar values, while JavaScript indexes strings by UTF-16 code units. The two differ only for characters outside the Basic Multilingual Plane. For a heading type such as `"😀3"`, `headingType[1]` in `src/utils.ts:36` is a lone surrogate and `parseInt` gives NaN, while `Utils.HeadingLevel` gives 3. No other modelled operation indexes by position into user text in a way that changes its result.

## Findings

| source | as written | input that shows it | evidently intended | confidence | as-written member | corrected member |
|---|---|---|---|---|---|---|
| src/calendarView.tsx:61 | `if (!noteIndex)` offers to create a note whenever the index is falsy, and index 0 is falsy | a file whose first line is today's heading, which is where `updatedNote` puts it; a click on today opens the "create" dialog although the note exists | only a missing note (`null`) offers creation, as the newer view's `noteIndex == null` (src/ui/calendarView.tsx:63) does | high, not executed | CalendarView.LegacyMissesTodayAtTop | CalendarView.OnClickDate |
| src/main.ts:72-76 | a folder rename rewrites the location whenever the old folder path is a string prefix of the file path, with no "/" boundary | note at `DailyNotes/Daily Notes.md`, folder `Daily` renamed to `Journal`: the location becomes `JournalNotes` although the file did not move | only a folder that contains the file (its path followed by "/" is a prefix) moves the note | medium, not executed | DailyNotes.RenameSiblingFolderMovesNote | DailyNotes.RenameBoundedKeepsSibling |
