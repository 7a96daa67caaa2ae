# Personal dashboard core, modelled in Dafny

This project models the rules inside the event handlers of a browser-local
React dashboard. It is built from immutable datatypes and pure functions, and
it proves what those rules promise. The dashboard has these parts:

- a habit tracker: a daily target, a per-day completion counter that wraps to
  zero, the streak and the seven-day grid;
- a todo list with filters;
- notes: word count, tags, pinning, search and sort;
- bookmarked links: a visit counter, the top six, and category sections;
- an analytics view: task and habit statistics, a seven-day trend, and a
  category breakdown with rounded percentages;
- a spreadsheet viewer: rectangular cell selection, the `row-col` cell key,
  tab-separated copy, sheet-to-JSON and JSON-to-sheet conversion, the stored
  file list, and download names;
- a history search box: filter, three-level ranking, a bounded highlight
  index driven by the arrow, Enter and Escape keys, and address-or-search
  navigation;
- a settings panel: defaults merged with saved values, single-key update, and
  backup export, import and clear-all.

Modelling choices:

- Ids (`Date.now()`) and the current time are parameters.
- Days are integers. Habit completions are a `map<int, nat>` keyed by day,
  because `toDateString()` is taken as an injective function of the day.
- Timestamps are integer milliseconds.
- Local storage is a `map<string, Value>` of parsed JSON values in the
  settings panel. The analytics view keeps the stored text and takes
  `JSON.parse` as decoder parameters, because its error path depends on
  whether each text parses. Both share the keys in `Storage`.
- Objects are ordered member sequences. Reading a key takes the last member
  with that key, and assigning a key replaces the value in place or appends
  a new member.

Modules, one per file:

| file | module | contents |
|---|---|---|
| `seqs.dfy` | `Seqs` | filter/count, delete-by-id, dedup, stable sort by a total preorder, `slice`, sorted sets of naturals |
| `text.dfy` | `Text` | JavaScript white space and `trim`, ASCII lower-casing, `includes`/`startsWith`, decimal strings, the `split(/\s+/)` word count, code-point string order |
| `storage.dfy` | `Storage` | the local-storage keys |
| `values.dfy` | `Values` | JSON values, object read/assign/spread/merge, truthiness, string conversion |
| `elapsed.dfy` | `Elapsed` | "Nm ago / Nh ago / Nd ago" labels |
| `habits.dfy` | `Habits` | HabitTracker |
| `tasks.dfy` | `Tasks` | TodoTasks |
| `notes.dfy` | `Notes` | Notes |
| `links.dfy` | `Links` | ImportantLinks |
| `reports.dfy` | `Reports` | Reports |
| `grid.dfy` | `Grid` | ExcelViewer's pure sheet utilities |
| `viewer.dfy` | `Viewer` | ExcelViewer's state transitions |
| `search.dfy` | `Search` | SearchBar |
| `settings.dfy` | `Settings` | Settings |

## Model

| member | source | states |
|---|---|---|
| Habits.AddHabit | src/components/HabitTracker.jsx:33-50 | a name that is blank after trimming leaves the habits unchanged; otherwise exactly one habit is appended after the old ones, with the trimmed non-empty name, the given id and target, and no completions |
| Habits.ToggleCompletion | src/components/HabitTracker.jsx:52-71 | only today's count of the habits with the id changes: it rises by one below the target and drops to 0 at or above it, so a count within 0..target stays within it; other days and other habits are unchanged |
| Habits.PressTimesAdd | src/components/HabitTracker.jsx:59-63 | pressing a times and then b times is the same as pressing a + b times |
| Habits.PressClimbs | src/components/HabitTracker.jsx:59-63 | from 0, the first `target` presses count 1, 2, …, target |
| Habits.PressCycle | src/components/HabitTracker.jsx:59-63 | from 0, target + 1 presses return to 0, so the counter is periodic with period target + 1 |
| Habits.ToggleRepeatedlyCounts | src/components/HabitTracker.jsx:52-71 | k presses through the collection act on today's count of the habits with the id exactly as k presses of the counter, and leave everything else alone |
| Habits.PressesWithTargetTwo | src/components/HabitTracker.jsx:59-63 | with target 2, the counts after 2, 3 and 4 presses from 0 are 2, 0 and 1 |
| Habits.DeleteHabit | src/components/HabitTracker.jsx:73-77 | exactly the habits with the id are removed, each other habit keeps its multiplicity and the order is kept |
| Habits.DeleteHabitIdempotent | src/components/HabitTracker.jsx:74 | deleting an id twice is the same as deleting it once |
| Habits.Streak | src/components/HabitTracker.jsx:79-97 | for a target of at least 1: the n days ending today all meet the target, the day before them does not, and n is at most the number of met days up to today |
| Habits.StreakCharacterization | src/components/HabitTracker.jsx:84-94 | the streak is n exactly when the n days ending today are met and day today − n is not |
| Habits.StreakZeroOnMissedToday | src/components/HabitTracker.jsx:86-92 | a count below target today (a missing entry counting 0) gives a streak of 0 |
| Habits.StreakLoopDiverges | src/components/HabitTracker.jsx:84-94 | with a target of 0 or less, the loop is still running after any number of rounds |
| Habits.StreakLoopAgrees | src/components/HabitTracker.jsx:84-94 | with a target of at least 1, the loop exits after streak + 1 rounds and returns the streak |
| Habits.TodayCompletion | src/components/HabitTracker.jsx:99-102 | today's count reaches the target exactly when today is met, and is 0 without an entry |
| Habits.WeeklyProgress | src/components/HabitTracker.jsx:104-123 | exactly 7 entries, oldest first, the last being today, each completed exactly when its day meets the target |
| Tasks.AddTask | src/components/TodoTasks.jsx:40-56 | a blank title leaves the list unchanged; otherwise one task is appended with the trimmed title, the form's other fields, and `completed` false |
| Tasks.ToggleTask | src/components/TodoTasks.jsx:58-64 | `completed` flips on the tasks with the id; every other task is unchanged |
| Tasks.ToggleTaskTwice | src/components/TodoTasks.jsx:59-61 | toggling the same id twice restores the list |
| Tasks.DeleteTask | src/components/TodoTasks.jsx:66-70 | exactly the tasks with the id are removed, each other task keeps its multiplicity and the order is kept |
| Tasks.DeleteTaskIdempotent | src/components/TodoTasks.jsx:67 | deleting an id twice is deleting it once |
| Tasks.FilterTasks | src/components/TodoTasks.jsx:72-83 | a task is listed exactly when the filter shows it, as often as it occurs, in list order |
| Tasks.FilterAllIsIdentity | src/components/TodoTasks.jsx:80-81 | the 'all' filter returns the list unchanged |
| Tasks.CompletedPendingPartition | src/components/TodoTasks.jsx:74-77 | 'completed' and 'pending' together hold every task exactly once |
| Tasks.HighWithinPending | src/components/TodoTasks.jsx:78-79 | 'high' is 'pending' narrowed to high priority, so it is a sub-list of it |
| Tasks.CompletedCount | src/components/TodoTasks.jsx:98-99 | completed ≤ total, with equality exactly when every task is completed, and 0 exactly when none is |
| Notes.CreateNote | src/components/Notes.jsx:37-55 | one note is put in front: 'Untitled Note', empty content, no tags, unpinned, word count 0, no mood, both timestamps now |
| Notes.UpdateNoteAsWritten | src/components/Notes.jsx:57-75 | the notes with the id take the patch and the time; the word count is recounted only for non-empty new content |
| Notes.ClearingContentLeavesStaleCount | src/components/Notes.jsx:64 | clearing a note that has words to '' leaves its old, now wrong, word count |
| Notes.UpdateNote | src/components/Notes.jsx:57-75 | each patched field takes the new value or keeps the old; the word count is the content's word count whenever content is patched; other notes are unchanged; an unknown id changes nothing |
| Notes.UpdateNoteKeepsCountsCurrent | src/components/Notes.jsx:64 | if every stored word count matches its content before an update, it still does after |
| Notes.UpdateNoteDiffersOnlyOnClear | src/components/Notes.jsx:64 | the corrected update differs from the one as written only when content is set to '' |
| Notes.DeleteNote | src/components/Notes.jsx:77-85 | exactly the notes with the id are removed, each other note keeps its multiplicity and the order is kept |
| Notes.DeleteNoteIdempotent | src/components/Notes.jsx:78 | deleting an id twice is deleting it once |
| Notes.FindNote | src/components/Notes.jsx:92 | the first note with the id, or none exactly when no note has it |
| Notes.TogglePin | src/components/Notes.jsx:87-89 | every note with the id becomes that note with its pin flag set to the negation of the first matching note's flag and `modifiedAt` set to now, all else kept (so with unique ids the flag is negated); other notes are unchanged |
| Notes.TogglePinTwice | src/components/Notes.jsx:87-89 | pinning twice restores every pin flag |
| Notes.AddTag | src/components/Notes.jsx:91-96 | an unknown note or a tag already present changes nothing; otherwise the tag is appended to the first matching note's tags |
| Notes.AddTagKeepsTagsDistinct | src/components/Notes.jsx:93-94 | duplicate-free tag lists stay duplicate-free, and the tag is on the note afterwards |
| Notes.RemoveTag | src/components/Notes.jsx:98-103 | the first matching note keeps exactly its other tags, in order; an unknown note changes nothing |
| Notes.RemoveTagRemovesAll | src/components/Notes.jsx:101 | afterwards the tag occurs nowhere in the note, and every other tag is kept |
| Notes.OrderIsTotalPreorder | src/components/Notes.jsx:110-121 | each of the four sort modes is a total preorder, given one for titles |
| Notes.FilteredNotes | src/components/Notes.jsx:105-121 | a note is listed exactly when the query occurs in its title or content ignoring case and it shares a selected tag (or none is selected); the list is a permutation of the matching notes, in sort-mode order, with notes the mode ranks level kept in collection order |
| Notes.SortedMatches | src/components/Notes.jsx:105-121 | any sorted permutation of the matching notes has exactly the matching notes, in order |
| Notes.EmptySearchListsAll | src/components/Notes.jsx:105-109 | an empty query with no selected tag lists every note |
| Notes.AllTagUses | src/components/Notes.jsx:123 | a tag is listed exactly when some note uses it |
| Notes.AllTags | src/components/Notes.jsx:123 | the tags in use, each exactly once, in strictly ascending code-point order |
| Notes.SortedTags | src/components/Notes.jsx:123 | sorting distinct tags keeps them distinct and the same set, in ascending order |
| Notes.FormatDate | src/components/Notes.jsx:126-138 | under a week the relative label; from seven days on, the date; a day label is always 1..6 days |
| Links.HandleLinkClick | src/components/ImportantLinks.jsx:34-47 | the clicked links' visit count rises by exactly one (missing counts 0) and their last visit becomes now; other links are unchanged |
| Links.ClickAddsVisits | src/components/ImportantLinks.jsx:39 | the total of all visit counts rises by the number of links with the id |
| Links.AddLink | src/components/ImportantLinks.jsx:49-67 | a blank title or address changes nothing; otherwise one link is appended with trimmed fields, 0 visits and no last visit |
| Links.DeleteLink | src/components/ImportantLinks.jsx:69-73 | exactly the links with the id are removed, each other link keeps its multiplicity and the order is kept |
| Links.DeleteLinkIdempotent | src/components/ImportantLinks.jsx:70 | deleting an id twice is deleting it once |
| Links.ByVisitsIsTotalPreorder | src/components/ImportantLinks.jsx:79 | "more visits first" is a total preorder |
| Links.TopVisited | src/components/ImportantLinks.jsx:76-81 | at most six links, all visited, by non-increasing visits; a visited link left out means six were shown, each with at least its visits; among equally visited links, those shown are the first ones in list order, in that order |
| Links.TopVisitedSorted | src/components/ImportantLinks.jsx:79-80 | the first six of a sorted list are in non-increasing visit order |
| Links.TopVisitedMembers | src/components/ImportantLinks.jsx:77-78 | every shown link is a visited link of the list |
| Links.TopVisitedIsTop | src/components/ImportantLinks.jsx:79-80 | no visited link left out has more visits than a shown one |
| Links.CategoryList | src/components/ImportantLinks.jsx:103 | the links' categories, position by position |
| Links.Categories | src/components/ImportantLinks.jsx:103 | the non-empty categories in use, each once, ordered by the first link that uses each |
| Links.Section | src/components/ImportantLinks.jsx:226-227 | a category section holds exactly the links of that category |
| Links.UncategorizedSection | src/components/ImportantLinks.jsx:293-294 | the Uncategorized section holds exactly the links with an empty category |
| Links.SectionsPartition | src/components/ImportantLinks.jsx:219-227 | every link is shown under its own category when it has one and under Uncategorized otherwise, and in no other section |
| Links.SectionSizes | src/components/ImportantLinks.jsx:286-294 | for distinct non-empty categories covering the links, section sizes plus the Uncategorized size add up to the number of links |
| Links.DisplayedSectionSizes | src/components/ImportantLinks.jsx:219-227 | the displayed sections together show every link once |
| Reports.HandleStorageChange | src/components/Reports.jsx:46-67 | a collection is replaced only when the event names its key, carries a non-empty value and that value decodes to an array, and then by that array; nothing else changes |
| Reports.LoadCollections | src/components/Reports.jsx:10-42 | if any stored text fails to parse, all three collections are empty; otherwise each collection is its stored text's decoded array when that text holds an array, and empty when it does not |
| Reports.StorageEventMatchesReload | src/components/Reports.jsx:46-67 | an event carrying a collection's new text leaves the collections as reloading the updated store would, when neither store holds unparsable text |
| Reports.RoundDiv | src/components/Reports.jsx:113 | `Math.round(a / b)`: the nearest integer, halves rounded up |
| Reports.RoundDivAtMost | src/components/Reports.jsx:113 | a quotient of at most k rounds to at most k |
| Reports.Percentage | src/components/Reports.jsx:166-171 | 0 for a zero total; otherwise the rounded share × 100; at most 100 when part ≤ total |
| Reports.PercentageAtMostHundred | src/components/Reports.jsx:170 | a part no larger than the total rounds to at most 100 |
| Reports.GetTaskStats | src/components/Reports.jsx:73-83 | total is the list length; completed is the todo list's completed count; high priority is the number of high-priority tasks; overdue is the number of pending tasks due before now; completed, high priority ≤ total; overdue ≤ pending |
| Reports.TaskStatsMatchFilters | src/components/Reports.jsx:73-83 | the statistics agree with the todo list's own filters: total is completed plus the pending list's length, the pending high-priority tasks are at most the high-priority count, and the overdue tasks are the overdue ones of the pending list |
| Reports.GetHabitStats | src/components/Reports.jsx:85-116 | completed today counts the habits met today, at most total; the average is the rounded mean of the habit tracker's streaks, and 0 with no habits |
| Reports.CompletedTodayCountsRunningStreaks | src/components/Reports.jsx:88-108 | the habits met today are exactly those with a running streak |
| Reports.AverageStreakAtMostLongest | src/components/Reports.jsx:94-113 | the average streak never exceeds a bound on every streak |
| Reports.TrendFor | src/components/Reports.jsx:125-146 | a day's task count is the completed tasks created that day; its habit count is the habits met that day, at most the number of habits; total = tasks + habits |
| Reports.ProductivityTrend | src/components/Reports.jsx:118-150 | 7 days, oldest first, ending today, each as above; the task counts sum to at most the completed tasks |
| Reports.TrendDays | src/components/Reports.jsx:122-147 | the seven day records are the consecutive days ending today, with the counts above |
| Reports.TrendTaskSum | src/components/Reports.jsx:128-132 | over seven consecutive days, the task counts add up to at most the number of completed tasks |
| Reports.DaysCountingAtMostOnce | src/components/Reports.jsx:128-132 | distinct days count a task at most once, and never an incomplete one |
| Reports.CompletedTasksOnDistinctDays | src/components/Reports.jsx:128-132 | the task counts of any distinct days add up to at most the completed tasks |
| Reports.Bump | src/components/Reports.jsx:156-163 | a known category's group counts one more task (and one more completed one when done); a new category gets a group of 1 at the end |
| Reports.BumpTotal | src/components/Reports.jsx:160 | each task adds exactly one to the sum of group totals |
| Reports.Tally | src/components/Reports.jsx:153-164 | distinct group names, every group with total ≥ 1 and completed ≤ total, and totals summing to the number of tasks |
| Reports.TallyNames | src/components/Reports.jsx:155-164 | the groups are exactly the category names of the tasks |
| Reports.TallyCounts | src/components/Reports.jsx:155-164 | each group counts exactly its category's tasks, and exactly its completed ones |
| Reports.CategoryBreakdown | src/components/Reports.jsx:166-171 | one row per group with its counts and a percentage in 0..100 |
| Reports.CategoryBreakdownSummary | src/components/Reports.jsx:152-172 | distinct names covering every task's category, per-row counts of that category, totals summing to the task count |
| Reports.TallyAsWritten | src/components/Reports.jsx:153-164 | the accumulator as written, which skips categories named like `Object.prototype` members, still yields distinct group names, each with total ≥ 1 and completed ≤ total |
| Reports.TallyAsWrittenDropsInherited | src/components/Reports.jsx:157-159 | the accumulator as written is the corrected tally of exactly the tasks whose category is not an inherited name |
| Reports.TallyAsWrittenTotal | src/components/Reports.jsx:155-163 | its group totals count exactly the tasks with an own category name, and fall short of the task count by the tasks with an inherited one |
| Reports.InheritedCategoryVanishes | src/components/Reports.jsx:157 | a single task with category "constructor" gets no group as written and a group of one when corrected |
| Reports.CategoryBreakdownAsWritten | src/components/Reports.jsx:152-172 | the breakdown as written is the corrected breakdown of the tasks without an inherited category name |
| Reports.EmptyCategoryIsUncategorized | src/components/Reports.jsx:156 | a task without a category makes an "Uncategorized" row |
| Reports.CompletionRate | src/components/Reports.jsx:325 | 0 with no tasks; otherwise the rounded completed share, in 0..100 |
| Reports.HabitCompletionRate | src/components/Reports.jsx:326 | 0 with no habits; otherwise the rounded share met today, in 0..100 |
| Reports.RatesWithinRange | src/components/Reports.jsx:325-326 | both rates of computed statistics lie in 0..100 |
| Grid.CellKeyRoundTrip | src/components/ExcelViewer.jsx:214-222 | splitting a cell key at '-' and reading both numbers gives back its cell |
| Grid.CellKeyInjective | src/components/ExcelViewer.jsx:175 | two cells have the same key exactly when they are the same cell |
| Grid.RectMembers | src/components/ExcelViewer.jsx:181-190 | the drag rectangle holds exactly the cells between the corners, includes both, and is one cell for equal corners |
| Grid.RectSymmetric | src/components/ExcelViewer.jsx:181-184 | the rectangle does not depend on which corner is the anchor |
| Grid.SelectRect | src/components/ExcelViewer.jsx:178-193 | the two loops select exactly the rectangle, with (Δrows + 1)·(Δcols + 1) cells |
| Grid.AddRow | src/components/ExcelViewer.jsx:187-189 | the inner loop adds exactly one row of the block, c1 − c0 + 1 new cells |
| Grid.OrEmpty | src/components/ExcelViewer.jsx:224 | `x \|\| ''`: a truthy value is kept, anything else becomes '' |
| Grid.CellTextDiffers | src/components/ExcelViewer.jsx:224 | the copied text differs from the cell's printed value exactly on cells holding 0 or false |
| Grid.ZeroCopiedAsEmpty | src/components/ExcelViewer.jsx:224 | a 0 cell is copied as '' where printing gives "0" |
| Grid.SelectedRows | src/components/ExcelViewer.jsx:212-223 | the rows having a selected cell, each once, ascending |
| Grid.SelectedCols | src/components/ExcelViewer.jsx:212-217 | a row's selected columns, each once, ascending |
| Grid.CopyOrder | src/components/ExcelViewer.jsx:212-225 | one group per selected row, ascending, each group that row's cells by ascending column |
| Grid.CopyOrderShape | src/components/ExcelViewer.jsx:212-225 | groups are non-empty, hold selected cells of one row, rows ascend between groups and columns ascend within one |
| Grid.CopyOrderCovers | src/components/ExcelViewer.jsx:221-225 | every selected cell is in some group |
| Grid.CopyTextCongruent | src/components/ExcelViewer.jsx:227-230 | the clipboard text depends only on how the selected cells print |
| Grid.CopySelectionAsWritten | src/components/ExcelViewer.jsx:206-235 | no text for an empty selection, a text otherwise |
| Grid.CopySelection | src/components/ExcelViewer.jsx:206-235 | the corrected copy: no text exactly for an empty selection; otherwise the selection's lines (rows ascending, cells by ascending column, as Grid.CopyOrder states) with each present cell printed as its value and a missing one as '' |
| Grid.CopiesAgreeWithoutFalsyCells | src/components/ExcelViewer.jsx:224 | without a 0 or false cell selected, both copies give the same text |
| Grid.CopySingleCell | src/components/ExcelViewer.jsx:227-230 | the copy of one cell is that cell's text alone, with no tab or newline |
| Grid.SingleZeroCopiedAsEmpty | src/components/ExcelViewer.jsx:224 | a single selected 0 is copied as '' as written and as "0" when corrected |
| Grid.Assign | src/components/ExcelViewer.jsx:247-250 | assigning keys to a fresh object gives it exactly those keys |
| Grid.AssignGet | src/components/ExcelViewer.jsx:248-249 | a key holds the value of its last assignment |
| Grid.AssignDistinct | src/components/ExcelViewer.jsx:248-249 | distinct keys give one member per key, in order, paired with its value |
| Grid.HeaderKeys | src/components/ExcelViewer.jsx:249 | each header gives its text, or `Column_i+1` when empty |
| Grid.RowObject | src/components/ExcelViewer.jsx:246-252 | a data row's object has exactly the header keys |
| Grid.RowObjectField | src/components/ExcelViewer.jsx:249 | a header key that no later header repeats reads the row's cell at that column, or '' when missing or falsy |
| Grid.ConvertToJSON | src/components/ExcelViewer.jsx:238-255 | nothing for an empty sheet; otherwise rows − 1 objects, the k-th built from data row k + 1 by the header row |
| Grid.SelectedRowObject | src/components/ExcelViewer.jsx:303-313 | a selected row's object has a key for exactly the headers of its selected columns |
| Grid.SelectionToJSON | src/components/ExcelViewer.jsx:286-319 | nothing for an empty selection or an empty sheet; otherwise one object per selected row, ascending |
| Grid.SelectedRowFields | src/components/ExcelViewer.jsx:307-311 | with distinct header keys, each selected column's key reads its cell or '' |
| Grid.ObjectKeysOfDistinct | src/components/ExcelViewer.jsx:331 | the keys of an object without repeated keys are its member keys in order |
| Grid.ImportRow | src/components/ExcelViewer.jsx:336 | each header reads the element's value under it, or '' when missing or falsy; the row has one cell per header |
| Grid.ImportJSON | src/components/ExcelViewer.jsx:322-364 | text that does not parse is an error; anything but a non-empty array is rejected; a non-empty array goes on to the array import |
| Grid.ImportArray | src/components/ExcelViewer.jsx:330-337 | it succeeds exactly when the first element has keys and no element is null; the sheet is the header row and one row per element, every row as long as the header |
| Grid.ImportedRowObject | src/components/ExcelViewer.jsx:334-337 | an object with distinct, non-empty keys and truthy values is rebuilt exactly from its imported row |
| Grid.ImportThenConvert | src/components/ExcelViewer.jsx:322-347 | importing objects that share distinct non-empty keys and truthy values, then converting the sheet back, returns the same objects |
| Grid.ConvertThenImport | src/components/ExcelViewer.jsx:238-254 | a sheet with distinct non-empty string headers and full rows of truthy cells survives conversion followed by import |
| Grid.ConvertedRowMembers | src/components/ExcelViewer.jsx:246-252 | a full row under distinct non-empty headers becomes the header-to-cell pairs, in order |
| Grid.ImportOfRows | src/components/ExcelViewer.jsx:334-337 | objects whose first keys are the headers import as the header row followed by their rows |
| Grid.ConvertedRows | src/components/ExcelViewer.jsx:246-252 | each converted object has the header keys and imports back as its data row |
| Grid.StripExtension | src/components/ExcelViewer.jsx:277 | the result is a prefix of the name; it is shorter exactly when the name ends in a dot followed by one or more characters other than '.' and '/', and then exactly that suffix is gone |
| Grid.StripAppendedExtension | src/components/ExcelViewer.jsx:277 | appending '.' and an extension, then stripping, gives back the base |
| Grid.DownloadStem | src/components/ExcelViewer.jsx:277 | the stripped name when it is non-empty, otherwise the fallback |
| Grid.SaveKeepsXlsxName | src/components/ExcelViewer.jsx:381 | saving a workbook named base.xlsx, for a non-empty base, keeps that name |
| Viewer.UpdateFile | src/components/ExcelViewer.jsx:43-50 | the files with the id become that file with only the patched name and last-opened time replaced (path, date added, size, type and data kept); other files are unchanged, and the rename editor closes |
| Viewer.EmptyPatchKeepsFiles | src/components/ExcelViewer.jsx:44-46 | an empty patch changes no file |
| Viewer.DeleteFile | src/components/ExcelViewer.jsx:53-61 | exactly the files with the id go, each other file keeps its multiplicity and the order is kept; the open workbook closes exactly when it is that file |
| Viewer.DeleteFileIdempotent | src/components/ExcelViewer.jsx:54 | deleting an id twice is deleting it once |
| Viewer.SwitchSheet | src/components/ExcelViewer.jsx:445-448 | the sheet index changes, the selection empties, nothing else changes |
| Viewer.MouseDown | src/components/ExcelViewer.jsx:172-176 | the selection is exactly the pressed cell, which becomes the anchor, and a drag starts |
| Viewer.MouseEnter | src/components/ExcelViewer.jsx:178-193 | during a drag the selection becomes the rectangle from the anchor; otherwise nothing changes |
| Viewer.MouseUp | src/components/ExcelViewer.jsx:195-197 | the drag ends and the selection stays |
| Viewer.CellClick | src/components/ExcelViewer.jsx:199-203 | outside a drag a click selects that cell alone; during one it does nothing |
| Viewer.DragSelectsRectangle | src/components/ExcelViewer.jsx:172-193 | pressing on p and entering q selects the rectangle from p to q; entering p again selects only p |
| Viewer.ClickSelectsCell | src/components/ExcelViewer.jsx:195-203 | press, release and click on a cell select it alone, with no drag running |
| Viewer.EventsKeepSelectionRectangular | src/components/ExcelViewer.jsx:172-203 | every selection event keeps the selection empty or a rectangle |
| Viewer.CurrentSheet | src/components/ExcelViewer.jsx:209 | the current sheet exists exactly when a workbook is open and the index is within it |
| Viewer.CopyCells | src/components/ExcelViewer.jsx:206-235 | the corrected copy: a copy happens exactly with a non-empty selection on an existing sheet, and is that sheet's corrected copy |
| Viewer.CopyCellsAsWritten | src/components/ExcelViewer.jsx:206-235 | the copy as written: a copy happens exactly with a non-empty selection on an existing sheet, and is that sheet's copy that blanks falsy cells |
| Viewer.CopyCellsBlanksZero | src/components/ExcelViewer.jsx:224 | one selected 0 cell copies as '' as written and as "0" when corrected |
| Viewer.SheetAsJSON | src/components/ExcelViewer.jsx:258-266 | objects exactly when the current sheet exists and is non-empty; the k-th is data row k + 1 keyed by the header row |
| Viewer.SelectionAsJSON | src/components/ExcelViewer.jsx:286-319 | objects exactly with a selection on an existing non-empty sheet; the i-th is the i-th selected row's object over its selected columns |
| Viewer.ApplyImport | src/components/ExcelViewer.jsx:322-364 | a successful import opens a one-sheet workbook named 'Imported_Data' at sheet 0 with an empty selection and no file id, changing nothing else (files, rename editor and drag state kept); a failed one changes nothing |
| Viewer.DeleteKeepsImportedSheet | src/components/ExcelViewer.jsx:57-60 | deleting a stored file never closes a sheet built from imported JSON |
| Search.ByRankIsTotalPreorder | src/components/SearchBar.jsx:32-42 | the ranking is a total preorder |
| Search.Matching | src/components/SearchBar.jsx:27-31 | the entries whose title or address contains the query ignoring case, in history order |
| Search.SearchResults | src/components/SearchBar.jsx:25-50 | nothing for a blank query; otherwise matching entries only, at most 8 (exactly min(matches, 8)), in rank order, and any match left out is outranked by all 8 shown; among equally ranked matches, those shown are the first ones in history order, in that order |
| Search.ResultsRanked | src/components/SearchBar.jsx:32-43 | the first eight of a ranked list are in rank order |
| Search.ResultsMatch | src/components/SearchBar.jsx:27-43 | every shown entry is a matching history entry |
| Search.ResultsAreTop | src/components/SearchBar.jsx:43 | a matching entry left out means eight are shown, each ranked at least as high |
| Search.TitleMatchesFirst | src/components/SearchBar.jsx:34-38 | a result whose title starts with the query is never after one whose title does not |
| Search.QueryEffect | src/components/SearchBar.jsx:25-50 | a blank query empties the results and keeps the highlight; another query sets the ranked results and clears the highlight |
| Search.QueryEffectIndex | src/components/SearchBar.jsx:46-48 | after a non-blank query the highlight is in range; after a blank one a highlighted index is left pointing past the empty results |
| Search.NavigationUrl | src/components/SearchBar.jsx:97-109 | input with a dot and no space becomes an address, with `https://` prepended unless it starts with `http://` or `https://`; anything else becomes a search address for the encoded input |
| Search.NavigationUrlIdempotent | src/components/SearchBar.jsx:101-104 | normalising an address twice is normalising it once |
| Search.DirectNavigation | src/components/SearchBar.jsx:97-115 | opens the normalised target and closes the box |
| Search.ResultClick | src/components/SearchBar.jsx:89-95 | opens the entry's address and closes the box |
| Search.Enter | src/components/SearchBar.jsx:77-85 | a valid highlight opens that result; otherwise a non-blank query navigates to its trimmed text; otherwise nothing happens |
| Search.HandleKey | src/components/SearchBar.jsx:52-87 | Ctrl/Meta-K opens a closed box, a closed box ignores other keys, Escape closes; on an open box ArrowDown moves the highlight one down, stopping at the last result, and ArrowUp one up, stopping at −1, changing nothing else; Enter as above, other keys do nothing |
| Search.KeysKeepIndexInRange | src/components/SearchBar.jsx:69-76 | every key keeps the highlight within −1 .. results − 1 when it starts there, also with no results |
| Search.ArrowDownRestoresRange | src/components/SearchBar.jsx:69-72 | from any highlight of −2 or more, a stale one past the results included, ArrowDown lands within −1 .. results − 1 |
| Search.EnterOnBlankDoesNothing | src/components/SearchBar.jsx:77-85 | with no results and a blank query, Enter changes nothing and opens nothing |
| Search.ExitsReset | src/components/SearchBar.jsx:63-68 | Escape, a result click and direct navigation all leave the box closed, with an empty query, no results and index −1 |
| Search.FormatTimeAgo | src/components/SearchBar.jsx:117-127 | minutes under an hour, hours under a day, days otherwise, each the floor of the elapsed milliseconds by its unit |
| Elapsed.Floor | src/components/SearchBar.jsx:120-122 | `Math.floor(diff / unit)`: the q with q·unit ≤ diff < (q + 1)·unit, negative differences included |
| Elapsed.Relative | src/components/SearchBar.jsx:124-126 | minutes (< 60) under an hour, hours (1..23) under a day, days (≥ 1) otherwise, each the floor of the difference by its unit |
| Settings.LoadSettings | src/components/Settings.jsx:26-35 | saved keys override the defaults, other keys keep their default; nothing saved or unparsable text gives the defaults |
| Settings.LoadedHasDefaultKeys | src/components/Settings.jsx:4-30 | loaded settings always have every default key |
| Settings.SaveSettings | src/components/Settings.jsx:37-44 | the object becomes the settings and is stored under 'appSettings'; no other key of storage changes |
| Settings.UpdateSetting | src/components/Settings.jsx:46-49 | the key reads the new value, every other key reads as before, the key order is kept (a new key goes last), and the result is stored |
| Settings.UpdateThenLoad | src/components/Settings.jsx:46-49 | after an update, loading the stored settings reads the same value under every key |
| Settings.ExportPayload | src/components/Settings.jsx:51-59 | the payload keys are the four collections, 'settings' and 'exportDate', in that order; each collection is its stored value or [] |
| Settings.WriteIfCarried | src/components/Settings.jsx:79 | a truthy carried value is written under its key; otherwise storage is unchanged |
| Settings.WriteCollectionsEffect | src/components/Settings.jsx:79-82 | exactly the carried collections are written; every other key keeps its value or absence |
| Settings.ImportData | src/components/Settings.jsx:71-92 | unparsable or null text fails and writes nothing; otherwise exactly the carried collections are written, carried settings are merged over the current ones and saved, and nothing else changes |
| Settings.ExportThenImport | src/components/Settings.jsx:52-83 | importing a backup restores its four collections exactly, merges its settings, and leaves every other key of the target alone |
| Settings.PayloadCarries | src/components/Settings.jsx:52-58 | a backup carries each of its four collections and its settings |
| Settings.ClearAllDataAsWritten | src/components/Settings.jsx:94-103 | a confirmed clear removes exactly the four collections and 'appSettings'; an unconfirmed one changes nothing |
| Settings.ClearAllKeepsExcelFiles | src/components/Settings.jsx:96-100 | stored spreadsheet files survive a confirmed clear as written |
| Settings.ClearAllData | src/components/Settings.jsx:94-103 | the corrected clear removes exactly every key the dashboard writes, 'excelFiles' included |
| Settings.ClearedDashboardIsFresh | src/components/Settings.jsx:94-103 | after a corrected clear the settings load as the defaults, a backup carries empty collections, and no spreadsheet file is left |
| Seqs.Filter | src/components/TodoTasks.jsx:72-83 | exactly the kept elements, no more than the input |
| Seqs.FilterIsSubsequence | src/components/TodoTasks.jsx:72-83 | the filter keeps the input order: it is a subsequence of the input |
| Seqs.FilterMultiset | src/components/TodoTasks.jsx:72-83 | a kept element occurs in the filter as often as in the input, a dropped one not at all |
| Seqs.FilterPartition | src/components/TodoTasks.jsx:74-77 | a predicate and its negation split a list into two parts that together hold every element once |
| Seqs.FilterMonotone | src/components/TodoTasks.jsx:78-79 | filtering by a stronger predicate is filtering the weaker filter's result |
| Seqs.WithoutId | src/components/TodoTasks.jsx:67 | exactly the elements with other ids, each with its multiplicity, in order; unchanged when no element has the id |
| Seqs.WithoutIdIdempotent | src/components/TodoTasks.jsx:67 | deleting an id twice is deleting it once |
| Seqs.Dedup | src/components/ImportantLinks.jsx:103 | `[...new Set(s)]`: the same elements, each once, ordered by first occurrence in the input |
| Seqs.FirstPos | src/components/ImportantLinks.jsx:103 | the position of an element's first occurrence: it holds the element, and no earlier position does |
| Seqs.FilterFirstPos | src/components/ImportantLinks.jsx:103 | filtering keeps the first-occurrence order of any two kept elements, both ways |
| Seqs.DedupOfDistinct | src/components/ImportantLinks.jsx:103 | a list without repeats is its own dedup |
| Seqs.Take | src/components/SearchBar.jsx:43 | `slice(0, n)`: the prefix of length min(n, length) |
| Seqs.FilterTakePrefix | src/components/SearchBar.jsx:43 | filtering the first n elements gives a prefix of filtering them all |
| Seqs.SortBy | src/components/ImportantLinks.jsx:79 | for a total preorder: a sorted permutation of the input that is stable, keeping equally ranked elements in input order |
| Seqs.InsertSorted | src/components/ImportantLinks.jsx:79 | inserting into a sorted list keeps it sorted |
| Seqs.InsertStable | src/components/ImportantLinks.jsx:79 | inserting an element puts it after every element ranked equal to it |
| Seqs.TakeOfSortedIsTop | src/components/ImportantLinks.jsx:79-80 | an element of a sorted list left out of its first n means n were taken, each ordered before it |
| Seqs.SortedSeq | src/components/ExcelViewer.jsx:212-217 | a finite set of naturals listed once each |
| Seqs.SortedSeqIncreasing | src/components/ExcelViewer.jsx:212-217 | that listing is strictly ascending |
| Text.Trim | src/components/HabitTracker.jsx:35 | the slice left after dropping white space at both ends; empty exactly for a blank text, otherwise starting and ending with a non-space |
| Text.ToLower | src/components/Notes.jsx:106 | each character lower-cased, the length kept |
| Text.PrefixIsContained | src/components/SearchBar.jsx:34 | a title that starts with the query also contains it |
| Text.NatToString | src/components/ExcelViewer.jsx:175 | a non-empty digit string |
| Text.NatToStringRoundTrip | src/components/ExcelViewer.jsx:222 | reading a number's digit string back gives the number |
| Text.NatToStringInjective | src/components/ExcelViewer.jsx:175 | different numbers have different digit strings |
| Text.IndexOf | src/components/ExcelViewer.jsx:222 | the first position of a character, or none when it does not occur |
| Text.LastIndexOf | src/components/ExcelViewer.jsx:277 | the last position of a character, or none when it does not occur |
| Text.SplitFromCount | src/components/Notes.jsx:64 | the non-empty pieces of a white-space split are the runs of non-space characters |
| Text.WordCountIsRunCount | src/components/Notes.jsx:64 | the word count is the number of maximal runs of non-space characters |
| Text.WordCountBlank | src/components/Notes.jsx:64 | a blank text, the empty one included, has no words |
| Text.LexLeIsTotalPreorder | src/components/Notes.jsx:123 | code-point order is a total preorder |
| Text.LexLeAntisymmetric | src/components/Notes.jsx:123 | two strings ordered both ways are equal |
| Values.GetSome | src/components/Settings.jsx:79 | a key reads a value exactly when some member carries it |
| Values.GetDistinct | src/components/Settings.jsx:79 | in an object without repeated keys each member's key reads its value |
| Values.Put | src/components/Settings.jsx:47 | the key reads the new value, others read as before; a known key keeps its place, a new key goes last |
| Values.PutAppends | src/components/Settings.jsx:47 | assigning a new key appends one member |
| Values.Merge | src/components/Settings.jsx:30 | `{...a, ...b}`: keys of b read b's value, other keys read a's |

## Left out

- Rendering, CSS, hook wiring and the `activeNote` mirror are UI plumbing with no rule beyond the ones above.
- `localStorage`, `JSON.parse`/`JSON.stringify` and the `storage` event subscription are browser I/O. Storage is a map of parsed values, and a text's parse is an input (`Parsed`, `Option<Parsed>`). In the analytics view the three collection decoders are opaque parameters.
- The spreadsheet library (`XLSX.read`, `write`, `aoa_to_sheet`, `writeFile`), `FileReader`, `Blob`, object URLs, anchor-click downloads, `navigator.clipboard` and `window.open` are foreign code and side effects. `handleFileSelect`, `parseExcelData`, `openFile`'s byte decoding, `saveAsExcel`, `saveToFileManager` and `handleJsonFileImport` are left out for that reason. Their names and the `lastOpened` patch are modelled; the clipboard text and the opened address are results.
- `encodeURIComponent` is an opaque function parameter. The favicon and domain helpers (`new URL`) are a library parser.
- Date formatting (`toDateString`, `toLocaleDateString`, weekday labels, `toISOString`) and time-zone or DST effects of `setDate` are not modelled. Days are integers and a timestamp's day is its millisecond count divided by 86 400 000; `Elapsed.OnDate` stands for the locale date.
- Notes.FilteredNotes: title order (`localeCompare`) is an arbitrary total preorder passed in, not locale collation.
- Chart geometry, progress-bar widths and all floating point are not modelled. Numbers are integers; fractional values and `NaN` (for example from `parseInt` of an empty target) are not.
- Reports.Percentage: computes the rounding of 100·part/total exactly, whereas the source rounds the float (part/total)·100, which can differ at exact halves because of floating-point error.
- Reports.CompletionRate: uses Reports.Percentage, so it rounds 100·completed/total exactly where the source rounds the float (completed/total)·100; 23 completed of 40 gives 58 here and 57 in the source.
- Reports.HabitCompletionRate: the same exact rounding in place of the source's float rounding, as for Reports.CompletionRate.
- Reports.TallyAsWritten: keeps insertion order, whereas `Object.entries` lists category names that are array indices first, in ascending order.
- Reports.CategoryBreakdownAsWritten: inherits the exact rounding of Reports.Percentage (not the source's float rounding) and the insertion order of Reports.TallyAsWritten (not the array-index-first order of `Object.entries`).
- Reports.Tally: groups are enumerated in insertion order; JavaScript enumerates category names that are array indices ("0", "12") first, in ascending order.
- Grid.Assign: the same ordering rule for header names that are array indices is not modelled; object keys keep insertion order.
- Reports.Tally: counts every task, the intended behaviour. As written, a category named like an `Object.prototype` member (`constructor`, `toString`, ...) gets no group, which Reports.TallyAsWritten models (see Findings); the increments that land on the inherited value instead (turning, say, `Object.prototype.constructor.total` into `NaN`) are not modelled.
- Reports.Bump: states the corrected tally; for tasks whose category is an inherited `Object.prototype` name the source differs as described for Reports.Tally, and Reports.CategoryBreakdownAsWritten gives the breakdown as written.
- Reports.BumpTotal: states the corrected tally; for tasks whose category is an inherited `Object.prototype` name the source differs as described for Reports.Tally, and Reports.CategoryBreakdownAsWritten gives the breakdown as written.
- Reports.TallyNames: states the corrected tally; for tasks whose category is an inherited `Object.prototype` name the source differs as described for Reports.Tally, and Reports.CategoryBreakdownAsWritten gives the breakdown as written.
- Reports.TallyCounts: states the corrected tally; for tasks whose category is an inherited `Object.prototype` name the source differs as described for Reports.Tally, and Reports.CategoryBreakdownAsWritten gives the breakdown as written.
- Reports.CategoryBreakdown: states the corrected tally; for tasks whose category is an inherited `Object.prototype` name the source differs as described for Reports.Tally, and Reports.CategoryBreakdownAsWritten gives the breakdown as written. Its percentage is Reports.Percentage, exact rounding, where the source rounds a float (23 completed of 40 gives 58 here and 57 in the source); its rows keep insertion order, as for Reports.Tally.
- Reports.CategoryBreakdownSummary: states the corrected tally; for tasks whose category is an inherited `Object.prototype` name the source differs as described for Reports.Tally, and Reports.CategoryBreakdownAsWritten gives the breakdown as written.
- Grid.Assign: holds only for keys outside Values.ObjectPrototypeNames. In JavaScript, assigning a primitive under `__proto__` creates no own key; the model appends a `__proto__` member like any other key.
- Grid.AssignGet: holds only for keys outside Values.ObjectPrototypeNames; the `__proto__` assignment is not modelled as JavaScript performs it.
- Grid.AssignDistinct: holds only for keys outside Values.ObjectPrototypeNames, for the reason given for Grid.Assign, and only when no key is an array index: JavaScript enumerates integer-like keys (array indices such as "0" or "12") first, in ascending order, and the model keeps insertion order throughout.
- Grid.RowObject: holds only for header keys outside Values.ObjectPrototypeNames; a `__proto__` header creates no own key in JavaScript.
- Grid.RowObjectField: holds only for header keys outside Values.ObjectPrototypeNames; a `__proto__` header creates no own key in JavaScript.
- Grid.SelectedRowObject: holds only for header keys outside Values.ObjectPrototypeNames; a `__proto__` header creates no own key in JavaScript.
- Grid.SelectedRowFields: holds only for header keys outside Values.ObjectPrototypeNames; a `__proto__` header creates no own key in JavaScript.
- Grid.ImportRow: holds only for keys outside Values.ObjectPrototypeNames. In JavaScript, reading a missing inherited name such as `toString` yields a function where the model yields '', and a `__proto__` key creates no own member. An element that is not an object reads its own prototype in JavaScript: a string or array element under `length` gives its length, and under names such as `concat` (or a number under `toFixed`) a function; the model gives '' for every key such an element lacks (for [{"length":1},"abc"] the source's second row is [3], the model's [""]).
- Grid.ImportedRowObject: holds only for keys outside Values.ObjectPrototypeNames. In JavaScript, reading a missing inherited name such as `toString` yields a function where the model yields '', and a `__proto__` key creates no own member.
- Grid.ImportThenConvert: holds only for keys outside Values.ObjectPrototypeNames. In JavaScript, reading a missing inherited name such as `toString` yields a function where the model yields '', and a `__proto__` key creates no own member.
- Grid.ConvertThenImport: holds only for keys outside Values.ObjectPrototypeNames and only for headers that are not array indices. In JavaScript, reading a missing inherited name such as `toString` yields a function where the model yields '', and a `__proto__` key creates no own member; and JavaScript enumerates integer-like keys (array indices such as "0" or "12") first, in ascending order, and the model keeps insertion order throughout, so the sheet [["b","1"],["x","y"]] comes back with its columns swapped in the source.
- Grid.ConvertedRowMembers: holds only for keys outside Values.ObjectPrototypeNames and only for headers that are not array indices. In JavaScript, reading a missing inherited name such as `toString` yields a function where the model yields '', and a `__proto__` key creates no own member; and JavaScript enumerates integer-like keys (array indices such as "0" or "12") first, in ascending order, and the model keeps insertion order throughout.
- Grid.ConvertedRows: holds only for keys outside Values.ObjectPrototypeNames and only for headers that are not array indices. In JavaScript, reading a missing inherited name such as `toString` yields a function where the model yields '', and a `__proto__` key creates no own member; and JavaScript enumerates integer-like keys (array indices such as "0" or "12") first, in ascending order, and the model keeps insertion order throughout.
- Notes.AllTags: orders by code point, whereas the default `sort` compares UTF-16 code units. The two orders differ only between a character above U+FFFF and one in U+E000..U+FFFF.
- Reports.GetHabitStats: requires every target to be at least 1, because the source's streak loop (lines 98-108) never ends otherwise (see Findings).
- Habits.Streak: requires a target of at least 1 for the same reason; `Habits.StreakLoop` models the loop itself with an iteration budget.
- Text.ToLower: lower-cases ASCII letters only, not the full Unicode case mapping of `toLowerCase`.
- Text.NatToString: integers only, without the exponent notation JavaScript uses from 10^21 on.
- Values.Truthy: `NaN` is not a value of the model.
- Grid.ImportArray: the payload size recorded for the imported file (`new Blob([jsonInput]).size`) and the closing of the import dialog are not modelled. Its rows are built by Grid.ImportRow, so the inherited-name and non-object-element reads listed there differ from the source in the same way.
- Grid.ImportJSON: runs Grid.ImportArray, so the reads listed for Grid.ImportRow differ from the source in the same way.
- `src/App.jsx`, `src/components/Clock.jsx` and `src/components/QuickActions.jsx` are view switching, timers and key dispatch, and are not part of this model.
- The search history is a parameter; the fixed sample history of the search box is not modelled. The Ctrl-K focus timeout is a side effect.
- Notes' `exportNotes` download and the backup's download address and file name are side effects. The export date is a parameter.

## Findings

| source | as written | input that shows it | evidently intended | confidence | as-written member | corrected member |
|---|---|---|---|---|---|---|
| src/components/HabitTracker.jsx:84-94 | the streak loop stops only at a day whose count is below the target, and a missing day counts 0 (the analytics view repeats the loop) | a habit with target 0, for example restored from a backup: every day meets it and the loop never exits | a streak that always ends, with targets of at least 1 | not executed; medium (the add form's minimum of 1 blocks 0 there, a backup import does not) | Habits.StreakLoopDiverges | Habits.Streak |
| src/components/Notes.jsx:64 | the word count is recounted only when the new content is truthy | clearing a note with words to '': content becomes '' and the old count stays | the count of the new content, 0 for '' | not executed; high | Notes.ClearingContentLeavesStaleCount | Notes.UpdateNote |
| src/components/Settings.jsx:96-100 | clear-all removes the four collections and 'appSettings' only | a store holding 'excelFiles': the spreadsheet files survive a confirmed "clear all data" | every key the dashboard writes is removed, 'excelFiles' included | not executed; medium | Settings.ClearAllKeepsExcelFiles | Settings.ClearAllData |
| src/components/ExcelViewer.jsx:224 | each copied cell is `value \|\| ''`, so a falsy value is blanked | a selected cell holding 0: the clipboard receives '' instead of "0" | only a missing cell is copied as '' | not executed; high | Grid.SingleZeroCopiedAsEmpty | Grid.CopySelection |
| src/components/Reports.jsx:155-163 | the accumulator is a plain `{}`, so `!categories[category]` is false for a name the object inherits, and no group is created | a task with category "constructor": it gets no row, and the row totals fall one short of the task count | every task counted under its category (an accumulator without a prototype, such as a `Map`) | not executed; high | Reports.TallyAsWritten | Reports.Tally |
