# Democratic-school timetable: a Dafny model of the selection core

The application is a browser timetable for a democratic school. It shows a
catalog of courses, each taught on one weekday (ראשון to חמישי) in one
of six periods ("שעה 1" to "שעה 6"). Visitors filter the catalog by day,
period, grade and free-text search. They pick courses by clicking cards in
a day × period grid. They share their picks through a `selected=...`
parameter in the page address. They can open a personal timetable that
groups the picked courses by day and orders each day by period. An admin
can add, edit and delete catalog records.

This project models that core as pure functions over immutable data, and
proves what the code promises about it:

- `Types`: days, periods, grade bands and course records, the `DAYS` and
  `TIME_SLOTS` orders, and the period labels.
- `Seqs`: `Array.prototype.filter` and the map-then-drop-NaN idiom.
  Every derived list of the application is built from these.
- `Strings`, `Numbers`: `trim`, `split`, `join`, `toLowerCase`, `includes`,
  `String(id)` and the lenient base-10 `parseInt`.
- `Selection`: the `Set<number>` of selected ids, kept as a duplicate-free
  sequence in insertion order, and its resolution to courses.
- `ShareLink`: decoding the `selected` parameter, encoding the selection,
  and the write-back that rewrites the address only when the value changes.
- `Catalog`: the admin's save (edit or add) and delete.
- `CourseFilter`: the four-way filter of the browsing grid.
- `Sorting`, `Grouping`: a stable sort by an integer key, and grouping in a
  fixed key order with empty keys skipped.
- `MySchedule`: the personal timetable's grouping by day, its period
  order, the empty state and the heading.
- `ScheduleGrid`: the grid's cells and the selected mark on each card.
- `Session`: mount-time hydration and a card click, each followed by the
  write-back.

Points of the code that shape the model:

- **Encoding order.** The ids are joined in `Set` insertion order
  (App.tsx:70), not sorted. So `Encode` keeps selection order, and the
  round trip is proved as sequence equality.
- **Write-back.** Every change of the `selected` value pushes a new
  history entry (App.tsx:77); nothing replaces the entry in place, and no
  `popstate` listener reads the address back. `WriteBack` reports the
  push, and `Session.Click` allows an address that no longer mirrors the
  selection, as after the browser's Back button.
- **Grade filter.** The filter controls never offer a grade choice, but
  the conjunction at App.tsx:146 still tests the grade. So `Accepts`
  includes it.
- **`gradeLevel` field.** types.ts declares `Course` without
  `gradeLevel` and declares no `GradeLevel` type. App.tsx uses both. The
  model gives `Course` a `gradeLevel` field whose band is known only by
  its label.
- **Zero id.** The save handler treats id 0 as "new", because it tests
  `if (courseData.id)`. `SaveCourse` does the same.

## Model

| member | source | states |
|---|---|---|
| Types.DayIndex | types.ts:2 | every day has a position in `DAYS`, and `DAYS` at that position is the day |
| Types.SlotIndex | types.ts:3 | every period has a position in `TIME_SLOTS`, and `TIME_SLOTS` at that position is the period |
| Types.DaysEnumerated | types.ts:2 | `DAYS` has five entries, lists every day, and repeats none |
| Types.SlotsEnumerated | types.ts:3 | `TIME_SLOTS` has six entries, lists every period, and repeats none |
| Types.ParseDay | types.ts:2 | reading a label gives the day whose label it is, and every day's label reads back as that day |
| Types.ParseSlot | types.ts:3 | reading a label gives the period whose label it is, and every period's label reads back as that period |
| Types.LexLessCommonPrefix | types.ts:3 | a shared prefix does not change how two strings compare |
| Types.SlotLabelOrder | types.ts:3 | one period label is string-less than another exactly when its period comes earlier, so string order and declaration order agree |
| Strings.TrimStart | App.tsx:53 | only leading whitespace is removed, and the result does not start with whitespace |
| Strings.TrimEnd | App.tsx:53 | only trailing whitespace is removed, and the result does not end with whitespace |
| Strings.TrimStartSkips | App.tsx:53 | whitespace in front of a string is exactly what trimming its start removes |
| Strings.Trim | App.tsx:53 | the result is no longer than the input and neither starts nor ends with whitespace |
| Strings.TrimIsSlice | App.tsx:53 | the trimmed string is a slice of the input, and everything cut from either end is whitespace |
| Strings.TrimVisible | App.tsx:53 | a string that starts and ends with a visible character is its own trim |
| Strings.Split | App.tsx:52 | there is always at least one piece, and no piece contains the separator |
| Strings.JoinSplit | App.tsx:52 | joining the pieces with the separator gives back the input |
| Strings.SplitJoin | App.tsx:52 | splitting undoes joining when no piece contains the separator |
| Strings.Join | App.tsx:70 | `Array.prototype.join` on strings (no contract; `Strings.SplitJoin` and `Strings.JoinSplit` make it the inverse of `Split`) |
| Strings.Lower | App.tsx:144 | same length, and each character is lower-cased on its own |
| Strings.LowerChar | App.tsx:144 | a capital ASCII letter becomes its small letter, 32 code points on; every other character is kept |
| Strings.LowerIdempotent | App.tsx:144 | lower-casing twice is lower-casing once |
| Strings.ContainsIff | App.tsx:144 | `includes` holds exactly when the substring occurs at some position |
| Strings.Contains | App.tsx:144-145 | `includes` (no contract; `Strings.ContainsIff` states it as "occurs at some position") |
| Numbers.NatToString | App.tsx:70 | a natural number's numeral is non-empty, all digits, and has no leading zero |
| Numbers.NatToStringValue | App.tsx:70 | a numeral reads back as the number it was written from |
| Numbers.IntToString | App.tsx:70 | an id's text is non-empty and has no comma and no whitespace; a negative id starts with a minus sign |
| Numbers.LeadingDigits | App.tsx:53 | the result is the longest prefix made only of digits |
| Numbers.ParseInt | App.tsx:53 | the result is NaN exactly when no digit follows the optional sign after leading whitespace; a negative result needs a leading minus |
| Numbers.ParseIntRoundTrip | App.tsx:53 | every integer's text parses back to that integer |
| Numbers.ParseIntIgnoresTail | App.tsx:53 | an integer's text followed by anything that does not continue the digits reads as that integer: `"12abc"` is 12 |
| Numbers.ParseIntSkipsWhitespace | App.tsx:53 | whitespace in front of a token does not change what it reads as |
| Numbers.ParseIntPlus | App.tsx:53 | a plus sign in front of a token that starts with neither whitespace nor a sign changes nothing: `"+5"` is 5 |
| Numbers.ParseIntMinus | App.tsx:53 | a minus sign in front of digits negates their value: `"-007"` is -7 and `"-00"` is 0 |
| Numbers.ParseIntLeadingZero | App.tsx:53 | a zero in front of a digit changes nothing: `"007"` is 7 |
| Seqs.Filter | App.tsx:151 | the kept elements are exactly the elements that pass, and nothing is added |
| Seqs.FilterCount | App.tsx:151 | every element that passes is kept as often as it occurs, and the others vanish |
| Seqs.FilterSubseq | App.tsx:151 | the kept elements stay in input order |
| Seqs.FilterNoDup | App.tsx:133 | filtering a duplicate-free list leaves it duplicate-free |
| Seqs.FilterKeepsAll | App.tsx:139-147 | when every element passes, the filter returns its input |
| Seqs.FilterConcat | App.tsx:133 | filtering a concatenation is concatenating the filtered parts |
| Seqs.FilterCongruent | App.tsx:151 | two tests that agree on every element filter the same way |
| Seqs.FilterMapMembers | App.tsx:53-54 | a value is among the parsed ids exactly when some token parses to it |
| Seqs.FilterMapTotal | App.tsx:53-54 | when every token parses, every result is kept, in token order |
| Seqs.FilterMap | App.tsx:53-54 | `map` then `filter(!isNaN)`: no more results than inputs; `FilterMapMembers`, `FilterMapConcat` and `FilterMapFirstOrder` state which results and in what order |
| Seqs.FilterMapConcat | App.tsx:53-54 | mapping a concatenation concatenates the results, so results keep the order of their inputs |
| Seqs.FilterMapSkips | App.tsx:54 | an input that maps to NaN drops out and the others close up in order |
| Seqs.FirstProducer | App.tsx:53-54 | the position of the first input mapped to a value, or the length when there is none |
| Seqs.FilterMapFirstOrder | App.tsx:53-54 | of two results, the one whose first input comes first is met first |
| Seqs.BucketsPartition | components/ScheduleGrid.tsx:41-42 | bucketing by a duplicate-free key list counts every element with a listed key as often as it occurs, and no other element |
| Seqs.BucketsCover | components/ScheduleGrid.tsx:41-42 | when every element's key is listed, the buckets together are a rearrangement of the input |
| Selection.Add | App.tsx:87 | `add` appends an absent id at the end and leaves a present one alone; every other id is unchanged |
| Selection.Remove | App.tsx:85 | `delete` removes every copy of the id and keeps the other ids in order, each as often as before |
| Selection.Toggle | App.tsx:81-91 | membership of the clicked id flips, every other id keeps its membership, and duplicate-freedom is kept |
| Selection.ToggleTwice | App.tsx:82-90 | toggling the same id twice restores which ids are selected, and restores the sequence when the id was absent |
| Selection.Dedupe | App.tsx:55 | `new Set(ids)` keeps every id once, adds nothing, and leaves a duplicate-free list as it is |
| Selection.DedupeFirstOccurrenceOrder | App.tsx:55 | the distinct ids come in the order of their first occurrence |
| Selection.DedupeFilterMapOrder | App.tsx:53-55 | deduplicating the parsed results lists each value in the order of the first input read as it |
| Selection.SelectedCourses | App.tsx:150-152 | a course is resolved exactly when it is in the catalog and its id is selected; catalog order and multiplicity are kept |
| Selection.SelectedCoursesIgnoresOrderAndDangling | App.tsx:150-152 | the resolved courses depend only on which catalog ids are selected, not on selection order or on ids no course has |
| Selection.DanglingIdLeavesNoTrace | App.tsx:151 | toggling an id that no course has changes no resolved course |
| ShareLink.ParseTokens | App.tsx:53-54 | there are no more parsed ids than tokens |
| ShareLink.ParseTokensMembers | App.tsx:53-54 | the parsed ids are exactly the values that some token parses to |
| ShareLink.ParseTokensSkips | App.tsx:53-54 | a token that reads as NaN drops out and the ids of the others keep their order |
| ShareLink.TokenValue | App.tsx:53 | `parseInt(id.trim(), 10)` on one token (no contract; the `Numbers.ParseInt` lemmas state its values) |
| ShareLink.Decode | App.tsx:52-55 | the decoded selection is duplicate-free and holds exactly the parsed ids, repeats dropped |
| ShareLink.DecodeOrder | App.tsx:52-55 | the decoded ids come in the order of the first token each is read from: `"7,foo,3,7"` gives 7 before 3 |
| ShareLink.DecodeMembers | App.tsx:52-55 | an id is decoded exactly when some comma-separated token parses to it |
| ShareLink.Hydrate | App.tsx:49-56 | an absent or empty parameter leaves the selection alone; any other value replaces it with a duplicate-free selection of exactly the parsed ids |
| ShareLink.Numerals | App.tsx:70 | one numeral per id, in selection order |
| ShareLink.Encode | App.tsx:69-72 | the empty selection writes no parameter; otherwise the value is non-empty and splits into the ids' numerals in selection order |
| ShareLink.ParseNumerals | App.tsx:53-54 | the numerals of a selection parse back to that selection |
| ShareLink.NumeralToken | App.tsx:53 | an id's numeral is a token that reads back as that id |
| ShareLink.RoundTrip | App.tsx:52-71 | reading back the encoded value of a duplicate-free selection gives that selection, in the same order |
| ShareLink.DecodeEncoded | App.tsx:52-71 | decoding the encoding of a non-empty duplicate-free selection gives it back |
| ShareLink.EncodeInjective | App.tsx:69-71 | different duplicate-free selections are encoded differently |
| ShareLink.WriteBack | App.tsx:74-78 | a history entry is pushed exactly when the new value differs from the current one; otherwise the address is left alone |
| ShareLink.WriteBackSettles | App.tsx:65-79 | after a write-back the address decodes to the selection, and a second write-back pushes nothing |
| ShareLink.NonNumericToken | App.tsx:53-54 | a token whose first and last characters are visible, and whose first is neither a sign nor a digit, reads as NaN |
| ShareLink.DecodeDropsGarbage | App.tsx:52-55 | a junk token between two ids and the empty token after a trailing comma are dropped, and the ids are read in order |
| ShareLink.DecodeDropsGarbageExample | App.tsx:52-55 | the value `3,foo,7,` reads as the ids 3 and 7 |
| ShareLink.DecodeRepeatAfterGarbage | App.tsx:52-55 | an id repeated after a junk token is read once, at its first place, ahead of the id between |
| ShareLink.DecodeRepeatExample | App.tsx:52-55 | `"7,foo,3,7"` decodes to 7 then 3 |
| ShareLink.EmptyCases | App.tsx:51 | an absent or empty parameter leaves the empty selection empty, and the empty selection writes no parameter |
| Catalog.WithId | App.tsx:125 | the new record carries the draft's fields under the given id |
| Catalog.EditCourse | App.tsx:123 | every record with the id becomes the edited course; every other record stays in place, unchanged |
| Catalog.AddCourse | App.tsx:125-126 | the new record goes at the end, after the unchanged catalog |
| Catalog.DeleteCourse | App.tsx:133 | exactly the records with the id go; the rest keep their order and multiplicity, and an unknown id changes nothing |
| Catalog.SaveCourse | App.tsx:121-127 | a truthy id edits in place: every record with that id becomes the draft under that id, all others stay as they were, and the ids are kept; an absent or zero id appends one record under the fresh id |
| Catalog.EditThenDelete | App.tsx:121-135 | deleting a record after editing it leaves the same catalog as deleting it straight away |
| Catalog.EditIdempotent | App.tsx:123 | saving the same edit twice is saving it once |
| Catalog.EditUnknownIdIsNoop | App.tsx:123 | an edit whose id no record has changes nothing |
| Catalog.SavePreservesWellFormed | App.tsx:121-127 | saving a non-blank draft under a fresh id keeps ids unique and names non-blank |
| Catalog.DeletePreservesWellFormed | App.tsx:133 | deleting keeps ids unique and names non-blank, and retires the id |
| CourseFilter.FilteredCourses | App.tsx:138-148 | a course is shown exactly when its day, period and grade each match their filter or the filter is "everything", and the search matches; catalog order and multiplicity are kept |
| CourseFilter.NoFilterShowsAll | App.tsx:139-147 | with every axis on "everything" and an empty search, the whole catalog is shown unchanged |
| CourseFilter.SearchMatchIff | App.tsx:143-145 | the search matches exactly when the query is empty or its lower-cased form occurs somewhere in the lower-cased name or details |
| CourseFilter.SearchIgnoresQueryCase | App.tsx:144-145 | lower-casing the query first does not change the outcome |
| CourseFilter.EmptyQueryMatchesAnyway | App.tsx:143 | the empty query occurs in every name, so the empty-query shortcut agrees with the substring test |
| CourseFilter.AxesCompose | App.tsx:146 | filtering by all axes at once equals filtering by day after filtering by the others |
| CourseFilter.SearchMatch | App.tsx:143-145 | the free-text test (no contract; `CourseFilter.SearchMatchIff` states it) |
| CourseFilter.Accepts | App.tsx:139-146 | the four-way conjunction for one course (no contract; `CourseFilter.FilteredCourses` states it) |
| CourseFilter.AxesAsLabels | App.tsx:140-141 | comparing days and periods agrees with the source's comparison of their labels, and the "everything" label is no day or period |
| Sorting.InsertBy | components/MyScheduleView.tsx:24 | inserting into a sorted list keeps it sorted and adds exactly the one element |
| Sorting.SortBy | components/MyScheduleView.tsx:24 | the result is sorted by key and is a rearrangement of the input |
| Sorting.SortStable | components/MyScheduleView.tsx:24 | elements with equal keys keep their input order |
| Sorting.SortSorted | components/MyScheduleView.tsx:24 | an already sorted list is left unchanged |
| Grouping.GroupFromMembers | components/MyScheduleView.tsx:21-29 | every group has a listed key, is non-empty, and holds exactly that key's elements in input order |
| Grouping.KeysListed | components/MyScheduleView.tsx:21-29 | only listed keys get groups |
| Grouping.GroupFromCovers | components/MyScheduleView.tsx:21-29 | every listed key that some element has gets a group |
| Grouping.GroupFromNothing | components/MyScheduleView.tsx:25-27 | no elements give no groups |
| Grouping.GroupFromAscending | components/MyScheduleView.tsx:21 | groups come in the order of the key list |
| Grouping.GroupFromPartition | components/MyScheduleView.tsx:21-29 | the groups together count every element with a listed key as often as it occurs, and no other element |
| Grouping.GroupFrom | components/MyScheduleView.tsx:21-29 | at most one group per listed key; the lemmas above state which groups and what they hold |
| MySchedule.SlotCompare | components/MyScheduleView.tsx:24 | the comparator's sign is the sign of the difference of the periods' positions |
| MySchedule.SortBySlot | components/MyScheduleView.tsx:24 | a day's courses come out ordered by period and are a rearrangement of the input |
| MySchedule.SortBySlotFollowsCompare | components/MyScheduleView.tsx:24 | the sorted courses are in the order the comparator asks for: no pair is out of order under it |
| MySchedule.SortBySlotStable | components/MyScheduleView.tsx:24 | courses of the same period keep their input order |
| MySchedule.GroupByDay | components/MyScheduleView.tsx:21-29 | `groupedCourses`: at most one group per day; `GroupContents`, `GroupOrder`, `GroupDays` and `GroupsPartitionSelection` state its contents |
| MySchedule.GroupContents | components/MyScheduleView.tsx:21-29 | every day group is non-empty, ordered by period, and holds exactly the selected courses of its day, each as often as selected |
| MySchedule.GroupOrder | components/MyScheduleView.tsx:74 | day groups come in `DAYS` order |
| MySchedule.GroupDays | components/MyScheduleView.tsx:22-27 | a day has a group exactly when some selected course falls on it |
| MySchedule.GroupsPartitionSelection | components/MyScheduleView.tsx:22-23 | the groups together hold exactly the selected courses, none dropped or duplicated |
| MySchedule.GroupKeepsSelectionOrderWithinSlot | components/MyScheduleView.tsx:22-24 | within a day, courses of one period appear in resolved-selection order |
| MySchedule.EmptyIffNoSelection | components/MyScheduleView.tsx:70-97 | the empty-state message shows exactly when no course is selected, and the share button exactly when some course is |
| MySchedule.ShowsEmptyState | components/MyScheduleView.tsx:70 | the empty-state message shows when there are no groups (no contract; `EmptyIffNoSelection` states when) |
| MySchedule.ShowsShareButton | components/MyScheduleView.tsx:97 | the share button shows when there are groups (no contract; `EmptyIffNoSelection` states when) |
| MySchedule.Title | components/MyScheduleView.tsx:43 | a non-empty name gives the prefix followed by the name; an empty name gives the default heading |
| MySchedule.TitleInjective | components/MyScheduleView.tsx:43 | different names give different headings, and no name gives the default heading |
| ScheduleGrid.Cell | components/ScheduleGrid.tsx:42 | a cell holds exactly the courses of its day and period, in list order and with their multiplicity |
| ScheduleGrid.Cards | components/ScheduleGrid.tsx:46-50 | one card per course of the cell, in order, marked exactly when the course's id is selected |
| ScheduleGrid.Grid | components/ScheduleGrid.tsx:35-42 | one row per period and one column per day |
| ScheduleGrid.GridPlacement | components/ScheduleGrid.tsx:35-42 | a listed course has a card in the cell of a given row and column exactly when the row is its period's and the column its day's |
| ScheduleGrid.CellKeysComplete | components/ScheduleGrid.tsx:35-41 | the grid's cells are all distinct, and every course's cell is among them |
| ScheduleGrid.CellsPartitionCourses | components/ScheduleGrid.tsx:35-42 | the cells together show every listed course exactly as often as it is listed |
| ScheduleGrid.ToggleFlipsCards | components/ScheduleGrid.tsx:50 | after a click, exactly the cards that carry the clicked id change their mark |
| ScheduleGrid.MarkedIffSelected | components/ScheduleGrid.tsx:50 | a card is marked exactly when its course is among the resolved selected courses |
| ScheduleGrid.FilteredCell | components/ScheduleGrid.tsx:42 | a course appears in a cell of the browsing grid exactly when it is in the catalog, passes the filter, and has that day and period |
| Session.Mount | App.tsx:49-79 | the settled mount: the address comes to mirror the hydrated selection, and one idealised write-back pushes exactly when the opened address was not already canonical |
| Session.MountRun | App.tsx:49-79 | the effects as they run: the same final state as the settled mount, after one push if the address carried the parameter and another if the decoded selection is non-empty |
| Session.MountRunCanonical | App.tsx:49-79 | a canonical address for a non-empty selection is pushed away and pushed back, two history entries in all, and ends where it started |
| Session.Click | App.tsx:81-91 | a click toggles the id and leaves the address mirroring the selection; it pushes exactly when the address differed from the new encoding, so always when the address mirrored the old selection |
| Session.ClickAfterBack | App.tsx:65-91 | after the Back button left the address showing `3` for the selection 3, 7, clicking 7 pushes nothing |
| Session.MountCanonical | App.tsx:49-79 | under the settled mount, a canonical address keeps its selection and needs no push |
| Session.MountRewritesRepeats | App.tsx:49-79 | under the settled mount, an address that lists an id twice is read as the id once and rewritten with a push |
| Session.HasSelection | App.tsx:190 | `hasSelection`: the timetable button is enabled when some id is selected, resolvable or not (no contract; see the two lemmas below) |
| Session.DanglingSelectionOpensEmptyTimetable | App.tsx:190 | the timetable button is enabled by ids alone, so selected ids that no course has open the empty-state message |
| Session.TimetableShownIffResolvable | App.tsx:150-152 | the timetable lists courses exactly when some selected id names a catalog course |

## Left out

- React state, hooks, memoization and markup. Each handler is modelled as a function from the old state to the new one.
- Session.Mount: `pushed` describes one idealised write-back after hydration. The program's write-back effect first runs with the initial empty selection, so it pushes twice for any parameter that decodes to a non-empty selection, and once for a parameter that decodes to nothing; `Session.MountRun` counts those pushes.
- localStorage loading and saving of the catalog and the student's name (I/O with JSON parsing). The catalog is a parameter.
- The address as a whole. The model keeps only the `selected` parameter's decoded value. Not modelled:
  - `URLSearchParams` percent-encoding of the comma;
  - the `+`-as-space decoding;
  - dropping every other query parameter on write-back;
  - the `pushState` call itself, which becomes the `pushed` flag.
- `Date.now()` minting new ids. The fresh id is a parameter of `SaveCourse`. Only `SavePreservesWellFormed` asks that it be unused, because the source never checks.
- The admin password check, the `alert` and `confirm` dialogs, and the admin-only gating of clicks on cards.
- Copying the link to the clipboard and the two-second button label.
- Presentation-only components: the filter controls, the admin panel, the course form and course card markup, and the display strings of the periods.
- `constants.ts` is not part of this model. `DAYS` and `TIME_SLOTS` are assumed to list the days and periods in the order of the `Day` and `TimeSlot` unions in types.ts. The grade bands and the initial catalog are unknown.
- MySchedule.SlotCompare: `localeCompare` is modelled as plain character-by-character comparison of the labels (`Types.LexLess`). `Types.SlotLabelOrder` shows that this agrees with period order for the six labels. Locale collation rules are not modelled.
- Strings.Lower: only ASCII `A`–`Z` are lower-cased. Hebrew is caseless. Full Unicode case mapping, including length-changing mappings, is not modelled.
- Numbers.ParseInt: integers are unbounded. JavaScript number precision beyond 2^53, exponent notation and `-0` are not modelled. `parseInt` stops at the first non-digit, as modelled.
- Strings are sequences of Unicode code points (Dafny's `char`), not of UTF-16 code units: a character above U+FFFF counts once here and twice in JavaScript, and lone surrogates cannot be represented. `Types.LexLess` orders code points, which agrees with JavaScript's code-unit order except for characters above U+FFFF. No normalisation is modelled.
