# Roster generator — a Dafny model

This project models the core of a weekly class-timetable generator (a web
application in TypeScript). The user fills a form with a department,
semester, block, classroom and a list of courses: code, subject, faculty name,
faculty id, weekly slot count, and whether the slots come in consecutive
blocks and of what size. The generator then places the courses into a grid
of six days by ten slots. The filled grid can be checked against the
timetables already stored, to see whether a faculty member is taken at that
day and slot, and saved as slot rows.

The modules follow the source files:

- `Types`: the records of `src/types/timetable.ts`.
- `SlotTimings`: the slot-timing table of `src/utils/slotTimings.ts`.
- `CellCodec`: the HTML text a grid cell is written as (`TimetableDisplay.tsx:75`) and a hand-written matcher for the regular expression that reads it back (`timetableService.ts:85`, `:160`).
- `Placement`: the greedy builder of `src/components/TimetableDisplay.tsx`.
  - `PlaceSlots`, `PlaceBlock` and `GenerateTimetable` work on arrays, like the source.
  - Each of them is proved equal to a function on grid values.
  - The builder's guarantees are lemmas about those functions.
- `TimetableService`: from `src/services/timetableService.ts`:
  - the conflict query, built over a store of rows;
  - the extraction of slot rows;
  - the validation before saving;
  - the order of the writes a save performs;
  - the availability query.
- `Generator`: the form logic of `src/components/TimetableGenerator.tsx`:
  - the faculty-load warning, whose loops are in a method;
  - the decision `handleGenerate` takes;
  - the edits of the course list.
- `CourseTable`: the row edits of `src/components/CourseTable.tsx`, including `parseInt(value) || 1`.
- `IndexPage`: the view state of `src/pages/Index.tsx`, as a class with the page's three state fields and `renderView`.

The outside world comes in as parameters:

- The random day choice is a function `randomDay`. Its `k`-th value is the day drawn by the `k`-th iteration of the block loop.
- The conflict service is an `oracle` that answers a list of conflicts or an error.
- The database is a `Store`, which is either reachable with its rows or unreachable.
- The answer to the "proceed anyway?" dialog is a boolean.
- A fetch of a saved timetable is a `Result`.

Two observations come out of the model:

- The builder never fills data index 3, which it treats as the break (`TimetableDisplay.tsx:55`, `:60`). The display, though, draws the break as a separate column, and shows index 3 under "Slot 4" with the timing `10:45 - 11:35`. That column is therefore always empty (`Placement.SlotFourColumnIsAlwaysEmpty`).
- The builder's block loop ends only when a course's block size is at least 1. The course table can produce a block size of `-2` from a typed value, and the value is kept (`CourseTable.NegativeBlockSizeIsKept`). The loop would then never end. The builder is therefore modelled for courses satisfying `Placement.Terminates`.

## Model

| member | source | states |
|---|---|---|
| SlotTimings.GetSlotTiming | src/utils/slotTimings.ts:17-19 | indices 0 to 9 give the table entry; any other index gives `Slot n` with `n` the index plus one |
| SlotTimings.GetTotalSlots | src/utils/slotTimings.ts:21-23 | there are 10 slots |
| SlotTimings.TimingParts | src/utils/slotTimings.ts:2-13 | each timing is `start - end`, with the start and end times listed per slot |
| SlotTimings.SlotsAreContiguous | src/utils/slotTimings.ts:1-13 | each slot ends where the next begins, except between the third and fourth |
| SlotTimings.BreakFillsTheGap | src/utils/slotTimings.ts:15 | the break starts where the third slot ends and ends where the fourth begins, and that gap is not empty |
| CellCodec.MatchTailSound | src/services/timetableService.ts:85 | a match of the part after group 1 has the form `<br/><span` + attributes without `>` + `>(` + a non-empty faculty without `)` + `)<br/>` + group 2 + `</span>`; group 2 is non-empty with no line terminator |
| CellCodec.MatchFromSound | src/services/timetableService.ts:85 | a match found by the lazy search for group 1 splits the text into a non-empty, line-terminator-free group 1 and a tail of the shape above |
| CellCodec.MatchCellSound | src/services/timetableService.ts:85 | every successful match of a cell text has that shape, with group 1 a prefix of the text |
| CellCodec.MatchedIsNotBlank | src/services/timetableService.ts:83-86 | a text that matches is not blank |
| CellCodec.BlankNeverMatches | src/services/timetableService.ts:83-86 | a blank text never matches, so the `trim()` guard never discards a matching cell |
| CellCodec.NoEarlySpan | src/services/timetableService.ts:85 | the lazy group 1 cannot stop inside a subject that holds no `<br/>` |
| CellCodec.MatchFromSkipsSubject | src/services/timetableService.ts:85 | the lazy search reaches the end of such a subject without matching |
| CellCodec.MatchTailAssembled | src/components/TimetableDisplay.tsx:75 | the span part of the template is read back as group 2 = the faculty id |
| CellCodec.RoundTrip | src/components/TimetableDisplay.tsx:75 | decoding an encoded cell gives back its subject and faculty id, for a non-empty subject without `<br/>` or line terminator, a non-empty faculty name without `)`, and a non-empty faculty id without line terminator |
| CellCodec.EncodedCellIsNotBlank | src/components/TimetableDisplay.tsx:75 | an encoded cell is never blank |
| Placement.CheckGlobalFacultyConflicts | src/components/TimetableDisplay.tsx:31-43 | the service's conflicts when it answers, and no conflicts when it fails |
| Placement.FirstFitFrom | src/components/TimetableDisplay.tsx:54-80 | the least start from `i` on, other than 3, whose window fits; when there is none, no start fits |
| Placement.FirstFitIsLeast | src/components/TimetableDisplay.tsx:54-80 | `placeSlots` picks the leftmost fitting start other than 3, and fails exactly when no start fits |
| Placement.FitsMeansFree | src/components/TimetableDisplay.tsx:59-71 | every cell of a fitting window is inside the day, empty, not index 3, and its conflict check found nothing |
| Placement.PlacementWritesExactlyTheWindow | src/components/TimetableDisplay.tsx:73-77 | placing changes exactly the window's cells, each from free to the course's text |
| Placement.NonPositiveBlockWritesNothing | src/components/TimetableDisplay.tsx:54-78 | a block of 0 or fewer cells fits at index 0 and writes nothing |
| Placement.WindowFits | src/components/TimetableDisplay.tsx:59-71 | the `fits` flag is set exactly when every cell of the window is in the day, empty, not index 3, and has no conflict for the faculty |
| Placement.WriteWindow | src/components/TimetableDisplay.tsx:73-77 | the window's cells take the course's text and every other cell is unchanged |
| Placement.PlaceSlots | src/components/TimetableDisplay.tsx:50-81 | changes only the named day's array; succeeds exactly when a start fits there, and then the timetable is the old one with the leftmost fitting window of that day filled with the course cell; otherwise the timetable is unchanged |
| Placement.OtherDaysInOrder | src/components/TimetableDisplay.tsx:105 | the fallback days are the five other days, in weekday order |
| Placement.TryDaysFirstSuccess | src/components/TimetableDisplay.tsx:108-114 | the fallback fails exactly when no listed day fits; otherwise it places on the first listed day that fits |
| Placement.TryPlaceFailsOnlyWhenNoDayFits | src/components/TimetableDisplay.tsx:101-116 | a block goes unplaced only when it fits on none of the six days |
| Placement.PlaceBlock | src/components/TimetableDisplay.tsx:101-114 | the six day arrays afterwards are the drawn day's placement or the fallback's, and are unchanged when the block is not placed |
| Placement.NewDays | src/components/TimetableDisplay.tsx:85-88 | six fresh days of ten empty cells |
| Placement.PlaceCourseBlocks | src/components/TimetableDisplay.tsx:94-121 | the block loop of one course leaves the grid, the remaining count and the draws that the course's placement function gives |
| Placement.GenerateTimetable | src/components/TimetableDisplay.tsx:83-123 | the grid and messages built equal the value of the generation function |
| Placement.PlaceOnDayKeeps | src/components/TimetableDisplay.tsx:73-77 | placing on a day keeps the grid invariant (filled cells hold a listed course's text, and its faculty had no conflict there) and overwrites no filled cell |
| Placement.TryDaysKeeps | src/components/TimetableDisplay.tsx:108-114 | the fallback keeps the grid invariant and overwrites no filled cell |
| Placement.TryPlaceKeeps | src/components/TimetableDisplay.tsx:98-116 | placing a block keeps the grid invariant and overwrites no filled cell |
| Placement.PlaceCourseKeeps | src/components/TimetableDisplay.tsx:94-122 | placing all of a course keeps the grid invariant and overwrites no filled cell |
| Placement.GenerateFromKeeps | src/components/TimetableDisplay.tsx:93-123 | the course loop keeps the grid invariant and overwrites no filled cell |
| Placement.GenerateFromMessages | src/components/TimetableDisplay.tsx:93-123 | the course loop only appends messages, at most one per course, each the warning of one of the courses |
| Placement.EmptyGridIsGood | src/components/TimetableDisplay.tsx:85-88 | the initial grid satisfies the invariant |
| Placement.GeneratedTimetable | src/components/TimetableDisplay.tsx:83-126 | six days of ten cells; index 3 always empty; every filled cell holds the text of a listed course whose faculty had no conflict at that day and index; at most one warning per course, each naming a listed course |
| Placement.NoCoursesGiveEmptyTimetable | src/components/TimetableDisplay.tsx:85-93 | no courses give an all-empty grid and no messages |
| Placement.PlaceCourseStopsOnlyWhenStuck | src/components/TimetableDisplay.tsx:97-121 | the block loop stops with slots left only when its next block fits on none of the six days of the grid it stopped with |
| Placement.CourseWarningIsStuck | src/components/TimetableDisplay.tsx:116-119 | a course whose block loop ends with slots left is stuck on its final grid, with a block size of at least 1 |
| Placement.TryPlaceCount | src/components/TimetableDisplay.tsx:98-116 | a block that goes in on some day fills exactly `count` empty cells |
| Placement.TryPlaceGrows | src/components/TimetableDisplay.tsx:98-116 | a block placement overwrites no filled cell |
| Placement.GenerateFromAccounting | src/components/TimetableDisplay.tsx:93-123 | the course loop fills at most the slots the courses ask for (negative counts asking for none), and fills all of them exactly when it adds no warning |
| Placement.GenerateFromWarnings | src/components/TimetableDisplay.tsx:93-123 | every warning the course loop adds names a course of the list with a block, of 1 to `consecCount` cells and at most its `slots`, that fits on no day of the grid the loop ends with |
| Placement.StuckPersists | src/components/TimetableDisplay.tsx:54-71 | a block that fits on no day still fits on none after more cells are filled |
| Placement.PlaceCourseGrows | src/components/TimetableDisplay.tsx:97-121 | a course's block loop overwrites no filled cell |
| Placement.GenerateFromGrows | src/components/TimetableDisplay.tsx:93-123 | the course loop overwrites no filled cell |
| Placement.GeneratedWarnings | src/components/TimetableDisplay.tsx:83-126 | every warning of a generation names a listed course with a block, of 1 to `consecCount` cells and at most its `slots`, that fits on no day of the generated timetable |
| Placement.GeneratedAccounting | src/components/TimetableDisplay.tsx:83-126 | a generation fills at most the slots the courses ask for, and all of them exactly when there is no warning |
| Placement.PlaceCourseAccounting | src/components/TimetableDisplay.tsx:94-122 | the remaining count never grows and never drops below 0, and exactly as many empty cells are filled as the count fell by |
| Placement.NonConsecutiveOneAtATime | src/components/TimetableDisplay.tsx:95-104 | for a course that is not consecutive, an iteration that succeeds fills exactly one empty cell, overwrites no filled cell, and the loop goes on from there with one slot fewer |
| Placement.ColumnToSlot | src/components/TimetableDisplay.tsx:265 | every non-break display column shows one of the ten data indices |
| Placement.SlotToColumn | src/components/TimetableDisplay.tsx:265 | every data index has a non-break display column |
| Placement.ColumnsAreABijection | src/components/TimetableDisplay.tsx:257-271 | columns and data indices correspond one to one |
| Placement.SlotFourColumnIsAlwaysEmpty | src/components/TimetableDisplay.tsx:232-271 | the column headed "Slot 4" (`10:45 - 11:35`) shows data index 3, which a generated grid never fills |
| TimetableService.MatchingRows | src/services/timetableService.ts:134-136 | exactly the stored rows with that day, slot number and faculty id |
| TimetableService.CheckFacultyConflicts | src/services/timetableService.ts:121-150 | fails with its message exactly when the store is unreachable; otherwise one conflict per matching row, with the row's label, department and semester, the day, and the slot number plus one |
| TimetableService.ConflictQueryIsExact | src/services/timetableService.ts:121-150 | against reachable rows there are conflicts exactly when some row has that faculty at that day and slot, and each conflict names such a row's timetable |
| TimetableService.GridEntries | src/services/timetableService.ts:81 | the grid's six days in weekday order |
| TimetableService.CellRow | src/services/timetableService.ts:83-97 | a row carries the timetable id, the day and the 0-based slot index |
| TimetableService.CellRowCases | src/services/timetableService.ts:83-97 | no row exactly for a blank or non-matching cell; otherwise the row of the decoded subject and faculty id |
| TimetableService.BuildSlotRows | src/services/timetableService.ts:79-100 | the rows collected are those of every day's cells in order |
| TimetableService.DayRowsSound | src/services/timetableService.ts:82-98 | each row of a day is the row of its own cell |
| TimetableService.DayRowsAscending | src/services/timetableService.ts:82-98 | a day's rows come in ascending slot order |
| TimetableService.DayRowsComplete | src/services/timetableService.ts:82-98 | every cell that yields a row contributes it |
| TimetableService.GeneratedCellsGiveRows | src/services/timetableService.ts:81-100 | each filled cell of a generated grid gives back its course's subject and faculty id, when the course texts decode |
| TimetableService.CellCheckCases | src/services/timetableService.ts:158-170 | unqueried cells pass; a queried cell passes on an empty answer, fails with the query's error, or gives the message naming the faculty id, the day, the slot plus one and the first conflict's timetable |
| TimetableService.ValidateTimetableConflicts | src/services/timetableService.ts:153-179 | the result of the nested loops equals the validation function |
| TimetableService.DayMessagesOutcome | src/services/timetableService.ts:157-172 | a day fails exactly when one of its cells fails; it passes with no messages exactly when every cell passes; each message is one of its cells' messages |
| TimetableService.ValidateErrors | src/services/timetableService.ts:153-179 | the validation throws exactly when some cell's query throws |
| TimetableService.ValidatePasses | src/services/timetableService.ts:175-178 | the validation is valid with no messages exactly when every cell passes |
| TimetableService.ValidateMessages | src/services/timetableService.ts:166-168 | there are at most as many messages as cells, each the message of a cell whose query found conflicts |
| TimetableService.ValidateAgainstStore | src/services/timetableService.ts:138-141 | against the store, the validation throws exactly when the store is unreachable and some cell is queried |
| TimetableService.GeneratedTimetableIsValid | src/services/timetableService.ts:153-179 | a grid generated against a reachable store validates against it with no conflicts, when the course texts decode |
| TimetableService.FacultyPayload | src/services/timetableService.ts:27-31 | one record per course, with the faculty id, the name, and the subject as department |
| TimetableService.SaveNeedsValidation | src/services/timetableService.ts:50-53 | a timetable that does not validate sends no write and the save fails |
| TimetableService.SaveOrder | src/services/timetableService.ts:44-118 | the writes are a prefix of faculty, timetable metadata, slot rows under the new id (only when there are rows); the save succeeds with the new id exactly when every write succeeds |
| TimetableService.GetFacultyAvailability | src/services/timetableService.ts:225-252 | an unreachable store gives the empty list; otherwise one entry per stored slot of the faculty, with the slot number plus one |
| TimetableService.AvailabilitySound | src/services/timetableService.ts:239-251 | every entry is a stored slot of the faculty, with the slot number plus one |
| TimetableService.AvailabilityComplete | src/services/timetableService.ts:239-251 | every stored slot of the faculty has its entry |
| Generator.TallyLoads | src/components/TimetableGenerator.tsx:89-97 | the dictionary holds exactly the ids of the counted courses, in first-seen order, each with its total load |
| Generator.CheckFacultyConflicts | src/components/TimetableGenerator.tsx:88-106 | the warnings of the two loops equal the load-warning function |
| Generator.LoadOfConcat | src/components/TimetableGenerator.tsx:92-97 | a faculty's load is additive over the course list |
| Generator.LoadKeysAreTheCountedIds | src/components/TimetableGenerator.tsx:92-97 | the dictionary's keys are exactly the non-empty faculty ids of courses with positive slots, each once |
| Generator.KeysHavePositiveLoad | src/components/TimetableGenerator.tsx:94-95 | every key's total is positive |
| Generator.LoadWarningsSpec | src/components/TimetableGenerator.tsx:99-103 | an id is warned about exactly when it is non-empty and its load is strictly above 10; one warning per such id, each id once, each naming the total |
| Generator.WarnedIffOverloaded | src/components/TimetableGenerator.tsx:99-103 | there is a warning exactly when some faculty's load is above 10 |
| Generator.ThresholdExamples | src/components/TimetableGenerator.tsx:100 | 6+5 slots warn; 4+5 slots and exactly 10 slots do not |
| Generator.ValidCourses | src/components/TimetableGenerator.tsx:119-121 | exactly the courses with all four texts filled and positive slots |
| Generator.ValidCoursesOfConcat | src/components/TimetableGenerator.tsx:119-121 | the filter keeps the courses' order |
| Generator.SomeValidCourse | src/components/TimetableGenerator.tsx:119-130 | there is a valid course exactly when some course is complete |
| Generator.HandleGenerateSpec | src/components/TimetableGenerator.tsx:108-144 | "missing information" exactly when a form field is empty; generation exactly when the form is filled, some course is complete, and there is no warning or the user confirms; the generated form keeps the fields and holds the valid courses only |
| Generator.GenerateAsksOnOverload | src/components/TimetableGenerator.tsx:132-136 | with the page's own warnings, the user can cancel exactly when the form is otherwise ready, some faculty is over 10 and the user declines |
| Generator.AddCourse | src/components/TimetableGenerator.tsx:61-72 | appends the blank course (empty texts, 1 slot, not consecutive, block 1) and changes nothing else |
| Generator.UpdateCourse | src/components/TimetableGenerator.tsx:74-79 | replaces the course at the index, for any index, keeping the length and every other course |
| Generator.RemoveCourse | src/components/TimetableGenerator.tsx:81-86 | drops the course at an index in range, keeping the others in order; any other index changes nothing |
| Generator.RemoveUndoesAdd | src/components/TimetableGenerator.tsx:61-86 | removing the course just added restores the form |
| Generator.UpdateCourseLaws | src/components/TimetableGenerator.tsx:74-79 | updating to the same course changes nothing; of two updates at one index the last wins |
| Generator.RemoveCourseShifts | src/components/TimetableGenerator.tsx:81-86 | courses before the index stay and those after move down by one |
| Generator.UpdateInputs | src/components/TimetableGenerator.tsx:57-59 | sets the named field and keeps the others and the courses |
| CourseTable.ParseIntOrOne | src/components/CourseTable.tsx:82 | never 0; `NaN` and 0 become 1; every other parsed value is kept, negative ones included |
| CourseTable.ParseIntOfNumeral | src/components/CourseTable.tsx:82 | the numeral of any integer reads back as that integer |
| CourseTable.ParseIntOfDigits | src/components/CourseTable.tsx:82 | a non-empty digit string reads as its value |
| CourseTable.ParseIntOfNegated | src/components/CourseTable.tsx:82 | a `-` followed by text whose leading digits read as `k` reads as `-k` |
| CourseTable.NonZeroInputIsKept | src/components/CourseTable.tsx:82 | a typed non-zero integer, negative or not, is stored as typed |
| CourseTable.ZeroGivesOne | src/components/CourseTable.tsx:82 | `0` becomes 1 |
| CourseTable.MinusZeroGivesOne | src/components/CourseTable.tsx:82 | `-0` becomes 1 |
| CourseTable.EmptyInputGivesOne | src/components/CourseTable.tsx:82 | the empty input becomes 1 |
| CourseTable.NoDigitsIsNaN | src/components/CourseTable.tsx:82 | text that starts with neither a sign nor a digit is `NaN` |
| CourseTable.NoDigitsGiveOne | src/components/CourseTable.tsx:82 | any text without a digit is `NaN` and becomes 1 |
| CourseTable.SkipsLeadingWhitespace | src/components/CourseTable.tsx:82 | leading whitespace does not change the parse |
| CourseTable.StopsAtNonDigit | src/components/CourseTable.tsx:82 | reading stops at the first non-digit |
| CourseTable.PrefixIsRead | src/components/CourseTable.tsx:82 | ` 12abc` reads as 12 |
| CourseTable.HandleCourseChange | src/components/CourseTable.tsx:14-17 | only the edited row can change |
| CourseTable.ChangeFieldChangesOneField | src/components/CourseTable.tsx:14-17 | the edited row differs only in the named field; the numeric fields get `parseInt(..) \|\| 1` and never become 0 |
| CourseTable.HandleConsecutiveChange | src/components/CourseTable.tsx:19-26 | only the edited row can change |
| CourseTable.ConsecutiveChangeSpec | src/components/CourseTable.tsx:19-26 | `no` forces the block size to 1, `yes` keeps it, nothing else of the row changes, and after `no` the builder's loop ends for the course |
| CourseTable.NegativeBlockSizeIsKept | src/components/CourseTable.tsx:104-106 | a typed block size of `-2` on a consecutive course is stored, and the course is then one the builder's loop never finishes |
| IndexPage.Page.constructor | src/pages/Index.tsx:11-13 | the generator view, with no form and no viewed id |
| IndexPage.Page.HandleGenerateTimetable | src/pages/Index.tsx:15-18 | display view with the given form; the viewed id is unchanged |
| IndexPage.Page.HandleBackToGenerator | src/pages/Index.tsx:20-23 | generator view and no form; the viewed id is unchanged |
| IndexPage.Page.HandleViewSaved | src/pages/Index.tsx:25-27 | only the view changes, to the saved list |
| IndexPage.Page.HandleViewTimetable | src/pages/Index.tsx:29-48 | after a successful fetch: the view of a saved timetable, a form from its metadata with no courses, and the id recorded; after a failed fetch nothing changes |
| IndexPage.Page.HandleBackToSaved | src/pages/Index.tsx:77 | only the view changes, to the saved list |
| IndexPage.StepKeepsInputsToShow | src/pages/Index.tsx:15-48 | every handler keeps a form present whenever a timetable view is shown |
| IndexPage.NeverBlank | src/pages/Index.tsx:50-83 | after any sequence of handlers from the start, the page never renders nothing |
| IndexPage.BlankWithoutInputs | src/pages/Index.tsx:59-79 | the page renders nothing exactly in a timetable view without a form |
| IndexPage.GenerateThenBack | src/pages/Index.tsx:15-23 | generating shows the form's timetable with a back button to the generator; going back clears the form and keeps the viewed id |
| IndexPage.ViewThenBack | src/pages/Index.tsx:29-79 | a fetched timetable is shown with no courses and a back button to the saved list; going back keeps the form; a failed fetch changes nothing |
| IndexPage.ViewedIdChangesOnlyOnFetch | src/pages/Index.tsx:29-48 | only a successful fetch changes the viewed id, and it sets it to the fetched id |

## Left out

- Database access (Supabase):
  - The conflict query and the availability query are modelled over a `Store` of joined rows.
  - The writes of a save are modelled as a list of requests with given replies.
  - `getAllTimetables`, the ordering by creation time, and the slots returned by `getTimetableById` are not modelled. No core operation uses them; `Index.tsx` reads only the metadata.
- Asynchrony: `async`/`await` and interleaved handler calls are not modelled. Each handler runs to completion.
- The random day choice (`Math.random`) is the parameter `randomDay`. `Math.floor(Math.random() * 6)` is always a valid index.
- User interface side effects are not modelled:
  - toasts, `console.error` and `confirm` (the confirm answer is the parameter `confirmed`);
  - the `hasConflicts` flag, which only drives a toast;
  - rendering, other than the display's column mapping and `renderView`;
  - the PDF and Excel stubs.
- Local storage is not modelled: the initial-load effect (`TimetableGenerator.tsx:30-50`), the write at `TimetableGenerator.tsx:141`, and the unused `loadExistingTimetables`.
- React effects that re-run `checkFacultyConflicts` and `generateTimetable` are not modelled. This includes adding a first course when the list is empty. `Generator.GenerateAsksOnOverload` takes the warnings to be those of the current courses.
- Generator.CheckFacultyConflicts:
  - Warnings come in the order in which faculty ids first appear.
  - `Object.entries` lists integer-like keys (such as `"12"`) first, in numeric order; that reordering is not modelled.
  - Ids that are names of `Object.prototype` members (such as `"constructor"`) are not modelled.
- CourseTable.ParseInt:
  - It reads decimal digits after optional whitespace and sign.
  - The `0x` prefix is not modelled; a numeric input cannot hold it.
  - The loss of precision and `Infinity` for numerals beyond 2^53 are not modelled, because integers are unbounded here.
- CourseTable.HandleCourseChange requires the index to be a row of the table, because the table passes each row's own index. The same holds for CourseTable.HandleConsecutiveChange. The field is one of the six editable ones, typed by `Edit`; the source's untyped `[field]: value` is not modelled.
- Placement.GenerateTimetable:
  - It requires every course to satisfy `Placement.Terminates`: no slots, or a block size of at least 1.
  - For other courses the source's loop never ends (`Placement.NonPositiveBlockWritesNothing`).
  - A non-terminating run has no value to model.
- Numbers are JavaScript doubles in the source and unbounded integers here. Slot sums and indices stay far below 2^53.
- The cell matcher is written for the one regular expression the source uses. It is not a general regular-expression engine.
