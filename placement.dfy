/** The greedy weekly-timetable builder of src/components/TimetableDisplay.tsx.
    The grid holds one row of ten cells per day; `PlaceSlots` writes one block
    of a course into the leftmost free window of a day and `GenerateTimetable`
    places every course block by block, falling back to the other days.

    The methods work on arrays, as the source does; each is proved equal to a
    function on grid values (`FirstFit`, `PlaceOnDay`, `TryPlace`,
    `PlaceCourse`, `Generate`), and the properties of the builder are lemmas
    about those functions. `Math.random` becomes `randomDay`, whose `k`-th
    value is the day drawn by the `k`-th iteration of the block loop, and the
    conflict service becomes `oracle`. */
module Placement {
  import opened Wrappers
  import opened Text
  import opened Types
  import SlotTimings
  import opened CellCodec

  const DAYS: seq<string> := ["Monday", "Tuesday", "Wednesday", "Thursday", "Friday", "Saturday"]
  const SLOTS_PER_DAY: nat := SlotTimings.GetTotalSlots()
  /** The data index `placeSlots` never fills. */
  const SKIPPED: int := 3

  type DayIndex = d: int | 0 <= d < 6
  type Row = seq<string>
  type Grid = seq<Row>

  /** `timetableService.checkFacultyConflicts(day, slot, facultyId)`: the
      conflicts, or `Err` when the call throws. */
  type Oracle = (string, int, string) -> Result<seq<FacultyConflict>>

  /** `checkGlobalFacultyConflicts`: a failed check reads as "no conflicts". */
  function CheckGlobalFacultyConflicts(oracle: Oracle, day: string, slot: int, facultyId: string): (r: seq<FacultyConflict>)
    ensures oracle(day, slot, facultyId).Ok? ==> r == oracle(day, slot, facultyId).value
    ensures oracle(day, slot, facultyId).Err? ==> r == []
  {
    match oracle(day, slot, facultyId)
    case Ok(found) => found
    case Err(_) => []
  }

  predicate NoConflict(oracle: Oracle, day: string, slot: int, facultyId: string) {
    |CheckGlobalFacultyConflicts(oracle, day, slot, facultyId)| == 0
  }

  /** The text every cell of a course holds. */
  function CellOf(c: Course): string {
    EncodeCell(c.subject, c.faculty, c.facultyId)
  }

  /** The block size: `consecutiveSlots` for a consecutive course, else 1. */
  function ConsecCount(c: Course): int {
    if c.consecutive == Yes then c.consecutiveSlots else 1
  }

  /** The course loop ends: no slots to place, or blocks of at least one cell. */
  predicate Terminates(c: Course) {
    c.slots <= 0 || ConsecCount(c) >= 1
  }

  function Min(a: int, b: int): int {
    if a <= b then a else b
  }

  function UnplacedWarning(c: Course): string {
    "Could not place all slots for " + c.subject + " (" + c.facultyId + ") due to conflicts"
  }

  /** Cell `k` may take a cell of the course: in the row, empty, not index 3,
      and the faculty has no conflict there. */
  predicate CellFree(row: Row, k: int, day: string, facultyId: string, oracle: Oracle) {
    0 <= k < |row| && row[k] == "" && k != SKIPPED && NoConflict(oracle, day, k, facultyId)
  }

  /** The window `i .. i + count - 1` is free: the `fits` flag. */
  predicate Fits(row: Row, i: int, count: int, day: string, facultyId: string, oracle: Oracle) {
    forall k :: i <= k < i + count ==> CellFree(row, k, day, facultyId, oracle)
  }

  /** The least start `>= i`, other than index 3, whose window fits. */
  function FirstFitFrom(row: Row, i: nat, count: int, day: string, facultyId: string, oracle: Oracle): (r: Option<nat>)
    requires i <= |row|
    ensures r.Some? ==> i <= r.value < |row| && r.value != SKIPPED && Fits(row, r.value, count, day, facultyId, oracle)
    ensures forall j :: i <= j < |row| && j != SKIPPED && (r.None? || j < r.value) ==> !Fits(row, j, count, day, facultyId, oracle)
    decreases |row| - i
  {
    if i == |row| then None
    else if i != SKIPPED && Fits(row, i, count, day, facultyId, oracle) then Some(i)
    else FirstFitFrom(row, i + 1, count, day, facultyId, oracle)
  }

  function FirstFit(row: Row, count: int, day: string, facultyId: string, oracle: Oracle): Option<nat> {
    FirstFitFrom(row, 0, count, day, facultyId, oracle)
  }

  /** `row` with the cells `i .. i + count - 1` set to `cell`. */
  function Fill(row: Row, i: int, count: int, cell: string): (r: Row)
    ensures |r| == |row|
  {
    seq(|row|, k requires 0 <= k < |row| => if i <= k < i + count then cell else row[k])
  }

  /** `placeSlots(DAYS[d], c, count, grid)`: the new grid, or `None` (false). */
  function PlaceOnDay(grid: Grid, d: DayIndex, c: Course, count: int, oracle: Oracle): (r: Option<Grid>)
    requires |grid| == 6
    ensures r.Some? ==> |r.value| == 6 && forall e :: 0 <= e < 6 ==> |r.value[e]| == |grid[e]|
  {
    match FirstFit(grid[d], count, DAYS[d], c.facultyId, oracle)
    case None => None
    case Some(i) => Some(grid[d := Fill(grid[d], i, count, CellOf(c))])
  }

  /** `DAYS.filter(d => d !== day)`, as day indices. */
  function OtherDays(d: DayIndex): (r: seq<DayIndex>)
    ensures |r| == 5
  {
    seq(5, k requires 0 <= k < 5 => if k < d then k else k + 1)
  }

  /** The first of `days` on which the block fits. */
  function TryDays(grid: Grid, days: seq<DayIndex>, c: Course, count: int, oracle: Oracle): (r: Option<Grid>)
    requires |grid| == 6
    ensures r.Some? ==> |r.value| == 6 && forall e :: 0 <= e < 6 ==> |r.value[e]| == |grid[e]|
    decreases |days|
  {
    if days == [] then None
    else match PlaceOnDay(grid, days[0], c, count, oracle)
      case Some(g) => Some(g)
      case None => TryDays(grid, days[1..], c, count, oracle)
  }

  /** One iteration of the block loop: the drawn day, then the others in order. */
  function TryPlace(grid: Grid, d: DayIndex, c: Course, count: int, oracle: Oracle): (r: Option<Grid>)
    requires |grid| == 6
    ensures r.Some? ==> |r.value| == 6 && forall e :: 0 <= e < 6 ==> |r.value[e]| == |grid[e]|
  {
    match PlaceOnDay(grid, d, c, count, oracle)
    case Some(g) => Some(g)
    case None => TryDays(grid, OtherDays(d), c, count, oracle)
  }

  /** Where the block loop of one course stops: the grid, the `remaining`
      count it stopped with, and the number of days drawn so far. */
  datatype CourseRun = CourseRun(grid: Grid, remaining: int, draws: nat)

  /** The `while (remaining > 0)` loop of a course, from `remaining` and after
      `draws` draws. */
  function PlaceCourse(grid: Grid, c: Course, remaining: int, draws: nat, randomDay: nat -> DayIndex, oracle: Oracle): (r: CourseRun)
    requires |grid| == 6
    requires remaining <= 0 || ConsecCount(c) >= 1
    ensures |r.grid| == 6 && forall e :: 0 <= e < 6 ==> |r.grid[e]| == |grid[e]|
    decreases if remaining > 0 then remaining else 0
  {
    if remaining <= 0 then CourseRun(grid, remaining, draws)
    else
      var toPlace := Min(ConsecCount(c), remaining);
      match TryPlace(grid, randomDay(draws), c, toPlace, oracle)
      case None => CourseRun(grid, remaining, draws + 1)
      case Some(g) => PlaceCourse(g, c, remaining - toPlace, draws + 1, randomDay, oracle)
  }

  /** The final grid, the conflict messages and the number of draws. */
  datatype Generation = Generation(grid: Grid, messages: seq<string>, draws: nat)

  /** The course loop over `courses`, from `grid` with `messages` so far. */
  function GenerateFrom(grid: Grid, messages: seq<string>, courses: seq<Course>, draws: nat,
                        randomDay: nat -> DayIndex, oracle: Oracle): (r: Generation)
    requires |grid| == 6
    requires forall c :: c in courses ==> Terminates(c)
    ensures |r.grid| == 6 && forall e :: 0 <= e < 6 ==> |r.grid[e]| == |grid[e]|
    decreases |courses|
  {
    if courses == [] then Generation(grid, messages, draws)
    else
      var c := courses[0];
      assert c in courses && Terminates(c);
      var run := PlaceCourse(grid, c, c.slots, draws, randomDay, oracle);
      var messages' := if run.remaining > 0 then messages + [UnplacedWarning(c)] else messages;
      GenerateFrom(run.grid, messages', courses[1..], run.draws, randomDay, oracle)
  }

  /** Six rows of `SLOTS_PER_DAY` empty cells. */
  function EmptyGrid(): (g: Grid)
    ensures |g| == 6
  {
    seq(6, _ => seq(SLOTS_PER_DAY, _ => ""))
  }

  function Generate(courses: seq<Course>, randomDay: nat -> DayIndex, oracle: Oracle): Generation
    requires forall c :: c in courses ==> Terminates(c)
  {
    GenerateFrom(EmptyGrid(), [], courses, 0, randomDay, oracle)
  }

  // ---------------------------------------------------------------------
  // The arrays

  /** Six distinct arrays of `SLOTS_PER_DAY` cells. */
  predicate DaysShape(days: seq<array<string>>) {
    |days| == 6 &&
    (forall e :: 0 <= e < 6 ==> days[e].Length == SLOTS_PER_DAY) &&
    (forall e, f :: 0 <= e < f < 6 ==> days[e] != days[f])
  }

  /** The grid the six day arrays hold. */
  function Contents(days: seq<array<string>>): (g: Grid)
    requires |days| == 6
    reads days
    ensures |g| == 6
  {
    [days[0][..], days[1][..], days[2][..], days[3][..], days[4][..], days[5][..]]
  }

  /** The inner loop of `placeSlots` with its `fits` flag: every cell of the
      window `i .. i + count - 1` is in the row, empty, not index 3, and the
      fail-open conflict check finds nothing there. */
  method WindowFits(day: DayIndex, facultyId: string, i: int, count: int, slots: array<string>, oracle: Oracle)
    returns (fits: bool)
    requires 0 <= i
    ensures fits == Fits(slots[..], i, count, DAYS[day], facultyId, oracle)
  {
    fits := true;
    var j := 0;
    while j < count
      invariant 0 <= j && (j <= count || j == 0)
      invariant forall k :: i <= k < i + j ==> CellFree(slots[..], k, DAYS[day], facultyId, oracle)
    {
      if i + j >= slots.Length || slots[i + j] != "" || i + j == SKIPPED {
        assert !CellFree(slots[..], i + j, DAYS[day], facultyId, oracle);
        return false;
      }
      var globalConflicts := CheckGlobalFacultyConflicts(oracle, DAYS[day], i + j, facultyId);
      if |globalConflicts| > 0 {
        assert !CellFree(slots[..], i + j, DAYS[day], facultyId, oracle);
        return false;
      }
      j := j + 1;
    }
  }

  /** The write loop of `placeSlots`: `slots[i + j] = cell` for each `j`. */
  method WriteWindow(i: int, count: int, cell: string, slots: array<string>)
    requires 0 <= i && (count <= 0 || i + count <= slots.Length)
    modifies slots
    ensures slots[..] == Fill(old(slots[..]), i, count, cell)
  {
    var j := 0;
    while j < count
      invariant 0 <= j && (j <= count || j == 0)
      invariant slots[..] == Fill(old(slots[..]), i, j, cell)
    {
      slots[i + j] := cell;
      j := j + 1;
    }
  }

  /** `placeSlots(day, course, count, timetable)`: writes the block into the
      first window of the day's row that fits and answers whether there was
      one; the other days are untouched. */
  method PlaceSlots(day: DayIndex, course: Course, count: int, days: seq<array<string>>, oracle: Oracle) returns (placed: bool)
    requires DaysShape(days)
    modifies days[day]
    ensures var r := PlaceOnDay(old(Contents(days)), day, course, count, oracle);
      placed == r.Some? && Contents(days) == (if r.Some? then r.value else old(Contents(days)))
  {
    ghost var start := Contents(days);
    var slots := days[day];
    var facultyId := course.facultyId;
    var i := 0;
    while i < slots.Length
      invariant 0 <= i <= slots.Length
      invariant slots[..] == start[day]
      invariant FirstFitFrom(start[day], i, count, DAYS[day], facultyId, oracle) == FirstFit(start[day], count, DAYS[day], facultyId, oracle)
    {
      if i == SKIPPED {
        i := i + 1;
        continue;
      }
      var fits := WindowFits(day, facultyId, i, count, slots, oracle);
      if fits {
        assert FirstFit(start[day], count, DAYS[day], facultyId, oracle) == Some(i);
        assert count > 0 ==> CellFree(start[day], i + count - 1, DAYS[day], facultyId, oracle);
        WriteWindow(i, count, CellOf(course), slots);
        ContentsOfRows(days, start[day := slots[..]]);
        return true;
      }
      i := i + 1;
    }
    ContentsOfRows(days, start);
    return false;
  }

  /** One block: the drawn day first, then `DAYS.filter(d => d !== day)` in
      order, stopping at the first success. */
  method PlaceBlock(days: seq<array<string>>, day: DayIndex, course: Course, toPlace: int, oracle: Oracle) returns (placed: bool)
    requires DaysShape(days)
    modifies days
    ensures var r := TryPlace(old(Contents(days)), day, course, toPlace, oracle);
      placed == r.Some? && Contents(days) == (if r.Some? then r.value else old(Contents(days)))
  {
    ghost var start := Contents(days);
    placed := PlaceSlots(day, course, toPlace, days, oracle);
    if placed {
      return;
    }
    var otherDays := OtherDays(day);
    var k := 0;
    while k < |otherDays|
      invariant 0 <= k <= |otherDays|
      invariant Contents(days) == start
      invariant TryDays(start, otherDays[k..], course, toPlace, oracle) == TryPlace(start, day, course, toPlace, oracle)
    {
      assert otherDays[k..][1..] == otherDays[k + 1..];
      placed := PlaceSlots(otherDays[k], course, toPlace, days, oracle);
      if placed {
        return;
      }
      k := k + 1;
    }
  }

  /** The rows of `days` read as the grid `g`. */
  lemma ContentsOfRows(days: seq<array<string>>, g: Grid)
    requires |days| == 6 && |g| == 6 && forall e :: 0 <= e < 6 ==> days[e][..] == g[e]
    ensures Contents(days) == g
  {
  }

  /** Six fresh rows of `SLOTS_PER_DAY` empty cells. */
  method NewDays() returns (days: seq<array<string>>)
    ensures DaysShape(days) && Contents(days) == EmptyGrid()
    ensures forall e :: 0 <= e < 6 ==> fresh(days[e])
  {
    days := [];
    for e := 0 to 6
      invariant |days| == e
      invariant forall f :: 0 <= f < e ==> fresh(days[f]) && days[f].Length == SLOTS_PER_DAY
      invariant forall f :: 0 <= f < e ==> days[f][..] == seq(SLOTS_PER_DAY, _ => "")
      invariant forall f, g :: 0 <= f < g < e ==> days[f] != days[g]
    {
      var row := new string[SLOTS_PER_DAY](_ => "");
      assert row[..] == seq(SLOTS_PER_DAY, _ => "");
      days := days + [row];
    }
    assert Contents(days) == EmptyGrid();
  }

  /** The `while (remaining > 0)` loop of `generateTimetable` for one course:
      the grid, the `remaining` count it stops with and the draws so far, as
      `PlaceCourse` gives them (`PlaceCourseStopsOnlyWhenStuck` says when the
      count is left above 0). */
  method PlaceCourseBlocks(days: seq<array<string>>, course: Course, draws0: nat, randomDay: nat -> DayIndex, oracle: Oracle)
    returns (remaining: int, draws: nat)
    requires DaysShape(days) && Terminates(course)
    modifies days
    ensures PlaceCourse(old(Contents(days)), course, course.slots, draws0, randomDay, oracle) == CourseRun(Contents(days), remaining, draws)
  {
    ghost var start := Contents(days);
    remaining := course.slots;
    draws := draws0;
    var consecCount := ConsecCount(course);
    while remaining > 0
      invariant remaining <= course.slots
      invariant PlaceCourse(Contents(days), course, remaining, draws, randomDay, oracle) == PlaceCourse(start, course, course.slots, draws0, randomDay, oracle)
      decreases remaining
    {
      var day := randomDay(draws);
      var toPlace := Min(consecCount, remaining);
      ghost var before := Contents(days);
      PlaceCourseStep(before, course, remaining, draws, randomDay, oracle);
      var placed := PlaceBlock(days, day, course, toPlace, oracle);
      draws := draws + 1;
      if placed {
        remaining := remaining - toPlace;
      } else {
        break;
      }
    }
  }

  /** One iteration of the block loop, unfolded. */
  lemma PlaceCourseStep(grid: Grid, c: Course, remaining: int, draws: nat, randomDay: nat -> DayIndex, oracle: Oracle)
    requires |grid| == 6 && remaining > 0 && ConsecCount(c) >= 1
    ensures var r := TryPlace(grid, randomDay(draws), c, Min(ConsecCount(c), remaining), oracle);
      PlaceCourse(grid, c, remaining, draws, randomDay, oracle) ==
        if r.Some? then PlaceCourse(r.value, c, remaining - Min(ConsecCount(c), remaining), draws + 1, randomDay, oracle)
        else CourseRun(grid, remaining, draws + 1)
  {
  }

  /** `generateTimetable`: the grid it sets and the messages it collects. */
  method GenerateTimetable(courses: seq<Course>, randomDay: nat -> DayIndex, oracle: Oracle)
    returns (timetable: Grid, conflictMessages: seq<string>)
    requires forall c :: c in courses ==> Terminates(c)
    ensures timetable == Generate(courses, randomDay, oracle).grid
    ensures conflictMessages == Generate(courses, randomDay, oracle).messages
  {
    var days := NewDays();
    conflictMessages := [];
    var draws: nat := 0;
    for ci := 0 to |courses|
      invariant DaysShape(days)
      invariant forall e :: 0 <= e < 6 ==> fresh(days[e])
      invariant GenerateFrom(Contents(days), conflictMessages, courses[ci..], draws, randomDay, oracle) == Generate(courses, randomDay, oracle)
    {
      assert courses[ci..][1..] == courses[ci + 1..];
      var course := courses[ci];
      assert course in courses;
      var remaining;
      remaining, draws := PlaceCourseBlocks(days, course, draws, randomDay, oracle);
      if remaining > 0 {
        conflictMessages := conflictMessages + [UnplacedWarning(course)];
      }
    }
    timetable := Contents(days);
  }

  // ---------------------------------------------------------------------
  // Properties of one placement

  /** A window that fits lies in the row, avoids index 3, and each of its
      cells is empty with no conflict for the faculty. */
  lemma FitsMeansFree(row: Row, i: int, count: int, day: string, facultyId: string, oracle: Oracle, k: int)
    requires Fits(row, i, count, day, facultyId, oracle) && i <= k < i + count
    ensures 0 <= k < |row| && row[k] == "" && k != SKIPPED
    ensures oracle(day, k, facultyId).Err? || |oracle(day, k, facultyId).value| == 0
  {
    assert CellFree(row, k, day, facultyId, oracle);
  }

  /** `placeSlots` picks the smallest start other than 3 whose window fits,
      and finds none exactly when no start fits. */
  lemma {:induction false} FirstFitIsLeast(row: Row, count: int, day: string, facultyId: string, oracle: Oracle)
    ensures match FirstFit(row, count, day, facultyId, oracle)
      case Some(i) => i < |row| && i != SKIPPED && Fits(row, i, count, day, facultyId, oracle) &&
        forall j :: 0 <= j < i && j != SKIPPED ==> !Fits(row, j, count, day, facultyId, oracle)
      case None => forall j :: 0 <= j < |row| && j != SKIPPED ==> !Fits(row, j, count, day, facultyId, oracle)
  {
  }

  /** A successful placement changes exactly the block's cells, each from
      `""` to the course's text; each of them is free (empty, not index 3,
      no conflict for the faculty). */
  lemma {:induction false} PlacementWritesExactlyTheWindow(row: Row, count: int, day: string, c: Course, oracle: Oracle)
    requires FirstFit(row, count, day, c.facultyId, oracle).Some?
    ensures var i := FirstFit(row, count, day, c.facultyId, oracle).value;
      forall k :: 0 <= k < |row| ==> (Fill(row, i, count, CellOf(c))[k] != row[k] <==> i <= k < i + count)
    ensures var i := FirstFit(row, count, day, c.facultyId, oracle).value;
      forall k :: i <= k < i + count ==> CellFree(row, k, day, c.facultyId, oracle) && Fill(row, i, count, CellOf(c))[k] == CellOf(c)
  {
    var i := FirstFit(row, count, day, c.facultyId, oracle).value;
    EncodedCellIsNotBlank(c.subject, c.faculty, c.facultyId);
    assert CellOf(c) != "";
    forall k | 0 <= k < |row|
      ensures Fill(row, i, count, CellOf(c))[k] != row[k] <==> i <= k < i + count
    {
      if i <= k < i + count {
        assert CellFree(row, k, day, c.facultyId, oracle);
      }
    }
  }

  /** A block of no cells "fits" at index 0 and writes nothing, which is why
      the block loop needs blocks of at least one cell to end. */
  lemma NonPositiveBlockWritesNothing(grid: Grid, d: DayIndex, c: Course, count: int, oracle: Oracle)
    requires |grid| == 6 && |grid[d]| > 0 && count <= 0
    ensures PlaceOnDay(grid, d, c, count, oracle) == Some(grid)
  {
    var row := grid[d];
    assert Fits(row, 0, count, DAYS[d], c.facultyId, oracle);
    assert FirstFit(row, count, DAYS[d], c.facultyId, oracle) == Some(0);
    var r := Fill(row, 0, count, CellOf(c));
    assert forall k :: 0 <= k < |row| ==> r[k] == row[k];
    assert r == row;
    assert grid[d := r] == grid;
  }

  // ---------------------------------------------------------------------
  // The fallback order

  /** The other days are the five days other than `d`, in `DAYS` order;
      since the day names are distinct this is the source's filter by name. */
  lemma OtherDaysInOrder(d: DayIndex)
    ensures forall k :: 0 <= k < 5 ==> OtherDays(d)[k] != d && DAYS[OtherDays(d)[k]] != DAYS[d]
    ensures forall k, l :: 0 <= k < l < 5 ==> OtherDays(d)[k] < OtherDays(d)[l]
    ensures forall e: DayIndex :: e != d ==> e in OtherDays(d)
  {
    var r := OtherDays(d);
    forall e: DayIndex | e != d
      ensures e in r
    {
      if e < d { assert r[e] == e; } else { assert r[e - 1] == e; }
    }
  }

  /** `TryDays` succeeds exactly on the first listed day that fits. */
  lemma {:induction false} TryDaysFirstSuccess(grid: Grid, days: seq<DayIndex>, c: Course, count: int, oracle: Oracle)
    requires |grid| == 6
    ensures TryDays(grid, days, c, count, oracle).None? <==>
      forall k :: 0 <= k < |days| ==> PlaceOnDay(grid, days[k], c, count, oracle).None?
    ensures TryDays(grid, days, c, count, oracle).Some? ==>
      exists k :: 0 <= k < |days| && TryDays(grid, days, c, count, oracle) == PlaceOnDay(grid, days[k], c, count, oracle) &&
        forall j :: 0 <= j < k ==> PlaceOnDay(grid, days[j], c, count, oracle).None?
    decreases |days|
  {
    if days != [] {
      TryDaysFirstSuccess(grid, days[1..], c, count, oracle);
      if PlaceOnDay(grid, days[0], c, count, oracle).None? {
        assert forall k :: 1 <= k < |days| ==> days[k] == days[1..][k - 1];
        if TryDays(grid, days[1..], c, count, oracle).Some? {
          var k :| 0 <= k < |days[1..]| && TryDays(grid, days[1..], c, count, oracle) == PlaceOnDay(grid, days[1..][k], c, count, oracle) &&
            forall j :: 0 <= j < k ==> PlaceOnDay(grid, days[1..][j], c, count, oracle).None?;
          assert TryDays(grid, days, c, count, oracle) == PlaceOnDay(grid, days[k + 1], c, count, oracle);
        }
      } else {
        assert TryDays(grid, days, c, count, oracle) == PlaceOnDay(grid, days[0], c, count, oracle);
      }
    }
  }

  /** A block fails only when it fits on no day at all. */
  lemma TryPlaceFailsOnlyWhenNoDayFits(grid: Grid, d: DayIndex, c: Course, count: int, oracle: Oracle)
    requires |grid| == 6
    ensures TryPlace(grid, d, c, count, oracle).None? <==>
      forall e: DayIndex :: PlaceOnDay(grid, e, c, count, oracle).None?
  {
    TryDaysFirstSuccess(grid, OtherDays(d), c, count, oracle);
    OtherDaysInOrder(d);
    if TryPlace(grid, d, c, count, oracle).None? {
      forall e: DayIndex
        ensures PlaceOnDay(grid, e, c, count, oracle).None?
      {
        if e != d {
          var k := if e < d then e else e - 1;
          assert OtherDays(d)[k] == e;
        }
      }
    }
  }

  // ---------------------------------------------------------------------
  // Invariants of the grid

  /** Every non-empty cell holds the text of one of `courses`, whose faculty
      had no conflict at that day and index; the shape is six rows of ten and
      index 3 is empty on every day. */
  ghost predicate CellFrom(cell: string, d: DayIndex, k: int, courses: seq<Course>, oracle: Oracle) {
    exists c :: c in courses && cell == CellOf(c) && NoConflict(oracle, DAYS[d], k, c.facultyId)
  }

  ghost predicate Good(grid: Grid, courses: seq<Course>, oracle: Oracle) {
    |grid| == 6 &&
    (forall d :: 0 <= d < 6 ==> |grid[d]| == SLOTS_PER_DAY && grid[d][SKIPPED] == "") &&
    forall d: DayIndex, k :: 0 <= k < SLOTS_PER_DAY && grid[d][k] != "" ==> CellFrom(grid[d][k], d, k, courses, oracle)
  }

  /** Cells that hold text keep it. */
  ghost predicate Grows(g: Grid, h: Grid) {
    |g| == |h| && forall d :: 0 <= d < |g| ==> |g[d]| == |h[d]| && forall k :: 0 <= k < |g[d]| && g[d][k] != "" ==> h[d][k] == g[d][k]
  }

  lemma GrowsTransitive(g: Grid, h: Grid, i: Grid)
    requires Grows(g, h) && Grows(h, i)
    ensures Grows(g, i)
  {
  }

  lemma PlaceOnDayKeeps(grid: Grid, d: DayIndex, c: Course, count: int, courses: seq<Course>, oracle: Oracle)
    requires Good(grid, courses, oracle) && c in courses
    requires PlaceOnDay(grid, d, c, count, oracle).Some?
    ensures Good(PlaceOnDay(grid, d, c, count, oracle).value, courses, oracle)
    ensures Grows(grid, PlaceOnDay(grid, d, c, count, oracle).value)
  {
    var i := FirstFit(grid[d], count, DAYS[d], c.facultyId, oracle).value;
    var row := Fill(grid[d], i, count, CellOf(c));
    var g := grid[d := row];
    forall k | 0 <= k < SLOTS_PER_DAY && row[k] != grid[d][k]
      ensures grid[d][k] == "" && k != SKIPPED && row[k] == CellOf(c) && CellFrom(row[k], d, k, courses, oracle)
    {
      assert CellFree(grid[d], k, DAYS[d], c.facultyId, oracle);
    }
    assert row[SKIPPED] == grid[d][SKIPPED];
  }

  lemma {:induction false} TryDaysKeeps(grid: Grid, days: seq<DayIndex>, c: Course, count: int, courses: seq<Course>, oracle: Oracle)
    requires Good(grid, courses, oracle) && c in courses
    requires TryDays(grid, days, c, count, oracle).Some?
    ensures Good(TryDays(grid, days, c, count, oracle).value, courses, oracle)
    ensures Grows(grid, TryDays(grid, days, c, count, oracle).value)
    decreases |days|
  {
    if PlaceOnDay(grid, days[0], c, count, oracle).Some? {
      PlaceOnDayKeeps(grid, days[0], c, count, courses, oracle);
    } else {
      TryDaysKeeps(grid, days[1..], c, count, courses, oracle);
    }
  }

  lemma TryPlaceKeeps(grid: Grid, d: DayIndex, c: Course, count: int, courses: seq<Course>, oracle: Oracle)
    requires Good(grid, courses, oracle) && c in courses
    requires TryPlace(grid, d, c, count, oracle).Some?
    ensures Good(TryPlace(grid, d, c, count, oracle).value, courses, oracle)
    ensures Grows(grid, TryPlace(grid, d, c, count, oracle).value)
  {
    if PlaceOnDay(grid, d, c, count, oracle).Some? {
      PlaceOnDayKeeps(grid, d, c, count, courses, oracle);
    } else {
      TryDaysKeeps(grid, OtherDays(d), c, count, courses, oracle);
    }
  }

  lemma {:induction false} PlaceCourseKeeps(grid: Grid, c: Course, remaining: int, draws: nat, randomDay: nat -> DayIndex,
                                            courses: seq<Course>, oracle: Oracle)
    requires Good(grid, courses, oracle) && c in courses
    requires remaining <= 0 || ConsecCount(c) >= 1
    ensures Good(PlaceCourse(grid, c, remaining, draws, randomDay, oracle).grid, courses, oracle)
    ensures Grows(grid, PlaceCourse(grid, c, remaining, draws, randomDay, oracle).grid)
    decreases if remaining > 0 then remaining else 0
  {
    if remaining > 0 {
      var toPlace := Min(ConsecCount(c), remaining);
      var t := TryPlace(grid, randomDay(draws), c, toPlace, oracle);
      if t.Some? {
        TryPlaceKeeps(grid, randomDay(draws), c, toPlace, courses, oracle);
        PlaceCourseKeeps(t.value, c, remaining - toPlace, draws + 1, randomDay, courses, oracle);
        GrowsTransitive(grid, t.value, PlaceCourse(t.value, c, remaining - toPlace, draws + 1, randomDay, oracle).grid);
      }
    }
  }

  /** A grid that was good for the list stays good and keeps every written
      cell through the course loop. */
  lemma {:induction false} GenerateFromKeeps(grid: Grid, messages: seq<string>, rest: seq<Course>, draws: nat,
                                             randomDay: nat -> DayIndex, courses: seq<Course>, oracle: Oracle)
    requires Good(grid, courses, oracle)
    requires forall c :: c in rest ==> c in courses && Terminates(c)
    ensures var r := GenerateFrom(grid, messages, rest, draws, randomDay, oracle);
      Good(r.grid, courses, oracle) && Grows(grid, r.grid)
    decreases |rest|
  {
    if rest != [] {
      var c := rest[0];
      assert c in rest;
      var run := PlaceCourse(grid, c, c.slots, draws, randomDay, oracle);
      PlaceCourseKeeps(grid, c, c.slots, draws, randomDay, courses, oracle);
      var messages' := if run.remaining > 0 then messages + [UnplacedWarning(c)] else messages;
      GenerateFromKeeps(run.grid, messages', rest[1..], run.draws, randomDay, courses, oracle);
      var r := GenerateFrom(run.grid, messages', rest[1..], run.draws, randomDay, oracle);
      GrowsTransitive(grid, run.grid, r.grid);
    }
  }

  /** The course loop only appends messages, at most one per course, each
      the warning for one of the courses. */
  lemma {:induction false} GenerateFromMessages(grid: Grid, messages: seq<string>, rest: seq<Course>, draws: nat,
                                                randomDay: nat -> DayIndex, oracle: Oracle)
    requires |grid| == 6
    requires forall c :: c in rest ==> Terminates(c)
    ensures var r := GenerateFrom(grid, messages, rest, draws, randomDay, oracle);
      |messages| <= |r.messages| <= |messages| + |rest| && r.messages[..|messages|] == messages &&
      forall m :: m in r.messages[|messages|..] ==> exists c :: c in rest && m == UnplacedWarning(c)
    decreases |rest|
  {
    if rest != [] {
      var c := rest[0];
      assert c in rest;
      var run := PlaceCourse(grid, c, c.slots, draws, randomDay, oracle);
      var messages' := if run.remaining > 0 then messages + [UnplacedWarning(c)] else messages;
      GenerateFromMessages(run.grid, messages', rest[1..], run.draws, randomDay, oracle);
      var r := GenerateFrom(run.grid, messages', rest[1..], run.draws, randomDay, oracle);
      assert r.messages[..|messages|] == r.messages[..|messages'|][..|messages|];
      forall m | m in r.messages[|messages|..]
        ensures exists c' :: c' in rest && m == UnplacedWarning(c')
      {
        var k :| |messages| <= k < |r.messages| && m == r.messages[k];
        if k < |messages'| {
          assert m == UnplacedWarning(c);
        } else {
          assert m in r.messages[|messages'|..];
          var c' :| c' in rest[1..] && m == UnplacedWarning(c');
          assert c' in rest;
        }
      }
    }
  }

  lemma EmptyGridIsGood(courses: seq<Course>, oracle: Oracle)
    ensures Good(EmptyGrid(), courses, oracle)
  {
  }

  /** The generated grid has the six days with ten cells each, index 3 is
      empty on every day, every other cell is empty or holds the text of a
      course of the list whose faculty had no conflict there, and there is at
      most one message per course, each the warning for one of them. */
  lemma GeneratedTimetable(courses: seq<Course>, randomDay: nat -> DayIndex, oracle: Oracle)
    requires forall c :: c in courses ==> Terminates(c)
    ensures var r := Generate(courses, randomDay, oracle);
      |r.grid| == |DAYS| &&
      (forall d :: 0 <= d < 6 ==> |r.grid[d]| == 10 && r.grid[d][SKIPPED] == "") &&
      (forall d: DayIndex, k :: 0 <= k < 10 && r.grid[d][k] != "" ==> CellFrom(r.grid[d][k], d, k, courses, oracle)) &&
      |r.messages| <= |courses| &&
      forall m :: m in r.messages ==> exists c :: c in courses && m == UnplacedWarning(c)
  {
    EmptyGridIsGood(courses, oracle);
    GenerateFromKeeps(EmptyGrid(), [], courses, 0, randomDay, courses, oracle);
    GenerateFromMessages(EmptyGrid(), [], courses, 0, randomDay, oracle);
    var r := Generate(courses, randomDay, oracle);
    assert r.messages[0..] == r.messages;
  }

  /** Every warning of a generation names a course of the list a block of
      which, of at least one and at most `consecCount` and `slots` cells,
      fits on no day of the generated timetable. */
  lemma GeneratedWarnings(courses: seq<Course>, randomDay: nat -> DayIndex, oracle: Oracle)
    requires forall c :: c in courses ==> Terminates(c)
    ensures forall k :: 0 <= k < |Generate(courses, randomDay, oracle).messages| ==>
      StuckWarning(Generate(courses, randomDay, oracle).messages[k], courses, Generate(courses, randomDay, oracle).grid, oracle)
  {
    GenerateFromWarnings(EmptyGrid(), [], courses, 0, randomDay, oracle);
  }

  /** A generation fills at most the slots the courses ask for, and all of
      them exactly when it has no warning. */
  lemma GeneratedAccounting(courses: seq<Course>, randomDay: nat -> DayIndex, oracle: Oracle)
    requires forall c :: c in courses ==> Terminates(c)
    ensures var r := Generate(courses, randomDay, oracle);
      CountEmpty(EmptyGrid()) - CountEmpty(r.grid) <= Requested(courses) &&
      (r.messages == [] <==> CountEmpty(EmptyGrid()) - CountEmpty(r.grid) == Requested(courses))
  {
    GenerateFromAccounting(EmptyGrid(), [], courses, 0, randomDay, oracle);
  }

  /** No courses: an all-empty grid and no messages. */
  lemma NoCoursesGiveEmptyTimetable(randomDay: nat -> DayIndex, oracle: Oracle)
    ensures Generate([], randomDay, oracle) == Generation(EmptyGrid(), [], 0)
    ensures forall d, k :: 0 <= d < 6 && 0 <= k < 10 ==> Generate([], randomDay, oracle).grid[d][k] == ""
  {
  }

  // ---------------------------------------------------------------------
  // Accounting for one course

  function CountEmptyRow(row: Row): nat
    decreases |row|
  {
    if row == [] then 0 else CountEmptyRow(row[..|row| - 1]) + (if row[|row| - 1] == "" then 1 else 0)
  }

  function CountEmpty(grid: Grid): nat
    decreases |grid|
  {
    if grid == [] then 0 else CountEmpty(grid[..|grid| - 1]) + CountEmptyRow(grid[|grid| - 1])
  }

  /** Filling `count >= 0` empty cells with a non-empty text removes exactly
      `count` empty cells. */
  lemma {:induction false} FillCount(row: Row, i: int, count: int, cell: string)
    requires cell != "" && 0 <= count && 0 <= i && i + count <= |row|
    requires forall k :: i <= k < i + count ==> row[k] == ""
    ensures CountEmptyRow(Fill(row, i, count, cell)) + count == CountEmptyRow(row)
    decreases |row|
  {
    var f := Fill(row, i, count, cell);
    if count == 0 {
      assert f == row;
    } else {
      var n := |row| - 1;
      if i <= n < i + count {
        assert Fill(row[..n], i, count - 1, cell) == f[..n];
        FillCount(row[..n], i, count - 1, cell);
      } else {
        assert Fill(row[..n], i, count, cell) == f[..n];
        FillCount(row[..n], i, count, cell);
      }
    }
  }

  lemma {:induction false} CountEmptyUpdate(grid: Grid, d: nat, row: Row)
    requires d < |grid|
    ensures CountEmpty(grid[d := row]) + CountEmptyRow(grid[d]) == CountEmpty(grid) + CountEmptyRow(row)
    decreases |grid|
  {
    var n := |grid| - 1;
    if d < n {
      assert grid[d := row][..n] == grid[..n][d := row];
      CountEmptyUpdate(grid[..n], d, row);
    } else {
      assert grid[d := row][..n] == grid[..n];
    }
  }

  lemma PlaceOnDayCount(grid: Grid, d: DayIndex, c: Course, count: int, oracle: Oracle)
    requires |grid| == 6 && count >= 0
    requires PlaceOnDay(grid, d, c, count, oracle).Some?
    ensures CountEmpty(PlaceOnDay(grid, d, c, count, oracle).value) + count == CountEmpty(grid)
  {
    var i := FirstFit(grid[d], count, DAYS[d], c.facultyId, oracle).value;
    EncodedCellIsNotBlank(c.subject, c.faculty, c.facultyId);
    forall k | i <= k < i + count
      ensures 0 <= k < |grid[d]| && grid[d][k] == ""
    {
      assert CellFree(grid[d], k, DAYS[d], c.facultyId, oracle);
    }
    if count > 0 {
      assert CellFree(grid[d], i + count - 1, DAYS[d], c.facultyId, oracle);
    }
    FillCount(grid[d], i, count, CellOf(c));
    CountEmptyUpdate(grid, d, Fill(grid[d], i, count, CellOf(c)));
  }

  lemma {:induction false} TryDaysCount(grid: Grid, days: seq<DayIndex>, c: Course, count: int, oracle: Oracle)
    requires |grid| == 6 && count >= 0
    requires TryDays(grid, days, c, count, oracle).Some?
    ensures CountEmpty(TryDays(grid, days, c, count, oracle).value) + count == CountEmpty(grid)
    decreases |days|
  {
    if PlaceOnDay(grid, days[0], c, count, oracle).Some? {
      PlaceOnDayCount(grid, days[0], c, count, oracle);
    } else {
      TryDaysCount(grid, days[1..], c, count, oracle);
    }
  }

  /** A block that goes in on some day fills exactly `count` empty cells. */
  lemma TryPlaceCount(grid: Grid, d: DayIndex, c: Course, count: int, oracle: Oracle)
    requires |grid| == 6 && count >= 0
    requires TryPlace(grid, d, c, count, oracle).Some?
    ensures CountEmpty(TryPlace(grid, d, c, count, oracle).value) + count == CountEmpty(grid)
  {
    if PlaceOnDay(grid, d, c, count, oracle).Some? {
      PlaceOnDayCount(grid, d, c, count, oracle);
    } else {
      TryDaysCount(grid, OtherDays(d), c, count, oracle);
    }
  }

  /** Every iteration places `min(consecCount, remaining)` cells, so the loop
      stops with `remaining` in `0 .. remaining`, and the grid has lost as
      many empty cells as the count fell by. */
  lemma {:induction false} PlaceCourseAccounting(grid: Grid, c: Course, remaining: int, draws: nat,
                                                 randomDay: nat -> DayIndex, oracle: Oracle)
    requires |grid| == 6 && remaining > 0 && ConsecCount(c) >= 1
    ensures var r := PlaceCourse(grid, c, remaining, draws, randomDay, oracle);
      0 <= r.remaining <= remaining &&
      CountEmpty(r.grid) + (remaining - r.remaining) == CountEmpty(grid)
    decreases remaining
  {
    var toPlace := Min(ConsecCount(c), remaining);
    var t := TryPlace(grid, randomDay(draws), c, toPlace, oracle);
    if t.Some? {
      TryPlaceCount(grid, randomDay(draws), c, toPlace, oracle);
      if remaining - toPlace > 0 {
        PlaceCourseAccounting(t.value, c, remaining - toPlace, draws + 1, randomDay, oracle);
      }
    }
  }

  /** The block loop stops with slots left only on a block that fits on none
      of the six days of the grid it stopped with: the case in which the
      warning is pushed. */
  lemma {:induction false} PlaceCourseStopsOnlyWhenStuck(grid: Grid, c: Course, remaining: int, draws: nat,
                                                         randomDay: nat -> DayIndex, oracle: Oracle)
    requires |grid| == 6 && ConsecCount(c) >= 1
    ensures var r := PlaceCourse(grid, c, remaining, draws, randomDay, oracle);
      r.remaining > 0 ==> forall e: DayIndex :: PlaceOnDay(r.grid, e, c, Min(ConsecCount(c), r.remaining), oracle).None?
    decreases if remaining > 0 then remaining else 0
  {
    if remaining > 0 {
      var toPlace := Min(ConsecCount(c), remaining);
      var t := TryPlace(grid, randomDay(draws), c, toPlace, oracle);
      if t.Some? {
        PlaceCourseStopsOnlyWhenStuck(t.value, c, remaining - toPlace, draws + 1, randomDay, oracle);
      } else {
        TryPlaceFailsOnlyWhenNoDayFits(grid, randomDay(draws), c, toPlace, oracle);
      }
    }
  }

  /** A course that is not consecutive is placed one cell per iteration: an
      iteration that succeeds fills exactly one empty cell, keeps every
      filled one, and the loop goes on with one slot fewer. */
  lemma NonConsecutiveOneAtATime(grid: Grid, c: Course, remaining: int, draws: nat,
                                 randomDay: nat -> DayIndex, oracle: Oracle)
    requires |grid| == 6 && c.consecutive == No && remaining > 0
    ensures var t := TryPlace(grid, randomDay(draws), c, Min(ConsecCount(c), remaining), oracle);
      t.Some? ==>
        CountEmpty(t.value) + 1 == CountEmpty(grid) && Grows(grid, t.value) &&
        PlaceCourse(grid, c, remaining, draws, randomDay, oracle) == PlaceCourse(t.value, c, remaining - 1, draws + 1, randomDay, oracle)
  {
    var t := TryPlace(grid, randomDay(draws), c, 1, oracle);
    if t.Some? {
      TryPlaceCount(grid, randomDay(draws), c, 1, oracle);
      TryPlaceGrows(grid, randomDay(draws), c, 1, oracle);
    }
  }

  /** A placement on one day overwrites no filled cell. */
  lemma PlaceOnDayGrows(grid: Grid, d: DayIndex, c: Course, count: int, oracle: Oracle)
    requires |grid| == 6
    requires PlaceOnDay(grid, d, c, count, oracle).Some?
    ensures Grows(grid, PlaceOnDay(grid, d, c, count, oracle).value)
  {
    var i := FirstFit(grid[d], count, DAYS[d], c.facultyId, oracle).value;
    forall k | i <= k < i + count
      ensures 0 <= k < |grid[d]| && grid[d][k] == ""
    {
      assert CellFree(grid[d], k, DAYS[d], c.facultyId, oracle);
    }
  }

  lemma {:induction false} TryDaysGrows(grid: Grid, days: seq<DayIndex>, c: Course, count: int, oracle: Oracle)
    requires |grid| == 6
    requires TryDays(grid, days, c, count, oracle).Some?
    ensures Grows(grid, TryDays(grid, days, c, count, oracle).value)
    decreases |days|
  {
    if PlaceOnDay(grid, days[0], c, count, oracle).Some? {
      PlaceOnDayGrows(grid, days[0], c, count, oracle);
    } else {
      TryDaysGrows(grid, days[1..], c, count, oracle);
    }
  }

  /** A block placement overwrites no filled cell. */
  lemma TryPlaceGrows(grid: Grid, d: DayIndex, c: Course, count: int, oracle: Oracle)
    requires |grid| == 6
    requires TryPlace(grid, d, c, count, oracle).Some?
    ensures Grows(grid, TryPlace(grid, d, c, count, oracle).value)
  {
    if PlaceOnDay(grid, d, c, count, oracle).Some? {
      PlaceOnDayGrows(grid, d, c, count, oracle);
    } else {
      TryDaysGrows(grid, OtherDays(d), c, count, oracle);
    }
  }

  /** The block loop of a course overwrites no filled cell. */
  lemma {:induction false} PlaceCourseGrows(grid: Grid, c: Course, remaining: int, draws: nat,
                                            randomDay: nat -> DayIndex, oracle: Oracle)
    requires |grid| == 6 && (remaining <= 0 || ConsecCount(c) >= 1)
    ensures Grows(grid, PlaceCourse(grid, c, remaining, draws, randomDay, oracle).grid)
    decreases if remaining > 0 then remaining else 0
  {
    if remaining > 0 {
      var toPlace := Min(ConsecCount(c), remaining);
      var t := TryPlace(grid, randomDay(draws), c, toPlace, oracle);
      if t.Some? {
        TryPlaceGrows(grid, randomDay(draws), c, toPlace, oracle);
        PlaceCourseGrows(t.value, c, remaining - toPlace, draws + 1, randomDay, oracle);
        GrowsTransitive(grid, t.value, PlaceCourse(t.value, c, remaining - toPlace, draws + 1, randomDay, oracle).grid);
      }
    }
  }

  /** The course loop overwrites no filled cell. */
  lemma {:induction false} GenerateFromGrows(grid: Grid, messages: seq<string>, rest: seq<Course>, draws: nat,
                                             randomDay: nat -> DayIndex, oracle: Oracle)
    requires |grid| == 6
    requires forall c :: c in rest ==> Terminates(c)
    ensures Grows(grid, GenerateFrom(grid, messages, rest, draws, randomDay, oracle).grid)
    decreases |rest|
  {
    if rest != [] {
      var c := rest[0];
      assert c in rest;
      var run := PlaceCourse(grid, c, c.slots, draws, randomDay, oracle);
      PlaceCourseGrows(grid, c, c.slots, draws, randomDay, oracle);
      var messages' := if run.remaining > 0 then messages + [UnplacedWarning(c)] else messages;
      GenerateFromGrows(run.grid, messages', rest[1..], run.draws, randomDay, oracle);
      GrowsTransitive(grid, run.grid, GenerateFrom(run.grid, messages', rest[1..], run.draws, randomDay, oracle).grid);
    }
  }

  /** The slots the courses ask for: `slots` of each course, negative counts
      asking for none. */
  function Requested(courses: seq<Course>): nat
    decreases |courses|
  {
    if courses == [] then 0 else (if courses[0].slots > 0 then courses[0].slots else 0) + Requested(courses[1..])
  }

  /** The course loop fills at most the slots the courses ask for, and fills
      all of them exactly when it records no warning. */
  lemma {:induction false} GenerateFromAccounting(grid: Grid, messages: seq<string>, rest: seq<Course>, draws: nat,
                                                  randomDay: nat -> DayIndex, oracle: Oracle)
    requires |grid| == 6
    requires forall c :: c in rest ==> Terminates(c)
    ensures var r := GenerateFrom(grid, messages, rest, draws, randomDay, oracle);
      CountEmpty(r.grid) <= CountEmpty(grid) && CountEmpty(grid) - CountEmpty(r.grid) <= Requested(rest) &&
      (r.messages == messages <==> CountEmpty(grid) - CountEmpty(r.grid) == Requested(rest))
    decreases |rest|
  {
    if rest != [] {
      var c := rest[0];
      assert c in rest;
      var run := PlaceCourse(grid, c, c.slots, draws, randomDay, oracle);
      if c.slots > 0 {
        PlaceCourseAccounting(grid, c, c.slots, draws, randomDay, oracle);
      }
      var messages' := if run.remaining > 0 then messages + [UnplacedWarning(c)] else messages;
      GenerateFromAccounting(run.grid, messages', rest[1..], run.draws, randomDay, oracle);
      GenerateFromMessages(run.grid, messages', rest[1..], run.draws, randomDay, oracle);
    }
  }

  /** The block size `n` of a course fits on none of the six days of `g`. */
  ghost predicate Stuck(g: Grid, c: Course, n: int, oracle: Oracle) {
    |g| == 6 && n >= 1 && forall e: DayIndex :: PlaceOnDay(g, e, c, n, oracle).None?
  }

  /** A block that fits on no day still fits on none once more cells are
      filled: a cell empty in the later grid was empty before. */
  lemma StuckPersists(g: Grid, h: Grid, c: Course, n: int, oracle: Oracle)
    requires Stuck(g, c, n, oracle) && Grows(g, h)
    ensures Stuck(h, c, n, oracle)
  {
    forall e: DayIndex
      ensures PlaceOnDay(h, e, c, n, oracle).None?
    {
      assert PlaceOnDay(g, e, c, n, oracle).None?;
      assert FirstFit(g[e], n, DAYS[e], c.facultyId, oracle).None?;
      forall i | 0 <= i < |h[e]| && i != SKIPPED
        ensures !Fits(h[e], i, n, DAYS[e], c.facultyId, oracle)
      {
        assert !Fits(g[e], i, n, DAYS[e], c.facultyId, oracle);
        var k :| i <= k < i + n && !CellFree(g[e], k, DAYS[e], c.facultyId, oracle);
        assert !CellFree(h[e], k, DAYS[e], c.facultyId, oracle);
      }
    }
  }

  /** A course whose block loop stops with slots left is stuck on the grid
      it stopped with. */
  lemma CourseWarningIsStuck(grid: Grid, c: Course, draws: nat, randomDay: nat -> DayIndex, oracle: Oracle)
    requires |grid| == 6 && Terminates(c)
    requires PlaceCourse(grid, c, c.slots, draws, randomDay, oracle).remaining > 0
    ensures var run := PlaceCourse(grid, c, c.slots, draws, randomDay, oracle);
      Stuck(run.grid, c, Min(ConsecCount(c), run.remaining), oracle)
  {
    assert c.slots > 0;
    PlaceCourseStopsOnlyWhenStuck(grid, c, c.slots, draws, randomDay, oracle);
  }

  /** `msg` is the warning of a course of `courses` some block of which, of
      at least one and at most `consecCount` and `slots` cells, fits on no day
      of `g`. */
  ghost predicate StuckWarning(msg: string, courses: seq<Course>, g: Grid, oracle: Oracle) {
    exists c, n :: c in courses && msg == UnplacedWarning(c) && n <= ConsecCount(c) && n <= c.slots && Stuck(g, c, n, oracle)
  }

  /** Each warning the course loop records names a course of the list a
      block of which fits on no day of the grid the loop ends with. */
  lemma {:induction false} GenerateFromWarnings(grid: Grid, messages: seq<string>, rest: seq<Course>, draws: nat,
                                                randomDay: nat -> DayIndex, oracle: Oracle)
    requires |grid| == 6
    requires forall c :: c in rest ==> Terminates(c)
    ensures forall k :: |messages| <= k < |GenerateFrom(grid, messages, rest, draws, randomDay, oracle).messages| ==>
      StuckWarning(GenerateFrom(grid, messages, rest, draws, randomDay, oracle).messages[k], rest,
                   GenerateFrom(grid, messages, rest, draws, randomDay, oracle).grid, oracle)
    decreases |rest|
  {
    if rest != [] {
      var c := rest[0];
      assert c in rest;
      var run := PlaceCourse(grid, c, c.slots, draws, randomDay, oracle);
      var messages' := if run.remaining > 0 then messages + [UnplacedWarning(c)] else messages;
      GenerateFromWarnings(run.grid, messages', rest[1..], run.draws, randomDay, oracle);
      var r := GenerateFrom(run.grid, messages', rest[1..], run.draws, randomDay, oracle);
      assert r == GenerateFrom(grid, messages, rest, draws, randomDay, oracle);
      forall k | |messages| <= k < |r.messages|
        ensures StuckWarning(r.messages[k], rest, r.grid, oracle)
      {
        if k < |messages'| {
          assert c.slots > 0;
          PlaceCourseAccounting(grid, c, c.slots, draws, randomDay, oracle);
          CourseWarningIsStuck(grid, c, draws, randomDay, oracle);
          var n := Min(ConsecCount(c), run.remaining);
          GenerateFromGrows(run.grid, messages', rest[1..], run.draws, randomDay, oracle);
          StuckPersists(run.grid, r.grid, c, n, oracle);
          GenerateFromMessages(run.grid, messages', rest[1..], run.draws, randomDay, oracle);
          assert r.messages[k] == messages'[k] == UnplacedWarning(c) by {
            assert r.messages[..|messages'|] == messages';
          }
          assert Stuck(r.grid, c, n, oracle);
        } else {
          assert StuckWarning(r.messages[k], rest[1..], r.grid, oracle);
          var c', n :| c' in rest[1..] && r.messages[k] == UnplacedWarning(c') && n <= ConsecCount(c') && n <= c'.slots && Stuck(r.grid, c', n, oracle);
          assert c' in rest;
        }
      }
    }
  }

  // ---------------------------------------------------------------------
  // The rendered grid

  /** The data index shown in display column `col` (column 3 is the break). */
  function ColumnToSlot(col: int): (s: int)
    requires 0 <= col < 11 && col != 3
    ensures 0 <= s < 10
  {
    if col > 3 then col - 1 else col
  }

  function SlotToColumn(s: int): (col: int)
    requires 0 <= s < 10
    ensures 0 <= col < 11 && col != 3
  {
    if s >= 3 then s + 1 else s
  }

  /** The columns other than the break show each data index exactly once. */
  lemma ColumnsAreABijection()
    ensures forall col :: 0 <= col < 11 && col != 3 ==> SlotToColumn(ColumnToSlot(col)) == col
    ensures forall s :: 0 <= s < 10 ==> ColumnToSlot(SlotToColumn(s)) == s
  {
  }

  /** What a body cell of the rendered table shows. */
  function DisplayCell(grid: Grid, d: DayIndex, col: int): string
    requires |grid| == 6 && forall e :: 0 <= e < 6 ==> |grid[e]| == 10
    requires 0 <= col < 11
  {
    if col == 3 then "Break" else grid[d][ColumnToSlot(col)]
  }

  /** The column headed "Slot 4", whose timing is "10:45 - 11:35", shows data
      index 3, which generation never fills: that column is empty on every
      day, while the break sits in its own column. */
  lemma SlotFourColumnIsAlwaysEmpty(courses: seq<Course>, randomDay: nat -> DayIndex, oracle: Oracle, d: DayIndex)
    requires forall c :: c in courses ==> Terminates(c)
    ensures ColumnToSlot(4) == SKIPPED && SlotTimings.SLOT_TIMINGS[ColumnToSlot(4)] == "10:45 - 11:35"
    ensures DisplayCell(Generate(courses, randomDay, oracle).grid, d, 4) == ""
  {
    GeneratedTimetable(courses, randomDay, oracle);
  }
}
