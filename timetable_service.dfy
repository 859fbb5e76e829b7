/** The logic of src/services/timetableService.ts around its database calls:
    the conflict query as a filter over the stored slots, the slot rows built
    from the cells of a timetable, the validation that gates saving, the order
    of the writes in `saveTimetable`, and the availability listing. The
    database is a `Store`: the joined `timetable_slots`/`timetables` rows, or
    a failure with its message. */
module TimetableService {
  import opened Wrappers
  import opened Text
  import opened Types
  import opened CellCodec
  import opened Placement

  /** A stored `timetable_slots` row joined with its `timetables` row. */
  datatype StoredSlot = StoredSlot(
    timetableId: string,
    day: string,
    slotNumber: int,
    subject: string,
    facultyId: string,
    department: string,
    semester: string,
    block: string)

  datatype Store = Online(rows: seq<StoredSlot>) | Offline(reason: string)

  /** `${department} - ${semester} (${block})` */
  function TimetableLabel(s: StoredSlot): string {
    s.department + " - " + s.semester + " (" + s.block + ")"
  }

  predicate SameCell(s: StoredSlot, day: string, slotNumber: int, facultyId: string) {
    s.day == day && s.slotNumber == slotNumber && s.facultyId == facultyId
  }

  /** `.eq('day', day).eq('slot_number', slotNumber).eq('faculty_id', facultyId)` */
  function MatchingRows(rows: seq<StoredSlot>, day: string, slotNumber: int, facultyId: string): (r: seq<StoredSlot>)
    ensures |r| <= |rows|
    ensures forall s :: s in r <==> s in rows && SameCell(s, day, slotNumber, facultyId)
    decreases |rows|
  {
    if rows == [] then []
    else
      var rest := MatchingRows(rows[1..], day, slotNumber, facultyId);
      assert forall s :: s in rows <==> s == rows[0] || s in rows[1..];
      if SameCell(rows[0], day, slotNumber, facultyId) then [rows[0]] + rest else rest
  }

  function ToConflict(s: StoredSlot, day: string, slotNumber: int): FacultyConflict {
    FacultyConflict(TimetableLabel(s), s.department, s.semester, day, slotNumber + 1)
  }

  /** `checkFacultyConflicts`: one conflict per matching stored slot, across
      all timetables, each reporting the 1-based slot number; a failed query
      throws. */
  function CheckFacultyConflicts(store: Store, day: string, slotNumber: int, facultyId: string): (r: Result<seq<FacultyConflict>>)
    ensures store.Offline? <==> r.Err?
    ensures r.Err? ==> r.error == "Failed to check faculty conflicts"
    ensures r.Ok? ==>
      var m := MatchingRows(store.rows, day, slotNumber, facultyId);
      |r.value| == |m| &&
      forall k :: 0 <= k < |m| ==> r.value[k] == ToConflict(m[k], day, slotNumber)
  {
    match store
    case Offline(_) => Err("Failed to check faculty conflicts")
    case Online(rows) =>
      var m := MatchingRows(rows, day, slotNumber, facultyId);
      Ok(seq(|m|, k requires 0 <= k < |m| => ToConflict(m[k], day, slotNumber)))
  }

  /** The service as the oracle of the generator and of the validation. */
  function StoreOracle(store: Store): Oracle {
    (day: string, slot: int, facultyId: string) => CheckFacultyConflicts(store, day, slot, facultyId)
  }

  /** A reachable store reports a conflict at a cell exactly when it holds a
      slot of that faculty at that day and slot number, and every conflict
      carries that day and the 1-based slot number. */
  lemma ConflictQueryIsExact(rows: seq<StoredSlot>, day: string, slotNumber: int, facultyId: string)
    ensures var r := CheckFacultyConflicts(Online(rows), day, slotNumber, facultyId);
      r.Ok? &&
      (|r.value| > 0 <==> exists s :: s in rows && SameCell(s, day, slotNumber, facultyId)) &&
      forall x :: x in r.value ==>
        x.day == day && x.slot == slotNumber + 1 &&
        exists s :: s in rows && SameCell(s, day, slotNumber, facultyId) && x.timetable == TimetableLabel(s)
  {
    var m := MatchingRows(rows, day, slotNumber, facultyId);
    var r := CheckFacultyConflicts(Online(rows), day, slotNumber, facultyId);
    if |m| > 0 {
      assert m[0] in m;
    }
    if exists s :: s in rows && SameCell(s, day, slotNumber, facultyId) {
      var s :| s in rows && SameCell(s, day, slotNumber, facultyId);
      assert s in m;
    }
    forall x | x in r.value
      ensures x.day == day && x.slot == slotNumber + 1 &&
        exists s :: s in rows && SameCell(s, day, slotNumber, facultyId) && x.timetable == TimetableLabel(s)
    {
      var k :| 0 <= k < |r.value| && r.value[k] == x;
      assert m[k] in m;
    }
  }

  // ---------------------------------------------------------------------
  // Slot rows

  /** One `[day, daySlots]` pair of `Object.entries(timetableData)`. */
  datatype DayEntry = DayEntry(day: string, cells: seq<string>)

  /** The entries of a grid the generator built: its days in `DAYS` order. */
  function GridEntries(grid: Grid): (r: seq<DayEntry>)
    requires |grid| == 6
    ensures |r| == 6 && forall d :: 0 <= d < 6 ==> r[d] == DayEntry(DAYS[d], grid[d])
  {
    seq(6, d requires 0 <= d < 6 => DayEntry(DAYS[d], grid[d]))
  }

  /** A row for `timetable_slots`, `slotNumber` 0-based. */
  datatype SlotRow = SlotRow(timetableId: string, day: string, slotNumber: int, subject: string, facultyId: string)

  /** The row of one cell: none for a blank cell (`slotContent &&
      slotContent.trim() !== ''`, and `""` is blank) or one that does not
      match the cell pattern. */
  function CellRow(timetableId: string, day: string, slotIndex: int, cell: string): (r: Option<SlotRow>)
    ensures r.Some? ==> r.value.timetableId == timetableId && r.value.day == day && r.value.slotNumber == slotIndex
  {
    if IsBlank(cell) then None
    else match MatchCell(cell)
      case None => None
      case Some(m) => Some(SlotRow(timetableId, day, slotIndex, m.subject, m.facultyId))
  }

  function OptionToSeq<T>(o: Option<T>): seq<T> {
    if o.Some? then [o.value] else []
  }

  /** The rows of the cells of one day, in index order. */
  function DayRows(timetableId: string, day: string, cells: seq<string>): seq<SlotRow>
    decreases |cells|
  {
    if cells == [] then []
    else DayRows(timetableId, day, cells[..|cells| - 1]) + OptionToSeq(CellRow(timetableId, day, |cells| - 1, cells[|cells| - 1]))
  }

  /** The rows of all entries, day by day. */
  function SlotRows(timetableId: string, entries: seq<DayEntry>): seq<SlotRow>
    decreases |entries|
  {
    if entries == [] then []
    else
      var e := entries[|entries| - 1];
      SlotRows(timetableId, entries[..|entries| - 1]) + DayRows(timetableId, e.day, e.cells)
  }

  /** The two nested `forEach` loops with `slots.push` of `saveTimetable`. */
  method BuildSlotRows(timetableId: string, entries: seq<DayEntry>) returns (slots: seq<SlotRow>)
    ensures slots == SlotRows(timetableId, entries)
  {
    slots := [];
    for e := 0 to |entries|
      invariant slots == SlotRows(timetableId, entries[..e])
    {
      assert entries[..e + 1][..e] == entries[..e];
      var day := entries[e].day;
      var daySlots := entries[e].cells;
      ghost var before := slots;
      for slotIndex := 0 to |daySlots|
        invariant slots == before + DayRows(timetableId, day, daySlots[..slotIndex])
      {
        assert daySlots[..slotIndex + 1][..slotIndex] == daySlots[..slotIndex];
        var slotContent := daySlots[slotIndex];
        if !IsBlank(slotContent) {
          var match_ := MatchCell(slotContent);
          if match_.Some? {
            slots := slots + [SlotRow(timetableId, day, slotIndex, match_.value.subject, match_.value.facultyId)];
          }
        }
      }
      assert daySlots[..|daySlots|] == daySlots;
    }
    assert entries[..|entries|] == entries;
  }

  /** A blank or non-matching cell gives no row, and every other cell gives
      the row of its decoded subject and faculty id. */
  lemma CellRowCases(timetableId: string, day: string, slotIndex: int, cell: string)
    ensures CellRow(timetableId, day, slotIndex, cell).None? <==> IsBlank(cell) || MatchCell(cell).None?
    ensures IsBlank(cell) ==> CellRow(timetableId, day, slotIndex, cell).None?
    ensures CellRow(timetableId, day, slotIndex, cell).Some? ==>
      var m := MatchCell(cell).value;
      CellRow(timetableId, day, slotIndex, cell).value == SlotRow(timetableId, day, slotIndex, m.subject, m.facultyId)
  {
    if IsBlank(cell) {
      BlankNeverMatches(cell);
    }
  }

  /** Each row of a day is the row of one of its cells, at that cell's index. */
  lemma {:induction false} DayRowsSound(timetableId: string, day: string, cells: seq<string>)
    ensures var r := DayRows(timetableId, day, cells);
      |r| <= |cells| &&
      forall a :: 0 <= a < |r| ==>
        0 <= r[a].slotNumber < |cells| && CellRow(timetableId, day, r[a].slotNumber, cells[r[a].slotNumber]) == Some(r[a])
    decreases |cells|
  {
    if cells != [] {
      var n := |cells| - 1;
      var pre := cells[..n];
      DayRowsSound(timetableId, day, pre);
      assert forall k :: 0 <= k < n ==> pre[k] == cells[k];
    }
  }

  /** The rows of a day come in ascending index order. */
  lemma {:induction false} DayRowsAscending(timetableId: string, day: string, cells: seq<string>)
    ensures var r := DayRows(timetableId, day, cells);
      forall a, b :: 0 <= a < b < |r| ==> r[a].slotNumber < r[b].slotNumber
    decreases |cells|
  {
    if cells != [] {
      var n := |cells| - 1;
      DayRowsAscending(timetableId, day, cells[..n]);
      DayRowsSound(timetableId, day, cells[..n]);
    }
  }

  /** Every cell that has a row contributes it. */
  lemma {:induction false} DayRowsComplete(timetableId: string, day: string, cells: seq<string>)
    ensures forall k :: 0 <= k < |cells| && CellRow(timetableId, day, k, cells[k]).Some? ==>
      CellRow(timetableId, day, k, cells[k]).value in DayRows(timetableId, day, cells)
    decreases |cells|
  {
    if cells != [] {
      var n := |cells| - 1;
      var pre := cells[..n];
      DayRowsComplete(timetableId, day, pre);
      assert forall k :: 0 <= k < n ==> pre[k] == cells[k];
    }
  }

  /** A `Good` generated grid of courses whose texts decode gives, for each
      filled cell, the row of that cell's course. */
  lemma {:induction false} GeneratedCellsGiveRows(grid: Grid, courses: seq<Course>, oracle: Oracle, timetableId: string, d: DayIndex, k: int)
    requires Good(grid, courses, oracle)
    requires forall c :: c in courses ==> EncodableSubject(c.subject) && EncodableFaculty(c.faculty) && EncodableFacultyId(c.facultyId)
    requires 0 <= k < 10 && grid[d][k] != ""
    ensures exists c ::
      c in courses && grid[d][k] == CellOf(c) &&
      CellRow(timetableId, DAYS[d], k, grid[d][k]) == Some(SlotRow(timetableId, DAYS[d], k, c.subject, c.facultyId))
  {
    var c :| c in courses && grid[d][k] == CellOf(c) && NoConflict(oracle, DAYS[d], k, c.facultyId);
    RoundTrip(c.subject, c.faculty, c.facultyId);
    EncodedCellIsNotBlank(c.subject, c.faculty, c.facultyId);
  }

  // ---------------------------------------------------------------------
  // Validation

  datatype Validation = Validation(valid: bool, conflicts: seq<string>)

  function ConflictMessage(facultyId: string, day: string, slotIndex: int, first: FacultyConflict): string {
    facultyId + " is already teaching on " + day + " slot " + IntToString(slotIndex + 1) + " in " + first.timetable
  }

  /** The cell is queried: it is not blank and matches the cell pattern. */
  predicate Queried(cell: string) {
    !IsBlank(cell) && MatchCell(cell).Some?
  }

  /** One cell of the validation: no message, a message, or the error thrown
      by the conflict query. */
  function CellCheck(oracle: Oracle, day: string, slotIndex: int, cell: string): Result<Option<string>> {
    if IsBlank(cell) then Ok(None)
    else match MatchCell(cell)
      case None => Ok(None)
      case Some(m) =>
        match oracle(day, slotIndex, m.facultyId)
        case Err(e) => Err(e)
        case Ok(found) => if |found| > 0 then Ok(Some(ConflictMessage(m.facultyId, day, slotIndex, found[0]))) else Ok(None)
  }

  /** A cell that is not queried passes; a queried one fails with the query's
      error, passes on an empty answer, and otherwise gives the message naming
      the faculty id, the day, the 1-based slot and the first conflict's
      timetable. */
  lemma CellCheckCases(oracle: Oracle, day: string, slotIndex: int, cell: string)
    ensures !Queried(cell) ==> CellCheck(oracle, day, slotIndex, cell) == Ok(None)
    ensures Queried(cell) ==>
      var id := MatchCell(cell).value.facultyId;
      var q := oracle(day, slotIndex, id);
      var r := CellCheck(oracle, day, slotIndex, cell);
      (q.Err? ==> r == Err(q.error)) &&
      (q.Ok? && |q.value| == 0 ==> r == Ok(None)) &&
      (q.Ok? && |q.value| > 0 ==> r == Ok(Some(ConflictMessage(id, day, slotIndex, q.value[0]))))
  {
  }

  /** The messages of one day's cells, in order, up to the first error. */
  function DayMessages(oracle: Oracle, day: string, cells: seq<string>): Result<seq<string>>
    decreases |cells|
  {
    if cells == [] then Ok([])
    else
      var n := |cells| - 1;
      match DayMessages(oracle, day, cells[..n])
      case Err(e) => Err(e)
      case Ok(ms) =>
        match CellCheck(oracle, day, n, cells[n])
        case Err(e) => Err(e)
        case Ok(None) => Ok(ms)
        case Ok(Some(m)) => Ok(ms + [m])
  }

  /** The messages of all entries, in order, up to the first error. */
  function ValidateSpec(oracle: Oracle, entries: seq<DayEntry>): Result<seq<string>>
    decreases |entries|
  {
    if entries == [] then Ok([])
    else
      var n := |entries| - 1;
      match ValidateSpec(oracle, entries[..n])
      case Err(e) => Err(e)
      case Ok(ms) =>
        match DayMessages(oracle, entries[n].day, entries[n].cells)
        case Err(e) => Err(e)
        case Ok(ds) => Ok(ms + ds)
  }

  function ValidationOf(r: Result<seq<string>>): Result<Validation> {
    match r
    case Err(e) => Err(e)
    case Ok(ms) => Ok(Validation(|ms| == 0, ms))
  }

  lemma {:induction false} DayMessagesErrStays(oracle: Oracle, day: string, cells: seq<string>, m: nat, e: string)
    requires m <= |cells| && DayMessages(oracle, day, cells[..m]) == Err(e)
    ensures DayMessages(oracle, day, cells) == Err(e)
    decreases |cells| - m
  {
    if m < |cells| {
      assert cells[..m + 1][..m] == cells[..m];
      DayMessagesErrStays(oracle, day, cells, m + 1, e);
    } else {
      assert cells[..m] == cells;
    }
  }

  lemma {:induction false} ValidateErrStays(oracle: Oracle, entries: seq<DayEntry>, m: nat, e: string)
    requires m <= |entries| && ValidateSpec(oracle, entries[..m]) == Err(e)
    ensures ValidateSpec(oracle, entries) == Err(e)
    decreases |entries| - m
  {
    if m < |entries| {
      assert entries[..m + 1][..m] == entries[..m];
      ValidateErrStays(oracle, entries, m + 1, e);
    } else {
      assert entries[..m] == entries;
    }
  }

  /** `validateTimetableConflicts`: the nested loops over the entries and
      their cells; a throwing query ends the loops with its error. */
  method ValidateTimetableConflicts(entries: seq<DayEntry>, oracle: Oracle) returns (r: Result<Validation>)
    ensures r == ValidationOf(ValidateSpec(oracle, entries))
  {
    var conflicts: seq<string> := [];
    for e := 0 to |entries|
      invariant ValidateSpec(oracle, entries[..e]) == Ok(conflicts)
    {
      assert entries[..e + 1][..e] == entries[..e];
      var day := entries[e].day;
      var daySlots := entries[e].cells;
      ghost var before := conflicts;
      ghost var ds: seq<string> := [];
      for slotIndex := 0 to |daySlots|
        invariant conflicts == before + ds
        invariant DayMessages(oracle, day, daySlots[..slotIndex]) == Ok(ds)
      {
        assert daySlots[..slotIndex + 1][..slotIndex] == daySlots[..slotIndex];
        var slotContent := daySlots[slotIndex];
        assert daySlots[..slotIndex + 1][slotIndex] == slotContent;
        ghost var check := CellCheck(oracle, day, slotIndex, slotContent);
        assert DayMessages(oracle, day, daySlots[..slotIndex + 1]) ==
          (match check case Err(x) => Err(x) case Ok(None) => Ok(ds) case Ok(Some(m)) => Ok(ds + [m]));
        if !IsBlank(slotContent) {
          var match_ := MatchCell(slotContent);
          if match_.Some? {
            var facultyId := match_.value.facultyId;
            var existingConflicts := oracle(day, slotIndex, facultyId);
            if existingConflicts.Err? {
              assert check == Err(existingConflicts.error);
              DayMessagesErrStays(oracle, day, daySlots, slotIndex + 1, existingConflicts.error);
              ValidateErrStays(oracle, entries, e + 1, existingConflicts.error);
              return Err(existingConflicts.error);
            }
            if |existingConflicts.value| > 0 {
              var message := ConflictMessage(facultyId, day, slotIndex, existingConflicts.value[0]);
              assert check == Ok(Some(message));
              conflicts := conflicts + [message];
              ds := ds + [message];
            } else {
              assert check == Ok(None);
            }
          } else {
            assert check == Ok(None);
          }
        } else {
          assert check == Ok(None);
        }
      }
      assert daySlots[..|daySlots|] == daySlots;
    }
    assert entries[..|entries|] == entries;
    return Ok(Validation(|conflicts| == 0, conflicts));
  }

  /** A day's cells give an error exactly when a queried cell's query fails,
      and no messages and no error exactly when every queried cell's query
      answers an empty list. */
  lemma {:induction false} DayMessagesOutcome(oracle: Oracle, day: string, cells: seq<string>)
    ensures DayMessages(oracle, day, cells).Err? <==>
      exists k :: 0 <= k < |cells| && CellCheck(oracle, day, k, cells[k]).Err?
    ensures DayMessages(oracle, day, cells) == Ok([]) <==>
      forall k :: 0 <= k < |cells| ==> CellCheck(oracle, day, k, cells[k]) == Ok(None)
    ensures DayMessages(oracle, day, cells).Ok? ==>
      var ms := DayMessages(oracle, day, cells).value;
      |ms| <= |cells| && forall m :: m in ms ==> exists k :: 0 <= k < |cells| && CellCheck(oracle, day, k, cells[k]) == Ok(Some(m))
    decreases |cells|
  {
    if cells != [] {
      var n := |cells| - 1;
      var pre := cells[..n];
      DayMessagesOutcome(oracle, day, pre);
      assert forall k :: 0 <= k < n ==> pre[k] == cells[k];
      var r := DayMessages(oracle, day, cells);
      if DayMessages(oracle, day, pre).Ok? {
        var ms := DayMessages(oracle, day, pre).value;
        if r.Ok? {
          forall m | m in r.value
            ensures exists k :: 0 <= k < |cells| && CellCheck(oracle, day, k, cells[k]) == Ok(Some(m))
          {
            if m in ms {
              var k :| 0 <= k < |pre| && CellCheck(oracle, day, k, pre[k]) == Ok(Some(m));
              assert CellCheck(oracle, day, k, cells[k]) == Ok(Some(m));
            } else {
              assert CellCheck(oracle, day, n, cells[n]) == Ok(Some(m));
            }
          }
        }
        if r == Ok([]) {
          assert ms == [];
        }
      } else {
        var k :| 0 <= k < |pre| && CellCheck(oracle, day, k, pre[k]).Err?;
        assert CellCheck(oracle, day, k, cells[k]).Err?;
      }
    }
  }

  /** The cell `k` of entry `e` of `entries`. */
  predicate IsCell(entries: seq<DayEntry>, e: int, k: int) {
    0 <= e < |entries| && 0 <= k < |entries[e].cells|
  }

  function TotalCells(entries: seq<DayEntry>): nat
    decreases |entries|
  {
    if entries == [] then 0 else TotalCells(entries[..|entries| - 1]) + |entries[|entries| - 1].cells|
  }

  /** The validation fails with an error exactly when the query of some
      queried cell fails. */
  lemma {:induction false} ValidateErrors(oracle: Oracle, entries: seq<DayEntry>)
    ensures ValidateSpec(oracle, entries).Err? <==>
      exists e, k :: IsCell(entries, e, k) && CellCheck(oracle, entries[e].day, k, entries[e].cells[k]).Err?
    decreases |entries|
  {
    if entries != [] {
      var n := |entries| - 1;
      var pre := entries[..n];
      ValidateErrors(oracle, pre);
      DayMessagesOutcome(oracle, entries[n].day, entries[n].cells);
      assert forall e :: 0 <= e < n ==> pre[e] == entries[e];
      if ValidateSpec(oracle, pre).Err? {
        var e, k :| IsCell(pre, e, k) && CellCheck(oracle, pre[e].day, k, pre[e].cells[k]).Err?;
        assert IsCell(entries, e, k);
      } else if DayMessages(oracle, entries[n].day, entries[n].cells).Err? {
        var k :| 0 <= k < |entries[n].cells| && CellCheck(oracle, entries[n].day, k, entries[n].cells[k]).Err?;
        assert IsCell(entries, n, k);
      } else {
        forall e, k | IsCell(entries, e, k)
          ensures CellCheck(oracle, entries[e].day, k, entries[e].cells[k]).Ok?
        {
          if e < n {
            assert IsCell(pre, e, k);
          }
        }
      }
    }
  }

  ghost predicate AllPass(oracle: Oracle, entries: seq<DayEntry>) {
    forall e, k :: IsCell(entries, e, k) ==> CellCheck(oracle, entries[e].day, k, entries[e].cells[k]) == Ok(None)
  }

  lemma AllPassSplit(oracle: Oracle, entries: seq<DayEntry>)
    requires entries != []
    ensures var n := |entries| - 1;
      AllPass(oracle, entries) <==>
        AllPass(oracle, entries[..n]) &&
        forall k :: 0 <= k < |entries[n].cells| ==> CellCheck(oracle, entries[n].day, k, entries[n].cells[k]) == Ok(None)
  {
    var n := |entries| - 1;
    var pre := entries[..n];
    assert forall e :: 0 <= e < n ==> pre[e] == entries[e];
    if AllPass(oracle, entries) {
      forall e, k | IsCell(pre, e, k)
        ensures CellCheck(oracle, pre[e].day, k, pre[e].cells[k]) == Ok(None)
      {
        assert IsCell(entries, e, k);
      }
      forall k | 0 <= k < |entries[n].cells|
        ensures CellCheck(oracle, entries[n].day, k, entries[n].cells[k]) == Ok(None)
      {
        assert IsCell(entries, n, k);
      }
    }
    if AllPass(oracle, pre) && forall k :: 0 <= k < |entries[n].cells| ==> CellCheck(oracle, entries[n].day, k, entries[n].cells[k]) == Ok(None) {
      forall e, k | IsCell(entries, e, k)
        ensures CellCheck(oracle, entries[e].day, k, entries[e].cells[k]) == Ok(None)
      {
        if e < n {
          assert IsCell(pre, e, k);
        }
      }
    }
  }

  /** The validation passes, with no message and no error, exactly when every
      cell passes. */
  lemma {:induction false} ValidatePasses(oracle: Oracle, entries: seq<DayEntry>)
    ensures ValidateSpec(oracle, entries) == Ok([]) <==> AllPass(oracle, entries)
    decreases |entries|
  {
    if entries != [] {
      var n := |entries| - 1;
      var pre := entries[..n];
      ValidatePasses(oracle, pre);
      DayMessagesOutcome(oracle, entries[n].day, entries[n].cells);
      AllPassSplit(oracle, entries);
      var day := DayMessages(oracle, entries[n].day, entries[n].cells);
      if ValidateSpec(oracle, entries) == Ok([]) {
        assert ValidateSpec(oracle, pre).Ok? && day.Ok?;
        assert |ValidateSpec(oracle, pre).value + day.value| == 0;
      }
      if ValidateSpec(oracle, pre) == Ok([]) && day == Ok([]) {
        assert ValidateSpec(oracle, entries) == Ok([] + []);
      }
    }
  }

  /** There is at most one message per cell, and each is the message of a cell
      whose query answered a non-empty list. */
  lemma {:induction false} ValidateMessages(oracle: Oracle, entries: seq<DayEntry>)
    ensures ValidateSpec(oracle, entries).Ok? ==>
      var ms := ValidateSpec(oracle, entries).value;
      |ms| <= TotalCells(entries) &&
      forall m :: m in ms ==>
        exists e, k :: IsCell(entries, e, k) && CellCheck(oracle, entries[e].day, k, entries[e].cells[k]) == Ok(Some(m))
    decreases |entries|
  {
    if entries != [] && ValidateSpec(oracle, entries).Ok? {
      var n := |entries| - 1;
      var pre := entries[..n];
      ValidateMessages(oracle, pre);
      DayMessagesOutcome(oracle, entries[n].day, entries[n].cells);
      assert forall e :: 0 <= e < n ==> pre[e] == entries[e];
      var ms := ValidateSpec(oracle, pre).value;
      var ds := DayMessages(oracle, entries[n].day, entries[n].cells).value;
      forall m | m in ValidateSpec(oracle, entries).value
        ensures exists e, k :: IsCell(entries, e, k) && CellCheck(oracle, entries[e].day, k, entries[e].cells[k]) == Ok(Some(m))
      {
        if m in ms {
          var e, k :| IsCell(pre, e, k) && CellCheck(oracle, pre[e].day, k, pre[e].cells[k]) == Ok(Some(m));
          assert IsCell(entries, e, k);
        } else {
          assert m in ds;
          var k :| 0 <= k < |entries[n].cells| && CellCheck(oracle, entries[n].day, k, entries[n].cells[k]) == Ok(Some(m));
          assert IsCell(entries, n, k);
        }
      }
    }
  }

  /** Against the store, validation fails with an error exactly when the store
      is unreachable and some cell is queried: errors are not swallowed. */
  lemma ValidateAgainstStore(store: Store, entries: seq<DayEntry>)
    ensures ValidateSpec(StoreOracle(store), entries).Err? <==>
      store.Offline? && exists e, k :: IsCell(entries, e, k) && Queried(entries[e].cells[k])
  {
    ValidateErrors(StoreOracle(store), entries);
    if store.Offline? && exists e, k :: IsCell(entries, e, k) && Queried(entries[e].cells[k]) {
      var e, k :| IsCell(entries, e, k) && Queried(entries[e].cells[k]);
      assert CellCheck(StoreOracle(store), entries[e].day, k, entries[e].cells[k]).Err?;
    }
  }

  /** A timetable generated against a reachable store passes validation
      against the same store when the course texts decode: the generator only
      writes where the store reports no conflict. */
  lemma GeneratedTimetableIsValid(courses: seq<Course>, randomDay: nat -> DayIndex, rows: seq<StoredSlot>)
    requires forall c :: c in courses ==> Terminates(c)
    requires forall c :: c in courses ==> EncodableSubject(c.subject) && EncodableFaculty(c.faculty) && EncodableFacultyId(c.facultyId)
    ensures var oracle := StoreOracle(Online(rows));
      ValidateSpec(oracle, GridEntries(Generate(courses, randomDay, oracle).grid)) == Ok([])
  {
    var oracle := StoreOracle(Online(rows));
    var grid := Generate(courses, randomDay, oracle).grid;
    GeneratedTimetable(courses, randomDay, oracle);
    EmptyGridIsGood(courses, oracle);
    GenerateFromKeeps(EmptyGrid(), [], courses, 0, randomDay, courses, oracle);
    var entries := GridEntries(grid);
    forall e, k | IsCell(entries, e, k)
      ensures CellCheck(oracle, entries[e].day, k, entries[e].cells[k]) == Ok(None)
    {
      var cell := grid[e][k];
      if Queried(cell) {
        assert cell != "" by {
          BlankNeverMatches("");
        }
        var c :| c in courses && cell == CellOf(c) && NoConflict(oracle, DAYS[e], k, c.facultyId);
        RoundTrip(c.subject, c.faculty, c.facultyId);
      }
    }
    ValidatePasses(oracle, entries);
  }

  // ---------------------------------------------------------------------
  // Saving

  /** A `faculty` upsert record: the subject stands in for the department. */
  datatype FacultyRecord = FacultyRecord(facultyId: string, facultyName: string, department: string)

  function FacultyPayload(courses: seq<Course>): (r: seq<FacultyRecord>)
    ensures |r| == |courses|
    ensures forall k :: 0 <= k < |courses| ==>
      r[k].facultyId == courses[k].facultyId && r[k].facultyName == courses[k].faculty && r[k].department == courses[k].subject
  {
    seq(|courses|, k requires 0 <= k < |courses| => FacultyRecord(courses[k].facultyId, courses[k].faculty, courses[k].subject))
  }

  /** The writes `saveTimetable` sends, in order. */
  datatype Request =
    | UpsertFaculty(records: seq<FacultyRecord>)
    | InsertTimetable(department: string, semester: string, block: string, classroom: string)
    | InsertSlots(slots: seq<SlotRow>)

  /** What the database answers to the three writes: whether the faculty
      upsert and the slot insert fail, and the new timetable's id or the
      insert's failure. */
  datatype Replies = Replies(facultyFails: bool, insertedId: Result<string>, slotsFail: bool)

  datatype SaveOutcome = SaveOutcome(requests: seq<Request>, result: Result<string>)

  function CannotSaveMessage(conflicts: seq<string>): string {
    "Cannot save timetable due to faculty conflicts:\n" + Join(conflicts, "\n")
  }

  /** `saveTimetable`: validation first, then the faculty, the metadata and,
      when there are any, the slot rows; the first failure ends it. */
  function SaveTimetable(inputs: TimetableInputs, entries: seq<DayEntry>, oracle: Oracle, replies: Replies): SaveOutcome {
    match ValidationOf(ValidateSpec(oracle, entries))
    case Err(e) => SaveOutcome([], Err(e))
    case Ok(v) =>
      if !v.valid then SaveOutcome([], Err(CannotSaveMessage(v.conflicts)))
      else
        var faculty := [UpsertFaculty(FacultyPayload(inputs.courses))];
        if replies.facultyFails then SaveOutcome(faculty, Err("Failed to save faculty data"))
        else
          var meta := faculty + [InsertTimetable(inputs.department, inputs.semester, inputs.block, inputs.classroom)];
          match replies.insertedId
          case Err(_) => SaveOutcome(meta, Err("Failed to save timetable"))
          case Ok(id) =>
            var rows := SlotRows(id, entries);
            if |rows| == 0 then SaveOutcome(meta, Ok(id))
            else if replies.slotsFail then SaveOutcome(meta + [InsertSlots(rows)], Err("Failed to save timetable slots"))
            else SaveOutcome(meta + [InsertSlots(rows)], Ok(id))
  }

  /** A timetable that does not validate is never written: nothing is sent and
      the save fails. */
  lemma SaveNeedsValidation(inputs: TimetableInputs, entries: seq<DayEntry>, oracle: Oracle, replies: Replies)
    requires ValidateSpec(oracle, entries) != Ok([])
    ensures SaveTimetable(inputs, entries, oracle, replies).requests == []
    ensures SaveTimetable(inputs, entries, oracle, replies).result.Err?
  {
  }

  /** The writes are a prefix of faculty, metadata, slots, in that order; the
      slot insert carries the rows under the new id and is left out when there
      are none; the save succeeds with the new id exactly when validation and
      every write succeed. */
  lemma SaveOrder(inputs: TimetableInputs, entries: seq<DayEntry>, oracle: Oracle, replies: Replies)
    requires ValidateSpec(oracle, entries) == Ok([])
    ensures var out := SaveTimetable(inputs, entries, oracle, replies);
      var all := [UpsertFaculty(FacultyPayload(inputs.courses)),
                  InsertTimetable(inputs.department, inputs.semester, inputs.block, inputs.classroom)] +
                 (if replies.insertedId.Ok? && |SlotRows(replies.insertedId.value, entries)| > 0
                  then [InsertSlots(SlotRows(replies.insertedId.value, entries))] else []);
      1 <= |out.requests| <= |all| && out.requests == all[..|out.requests|] &&
      (out.result.Ok? <==>
         !replies.facultyFails && replies.insertedId.Ok? &&
         (|SlotRows(replies.insertedId.value, entries)| == 0 || !replies.slotsFail)) &&
      (out.result.Ok? ==> out.result.value == replies.insertedId.value && out.requests == all)
  {
  }

  // ---------------------------------------------------------------------
  // Availability

  datatype Availability = Availability(day: string, slot: int, subject: string, timetable: string)

  function RowsOfFaculty(rows: seq<StoredSlot>, facultyId: string): (r: seq<StoredSlot>)
    ensures forall s :: s in r <==> s in rows && s.facultyId == facultyId
    decreases |rows|
  {
    if rows == [] then []
    else
      var rest := RowsOfFaculty(rows[1..], facultyId);
      assert forall s :: s in rows <==> s == rows[0] || s in rows[1..];
      if rows[0].facultyId == facultyId then [rows[0]] + rest else rest
  }

  /** `getFacultyAvailability`: a failed query yields the empty list, and the
      stored slot numbers are reported 1-based. */
  function GetFacultyAvailability(store: Store, facultyId: string): (r: seq<Availability>)
    ensures store.Offline? ==> r == []
    ensures store.Online? ==>
      var mine := RowsOfFaculty(store.rows, facultyId);
      |r| == |mine| &&
      forall k :: 0 <= k < |r| ==> r[k] == Availability(mine[k].day, mine[k].slotNumber + 1, mine[k].subject, TimetableLabel(mine[k]))
  {
    match store
    case Offline(_) => []
    case Online(rows) =>
      var mine := RowsOfFaculty(rows, facultyId);
      seq(|mine|, k requires 0 <= k < |mine| => Availability(mine[k].day, mine[k].slotNumber + 1, mine[k].subject, TimetableLabel(mine[k])))
  }

  /** Every availability entry is a stored slot of the faculty, one slot
      number higher. */
  lemma AvailabilitySound(rows: seq<StoredSlot>, facultyId: string)
    ensures forall a :: a in GetFacultyAvailability(Online(rows), facultyId) ==>
      exists s :: s in rows && s.facultyId == facultyId && a.day == s.day && a.slot == s.slotNumber + 1 && a.subject == s.subject
  {
    var mine := RowsOfFaculty(rows, facultyId);
    var r := GetFacultyAvailability(Online(rows), facultyId);
    forall a | a in r
      ensures exists s :: s in rows && s.facultyId == facultyId && a.day == s.day && a.slot == s.slotNumber + 1 && a.subject == s.subject
    {
      var k :| 0 <= k < |r| && r[k] == a;
      assert mine[k] in mine;
    }
  }

  /** Every stored slot of the faculty has its availability entry. */
  lemma AvailabilityComplete(rows: seq<StoredSlot>, facultyId: string)
    ensures forall s :: s in rows && s.facultyId == facultyId ==>
      Availability(s.day, s.slotNumber + 1, s.subject, TimetableLabel(s)) in GetFacultyAvailability(Online(rows), facultyId)
  {
    var mine := RowsOfFaculty(rows, facultyId);
    var r := GetFacultyAvailability(Online(rows), facultyId);
    forall s | s in rows && s.facultyId == facultyId
      ensures Availability(s.day, s.slotNumber + 1, s.subject, TimetableLabel(s)) in r
    {
      var k :| 0 <= k < |mine| && mine[k] == s;
      assert r[k] == Availability(s.day, s.slotNumber + 1, s.subject, TimetableLabel(s));
    }
  }
}
