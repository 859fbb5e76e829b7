/** The form logic of src/components/TimetableGenerator.tsx: the faculty-load
    check, the validation that decides whether a timetable is generated, and
    the edits of the course list and of the form fields. */
module Generator {
  import opened Text
  import opened Types

  // ---------------------------------------------------------------------
  // The faculty-load check

  /** A course counts toward its faculty's load: `facultyId && slots > 0`. */
  predicate Counted(c: Course) {
    c.facultyId != "" && c.slots > 0
  }

  /** The total `slots` of the counted courses of faculty `id`. */
  function Load(courses: seq<Course>, id: string): int
    decreases |courses|
  {
    if courses == [] then 0
    else
      var c := courses[|courses| - 1];
      Load(courses[..|courses| - 1], id) + (if Counted(c) && c.facultyId == id then c.slots else 0)
  }

  /** The keys of `facultySlots` in the order they were first set, which is
      the order `Object.entries` lists them in. */
  function LoadKeys(courses: seq<Course>): seq<string>
    decreases |courses|
  {
    if courses == [] then []
    else
      var c := courses[|courses| - 1];
      var keys := LoadKeys(courses[..|courses| - 1]);
      if Counted(c) && c.facultyId !in keys then keys + [c.facultyId] else keys
  }

  function LoadWarning(id: string, total: int): string {
    "Faculty " + id + " has " + IntToString(total) + " slots (max 10 allowed)"
  }

  /** The keys, among `keys`, whose load is above 10, in order. */
  function Offending(courses: seq<Course>, keys: seq<string>): seq<string>
    decreases |keys|
  {
    if keys == [] then []
    else
      var id := keys[|keys| - 1];
      Offending(courses, keys[..|keys| - 1]) + (if Load(courses, id) > 10 then [id] else [])
  }

  /** The warning of each id in `ids`, in order. */
  function Warnings(courses: seq<Course>, ids: seq<string>): seq<string>
    decreases |ids|
  {
    if ids == [] then []
    else Warnings(courses, ids[..|ids| - 1]) + [LoadWarning(ids[|ids| - 1], Load(courses, ids[|ids| - 1]))]
  }

  function OffendingIds(courses: seq<Course>): seq<string> {
    Offending(courses, LoadKeys(courses))
  }

  function LoadWarnings(courses: seq<Course>): seq<string> {
    Warnings(courses, OffendingIds(courses))
  }

  /** The first loop: the total slots per faculty id, with the ids in the
      order they were first added. */
  method TallyLoads(courses: seq<Course>) returns (facultySlots: map<string, int>, keys: seq<string>)
    ensures keys == LoadKeys(courses)
    ensures forall id :: id in facultySlots <==> id in keys
    ensures forall id :: id in facultySlots ==> facultySlots[id] == Load(courses, id)
  {
    facultySlots := map[];
    keys := [];
    for i := 0 to |courses|
      invariant keys == LoadKeys(courses[..i])
      invariant forall id :: id in facultySlots <==> id in keys
      invariant forall id :: id in facultySlots ==> facultySlots[id] == Load(courses[..i], id)
    {
      ghost var slots0, keys0 := facultySlots, keys;
      var course := courses[i];
      var facultyId, slots := course.facultyId, course.slots;
      if facultyId != "" && slots > 0 {
        var previous := if facultyId in facultySlots then facultySlots[facultyId] else 0;
        if facultyId !in facultySlots {
          keys := keys + [facultyId];
        }
        facultySlots := facultySlots[facultyId := previous + slots];
      }
      TallyStep(courses, i, slots0, keys0, facultySlots, keys);
    }
    assert courses[..|courses|] == courses;
  }

  /** One turn of the tally loop keeps its three invariants. */
  lemma TallyStep(courses: seq<Course>, i: int, slots0: map<string, int>, keys0: seq<string>,
                  slots1: map<string, int>, keys1: seq<string>)
    requires 0 <= i < |courses|
    requires keys0 == LoadKeys(courses[..i])
    requires forall id :: id in slots0 <==> id in keys0
    requires forall id :: id in slots0 ==> slots0[id] == Load(courses[..i], id)
    requires var c := courses[i];
      slots1 == (if Counted(c) then slots0[c.facultyId := (if c.facultyId in slots0 then slots0[c.facultyId] else 0) + c.slots] else slots0) &&
      keys1 == (if Counted(c) && c.facultyId !in slots0 then keys0 + [c.facultyId] else keys0)
    ensures keys1 == LoadKeys(courses[..i + 1])
    ensures forall id :: id in slots1 <==> id in keys1
    ensures forall id :: id in slots1 ==> slots1[id] == Load(courses[..i + 1], id)
  {
    LoadStep(courses, i);
    var c := courses[i];
    if Counted(c) && c.facultyId !in slots0 {
      LoadWithoutKey(courses[..i], c.facultyId);
    }
  }

  /** `checkFacultyConflicts`: sums the load of each faculty id into a
      dictionary, then lists a warning for each id whose load is above 10. */
  method CheckFacultyConflicts(courses: seq<Course>) returns (newConflicts: seq<string>)
    ensures newConflicts == LoadWarnings(courses)
  {
    var facultySlots, keys := TallyLoads(courses);
    newConflicts := [];
    ghost var offending: seq<string> := [];
    for k := 0 to |keys|
      invariant offending == Offending(courses, keys[..k])
      invariant newConflicts == Warnings(courses, offending)
    {
      assert keys[..k + 1][..k] == keys[..k];
      var totalSlots := facultySlots[keys[k]];
      if totalSlots > 10 {
        newConflicts := newConflicts + [LoadWarning(keys[k], totalSlots)];
        assert (offending + [keys[k]])[..|offending|] == offending;
        offending := offending + [keys[k]];
      }
    }
    assert keys[..|keys|] == keys;
  }

  /** Taking one more course adds its slots to its own faculty's load only,
      and adds its id to the keys when it counts and is new. */
  lemma LoadStep(courses: seq<Course>, i: int)
    requires 0 <= i < |courses|
    ensures var c := courses[i];
      LoadKeys(courses[..i + 1]) == (if Counted(c) && c.facultyId !in LoadKeys(courses[..i]) then LoadKeys(courses[..i]) + [c.facultyId] else LoadKeys(courses[..i]))
    ensures forall id {:trigger Load(courses[..i + 1], id)} ::
      Load(courses[..i + 1], id) == Load(courses[..i], id) + (if Counted(courses[i]) && courses[i].facultyId == id then courses[i].slots else 0)
  {
    assert courses[..i + 1][..i] == courses[..i];
  }

  /** An id that is not a key has load 0. */
  lemma {:induction false} LoadWithoutKey(courses: seq<Course>, id: string)
    requires id !in LoadKeys(courses)
    ensures Load(courses, id) == 0
    decreases |courses|
  {
    if courses != [] {
      LoadWithoutKey(courses[..|courses| - 1], id);
    }
  }

  /** The load is a sum over the whole list, incomplete courses included. */
  lemma {:induction false} LoadOfConcat(a: seq<Course>, b: seq<Course>, id: string)
    ensures Load(a + b, id) == Load(a, id) + Load(b, id)
    decreases |b|
  {
    if b != [] {
      assert (a + b)[..|a + b| - 1] == a + b[..|b| - 1];
      LoadOfConcat(a, b[..|b| - 1], id);
    } else {
      assert a + b == a;
    }
  }

  /** The keys are exactly the non-empty ids of the courses with positive
      `slots`, each once. */
  lemma {:induction false} LoadKeysAreTheCountedIds(courses: seq<Course>)
    ensures forall id :: id in LoadKeys(courses) <==> exists c :: c in courses && Counted(c) && c.facultyId == id
    ensures forall i, j :: 0 <= i < j < |LoadKeys(courses)| ==> LoadKeys(courses)[i] != LoadKeys(courses)[j]
    decreases |courses|
  {
    if courses != [] {
      var pre := courses[..|courses| - 1];
      LoadKeysAreTheCountedIds(pre);
      assert forall c :: c in courses <==> c in pre || c == courses[|courses| - 1];
    }
  }

  /** A key's load is positive. */
  lemma {:induction false} KeysHavePositiveLoad(courses: seq<Course>, id: string)
    requires id in LoadKeys(courses)
    ensures Load(courses, id) > 0
    decreases |courses|
  {
    var pre := courses[..|courses| - 1];
    LoadNonNegative(pre, id);
    if id in LoadKeys(pre) {
      KeysHavePositiveLoad(pre, id);
    }
  }

  lemma {:induction false} LoadNonNegative(courses: seq<Course>, id: string)
    ensures Load(courses, id) >= 0
    decreases |courses|
  {
    if courses != [] {
      LoadNonNegative(courses[..|courses| - 1], id);
    }
  }

  lemma {:induction false} OffendingIsFilter(courses: seq<Course>, keys: seq<string>)
    ensures forall id :: id in Offending(courses, keys) <==> id in keys && Load(courses, id) > 10
    ensures (forall i, j :: 0 <= i < j < |keys| ==> keys[i] != keys[j]) ==>
      forall i, j :: 0 <= i < j < |Offending(courses, keys)| ==> Offending(courses, keys)[i] != Offending(courses, keys)[j]
    decreases |keys|
  {
    if keys != [] {
      var pre := keys[..|keys| - 1];
      OffendingIsFilter(courses, pre);
      assert forall id :: id in keys <==> id in pre || id == keys[|keys| - 1];
    }
  }

  lemma {:induction false} WarningsAreOnePerId(courses: seq<Course>, ids: seq<string>)
    ensures |Warnings(courses, ids)| == |ids|
    ensures forall k :: 0 <= k < |ids| ==> Warnings(courses, ids)[k] == LoadWarning(ids[k], Load(courses, ids[k]))
    decreases |ids|
  {
    if ids != [] {
      WarningsAreOnePerId(courses, ids[..|ids| - 1]);
    }
  }

  /** A faculty id is warned about exactly when its load is strictly above
      10; there is one warning per such id, each id once, with its total. */
  lemma LoadWarningsSpec(courses: seq<Course>)
    ensures forall id :: id in OffendingIds(courses) <==> id != "" && Load(courses, id) > 10
    ensures forall i, j :: 0 <= i < j < |OffendingIds(courses)| ==> OffendingIds(courses)[i] != OffendingIds(courses)[j]
    ensures |LoadWarnings(courses)| == |OffendingIds(courses)|
    ensures forall k :: 0 <= k < |OffendingIds(courses)| ==>
      LoadWarnings(courses)[k] == LoadWarning(OffendingIds(courses)[k], Load(courses, OffendingIds(courses)[k]))
  {
    var keys := LoadKeys(courses);
    LoadKeysAreTheCountedIds(courses);
    OffendingIsFilter(courses, keys);
    WarningsAreOnePerId(courses, OffendingIds(courses));
    forall id | id != "" && Load(courses, id) > 10
      ensures id in keys
    {
      if id !in keys {
        LoadWithoutKey(courses, id);
      }
    }
    forall id | id in keys
      ensures id != ""
    {
      var c :| c in courses && Counted(c) && c.facultyId == id;
    }
  }

  /** Two courses of one faculty with 6 and 5 slots give a load of 11, which
      is warned about; 4 and 5, or exactly 10, are not. */
  lemma ThresholdExamples()
    ensures "F1" in OffendingIds([Course("C1", "S1", "A", "F1", 6, No, 1), Course("C2", "S2", "A", "F1", 5, No, 1)])
    ensures "F1" !in OffendingIds([Course("C1", "S1", "A", "F1", 4, No, 1), Course("C2", "S2", "A", "F1", 5, No, 1)])
    ensures "F1" !in OffendingIds([Course("C1", "S1", "A", "F1", 10, No, 1)])
  {
    var a := Course("C1", "S1", "A", "F1", 6, No, 1);
    var b := Course("C2", "S2", "A", "F1", 5, No, 1);
    var c := Course("C1", "S1", "A", "F1", 4, No, 1);
    var d := Course("C1", "S1", "A", "F1", 10, No, 1);
    assert [a, b][..1] == [a] && [a][..0] == [];
    assert [c, b][..1] == [c] && [c][..0] == [];
    assert [d][..0] == [];
    assert LoadKeys([a]) == ["F1"] && Load([a], "F1") == 6;
    assert LoadKeys([c]) == ["F1"] && Load([c], "F1") == 4;
    assert LoadKeys([a, b]) == ["F1"] && Load([a, b], "F1") == 11;
    assert ["F1"][..0] == [];
    assert OffendingIds([a, b]) == ["F1"];
    assert LoadKeys([c, b]) == ["F1"] && Load([c, b], "F1") == 9;
    assert OffendingIds([c, b]) == [];
    assert LoadKeys([d]) == ["F1"] && Load([d], "F1") == 10;
    assert OffendingIds([d]) == [];
  }

  // ---------------------------------------------------------------------
  // handleGenerate

  /** A course the generator takes: all four strings non-empty and
      `slots > 0`. */
  predicate Complete(c: Course) {
    c.courseCode != "" && c.subject != "" && c.faculty != "" && c.facultyId != "" && c.slots > 0
  }

  /** `inputs.courses.filter(...)`, keeping the order. */
  function ValidCourses(courses: seq<Course>): (r: seq<Course>)
    ensures |r| <= |courses|
    ensures forall c :: c in r <==> c in courses && Complete(c)
    decreases |courses|
  {
    if courses == [] then []
    else
      var rest := ValidCourses(courses[1..]);
      assert forall c :: c in courses <==> c == courses[0] || c in courses[1..];
      if Complete(courses[0]) then [courses[0]] + rest else rest
  }

  /** The filter keeps the relative order: it distributes over concatenation. */
  lemma {:induction false} ValidCoursesOfConcat(a: seq<Course>, b: seq<Course>)
    ensures ValidCourses(a + b) == ValidCourses(a) + ValidCourses(b)
    decreases |a|
  {
    if a != [] {
      assert (a + b)[1..] == a[1..] + b;
      ValidCoursesOfConcat(a[1..], b);
    } else {
      assert a + b == b;
    }
  }

  datatype GenerateOutcome =
    | MissingInformation
    | NoValidCourses
    | Cancelled
    | Generated(finalInputs: TimetableInputs)

  /** `handleGenerate` with the current load warnings and the answer the
      user would give to the confirmation. */
  function HandleGenerate(inputs: TimetableInputs, conflicts: seq<string>, confirmed: bool): GenerateOutcome {
    if inputs.department == "" || inputs.semester == "" || inputs.block == "" || inputs.classroom == "" then MissingInformation
    else
      var validCourses := ValidCourses(inputs.courses);
      if |validCourses| == 0 then NoValidCourses
      else if |conflicts| > 0 && !confirmed then Cancelled
      else Generated(inputs.(courses := validCourses))
  }

  /** Generation happens exactly when the four fields are filled, some course
      is complete, and either there are no warnings or the user confirms; it
      is given the form with the complete courses only. */
  lemma HandleGenerateSpec(inputs: TimetableInputs, conflicts: seq<string>, confirmed: bool)
    ensures HandleGenerate(inputs, conflicts, confirmed) == MissingInformation <==>
      inputs.department == "" || inputs.semester == "" || inputs.block == "" || inputs.classroom == ""
    ensures HandleGenerate(inputs, conflicts, confirmed).Generated? <==>
      inputs.department != "" && inputs.semester != "" && inputs.block != "" && inputs.classroom != "" &&
      (exists c :: c in inputs.courses && Complete(c)) && (conflicts == [] || confirmed)
    ensures HandleGenerate(inputs, conflicts, confirmed).Generated? ==>
      var f := HandleGenerate(inputs, conflicts, confirmed).finalInputs;
      f.department == inputs.department && f.semester == inputs.semester && f.block == inputs.block &&
      f.classroom == inputs.classroom && f.courses == ValidCourses(inputs.courses)
    ensures HandleGenerate(inputs, conflicts, confirmed) == Cancelled ==> conflicts != [] && !confirmed
  {
    var v := ValidCourses(inputs.courses);
    if |v| > 0 {
      assert v[0] in v;
    }
    if exists c :: c in inputs.courses && Complete(c) {
      var c :| c in inputs.courses && Complete(c);
      assert c in v;
    }
  }

  /** With the warnings the page computes from the same courses, the user is
      asked (and can cancel) exactly when the form is otherwise ready and
      some faculty id's load is above 10. The load counts every course with
      a faculty id and positive `slots`, including the incomplete ones that
      are then left out of the generated timetable. */
  lemma GenerateAsksOnOverload(inputs: TimetableInputs, confirmed: bool)
    ensures HandleGenerate(inputs, LoadWarnings(inputs.courses), confirmed) == Cancelled <==>
      inputs.department != "" && inputs.semester != "" && inputs.block != "" && inputs.classroom != "" &&
      (exists c :: c in inputs.courses && Complete(c)) &&
      (exists id :: id != "" && Load(inputs.courses, id) > 10) && !confirmed
  {
    WarnedIffOverloaded(inputs.courses);
    SomeValidCourse(inputs.courses);
  }

  /** There is a warning exactly when some faculty id's load is above 10. */
  lemma WarnedIffOverloaded(courses: seq<Course>)
    ensures |LoadWarnings(courses)| > 0 <==> exists id :: id != "" && Load(courses, id) > 10
  {
    var off := OffendingIds(courses);
    LoadWarningsSpec(courses);
    if exists id :: id != "" && Load(courses, id) > 10 {
      var id :| id != "" && Load(courses, id) > 10;
      assert id in off;
    }
    if |off| > 0 {
      assert off[0] in off;
      assert off[0] != "" && Load(courses, off[0]) > 10;
    }
  }

  lemma SomeValidCourse(courses: seq<Course>)
    ensures |ValidCourses(courses)| > 0 <==> exists c :: c in courses && Complete(c)
  {
    var v := ValidCourses(courses);
    if |v| > 0 {
      assert v[0] in v;
    }
    if exists c :: c in courses && Complete(c) {
      var c :| c in courses && Complete(c);
      assert c in v;
    }
  }

  // ---------------------------------------------------------------------
  // Editing the course list and the fields

  /** `addCourse`'s blank course. */
  const DEFAULT_COURSE: Course := Course("", "", "", "", 1, No, 1)

  function AddCourse(inputs: TimetableInputs): (r: TimetableInputs)
    ensures r.courses == inputs.courses + [DEFAULT_COURSE]
    ensures r.(courses := inputs.courses) == inputs
  {
    inputs.(courses := inputs.courses + [DEFAULT_COURSE])
  }

  /** `courses.map((c, i) => i === index ? course : c)`: any index, in range
      or not. */
  function UpdateCourse(inputs: TimetableInputs, index: int, course: Course): (r: TimetableInputs)
    ensures |r.courses| == |inputs.courses|
    ensures forall i :: 0 <= i < |r.courses| ==> r.courses[i] == (if i == index then course else inputs.courses[i])
    ensures r.(courses := inputs.courses) == inputs
  {
    inputs.(courses := seq(|inputs.courses|, i requires 0 <= i < |inputs.courses| => if i == index then course else inputs.courses[i]))
  }

  /** `courses.filter((_, i) => i !== index)` */
  function RemoveCourse(inputs: TimetableInputs, index: int): (r: TimetableInputs)
    ensures 0 <= index < |inputs.courses| ==> r.courses == inputs.courses[..index] + inputs.courses[index + 1..]
    ensures !(0 <= index < |inputs.courses|) ==> r.courses == inputs.courses
    ensures r.(courses := inputs.courses) == inputs
  {
    if 0 <= index < |inputs.courses| then inputs.(courses := inputs.courses[..index] + inputs.courses[index + 1..])
    else inputs
  }

  /** Removing the course just added gives the form back. */
  lemma RemoveUndoesAdd(inputs: TimetableInputs)
    ensures RemoveCourse(AddCourse(inputs), |inputs.courses|) == inputs
  {
    var a := AddCourse(inputs);
    assert a.courses[..|inputs.courses|] + a.courses[|inputs.courses| + 1..] == inputs.courses;
  }

  /** Updating a course to itself changes nothing, and updating twice keeps
      the last value. */
  lemma UpdateCourseLaws(inputs: TimetableInputs, index: int, c1: Course, c2: Course)
    ensures 0 <= index < |inputs.courses| ==> UpdateCourse(inputs, index, inputs.courses[index]) == inputs
    ensures UpdateCourse(UpdateCourse(inputs, index, c1), index, c2) == UpdateCourse(inputs, index, c2)
  {
    if 0 <= index < |inputs.courses| {
      assert UpdateCourse(inputs, index, inputs.courses[index]).courses == inputs.courses;
    }
    assert UpdateCourse(UpdateCourse(inputs, index, c1), index, c2).courses == UpdateCourse(inputs, index, c2).courses;
  }

  /** Removing keeps every other course, in order: each course after the
      removed index moves down by one. */
  lemma RemoveCourseShifts(inputs: TimetableInputs, index: int)
    requires 0 <= index < |inputs.courses|
    ensures var r := RemoveCourse(inputs, index).courses;
      |r| == |inputs.courses| - 1 &&
      (forall i :: 0 <= i < index ==> r[i] == inputs.courses[i]) &&
      (forall i :: index < i < |inputs.courses| ==> r[i - 1] == inputs.courses[i])
  {
  }

  datatype Field = Department | Semester | Block | Classroom

  /** `updateInputs(field, value)`: sets one of the four fields. */
  function UpdateInputs(inputs: TimetableInputs, field: Field, value: string): (r: TimetableInputs)
    ensures r.courses == inputs.courses
    ensures r.department == (if field == Department then value else inputs.department)
    ensures r.semester == (if field == Semester then value else inputs.semester)
    ensures r.block == (if field == Block then value else inputs.block)
    ensures r.classroom == (if field == Classroom then value else inputs.classroom)
  {
    match field
    case Department => inputs.(department := value)
    case Semester => inputs.(semester := value)
    case Block => inputs.(block := value)
    case Classroom => inputs.(classroom := value)
  }
}
