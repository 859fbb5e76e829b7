/** The record edits of src/components/CourseTable.tsx: changing one field of
    a course row, switching its consecutive flag, and reading a number typed
    into a numeric input with `parseInt(value) || 1`. */
module CourseTable {
  import opened Wrappers
  import opened Text
  import opened Types
  import Generator
  import Placement

  // ---------------------------------------------------------------------
  // Numeric inputs

  /** The string from its first non-whitespace character on. */
  function TrimStart(s: string): (r: string)
    ensures |r| <= |s| && r == s[|s| - |r|..]
    decreases |s|
  {
    if s != [] && IsWhitespace(s[0]) then TrimStart(s[1..]) else s
  }

  /** What `TrimStart` drops is whitespace, and what it keeps does not start
      with whitespace. */
  lemma {:induction false} TrimStartSpec(s: string)
    ensures TrimStart(s) != [] ==> !IsWhitespace(TrimStart(s)[0])
    ensures forall k :: 0 <= k < |s| - |TrimStart(s)| ==> IsWhitespace(s[k])
    decreases |s|
  {
    if s != [] && IsWhitespace(s[0]) {
      TrimStartSpec(s[1..]);
      assert forall k :: 1 <= k < |s| ==> s[k] == s[1..][k - 1];
    }
  }

  /** The value of the longest run of leading digits; `None` for no digit. */
  function ParseDigits(b: string): Option<int> {
    var digits := LeadingDigits(b);
    if digits == [] then None else Some(DigitsValue(digits) as int)
  }

  /** An optional sign, then digits. */
  function ParseSigned(t: string): Option<int> {
    if t != [] && t[0] == '-' then
      match ParseDigits(t[1..])
      case None => None
      case Some(v) => Some(-v)
    else if t != [] && t[0] == '+' then ParseDigits(t[1..])
    else ParseDigits(t)
  }

  /** `parseInt(s)` with radix 10: leading whitespace is skipped, one sign is
      read, then the longest run of decimal digits; no digit gives `NaN`
      (`None`). */
  function ParseInt(s: string): Option<int> {
    ParseSigned(TrimStart(s))
  }

  /** `parseInt(s) || 1`: `NaN`, `0` and `-0` are falsy and become 1; every
      other value, negative ones included, is kept. */
  function ParseIntOrOne(s: string): (r: int)
    ensures r != 0
    ensures ParseInt(s).None? ==> r == 1
    ensures ParseInt(s) == Some(0) ==> r == 1
    ensures ParseInt(s).Some? && ParseInt(s).value != 0 ==> r == ParseInt(s).value
  {
    match ParseInt(s)
    case None => 1
    case Some(n) => if n == 0 then 1 else n
  }

  lemma DigitIsNotWhitespace(c: char)
    requires IsDigit(c)
    ensures !IsWhitespace(c) && c != '-' && c != '+'
  {
  }

  lemma LeadingDigitsOfNumeral(s: string)
    requires AllDigits(s)
    ensures LeadingDigits(s) == s
  {
  }

  lemma TrimStartKeeps(s: string)
    requires s != [] && !IsWhitespace(s[0])
    ensures TrimStart(s) == s
    ensures ParseInt(s) == ParseSigned(s)
  {
  }

  /** Text that starts with a digit is read without a sign. */
  lemma UnsignedNumeral(s: string)
    requires s != [] && IsDigit(s[0])
    ensures ParseInt(s) == ParseDigits(s)
  {
    DigitIsNotWhitespace(s[0]);
    TrimStartKeeps(s);
  }

  lemma ParseDigitsOfNumeral(d: string)
    requires |d| >= 1 && AllDigits(d)
    ensures ParseDigits(d) == Some(DigitsValue(d) as int)
  {
    LeadingDigitsOfNumeral(d);
  }

  lemma ParseDigitsOfNatToString(n: nat)
    ensures ParseDigits(NatToString(n)) == Some(n)
  {
    DigitsValueOfNatToString(n);
    ParseDigitsOfNumeral(NatToString(n));
  }

  /** A digit string reads back as its value. */
  lemma ParseIntOfDigits(d: string)
    requires |d| >= 1 && AllDigits(d)
    ensures ParseInt(d) == Some(DigitsValue(d) as int)
  {
    ParseDigitsOfNumeral(d);
    UnsignedNumeral(d);
  }

  /** A minus sign followed by text whose digits read as `k` reads as `-k`. */
  lemma ParseIntOfNegated(m: string, d: string, k: nat)
    requires m == "-" + d
    requires ParseDigits(d) == Some(k)
    ensures ParseInt(m) == Some(-(k as int))
  {
    assert m[0] == '-' && m[1..] == d;
    TrimStartKeeps(m);
  }

  /** Reading back the numeral of an integer gives the integer. */
  lemma ParseIntOfNumeral(n: int)
    ensures ParseInt(IntToString(n)) == Some(n)
  {
    if n < 0 {
      ParseDigitsOfNatToString(-n);
      ParseIntOfNegated(IntToString(n), NatToString(-n), -n);
    } else {
      ParseDigitsOfNatToString(n);
      UnsignedNumeral(NatToString(n));
    }
  }

  /** Any non-zero integer typed in is kept as it is, negative ones
      included. */
  lemma NonZeroInputIsKept(n: int)
    requires n != 0
    ensures ParseIntOrOne(IntToString(n)) == n
  {
    ParseIntOfNumeral(n);
  }

  /** `0` gives 1. */
  lemma ZeroGivesOne()
    ensures ParseIntOrOne("0") == 1
  {
    ParseIntOfDigits("0");
  }

  /** `-0` is falsy too. */
  lemma MinusZeroGivesOne()
    ensures ParseIntOrOne("-0") == 1
  {
    ParseDigitsOfNumeral("0");
    ParseIntOfNegated("-0", "0", 0);
  }

  /** Text whose first non-whitespace character is neither a sign nor a
      digit is `NaN`. */
  lemma NoDigitsIsNaN(s: string)
    requires s == [] || (!IsWhitespace(s[0]) && !IsDigit(s[0]) && s[0] != '-' && s[0] != '+')
    ensures ParseInt(s) == None
  {
  }

  /** The empty input gives 1. */
  lemma EmptyInputGivesOne()
    ensures ParseIntOrOne("") == 1
  {
    NoDigitsIsNaN("");
  }

  /** Text without any digit is `NaN` and gives 1. */
  lemma NoDigitsGiveOne(s: string)
    requires forall k :: 0 <= k < |s| ==> !IsDigit(s[k])
    ensures ParseInt(s) == None
    ensures ParseIntOrOne(s) == 1
  {
    var t := TrimStart(s);
    assert forall k :: 0 <= k < |t| ==> t[k] == s[|s| - |t| + k];
    if t != [] && (t[0] == '-' || t[0] == '+') {
      assert |t| > 1 ==> t[1..][0] == t[1];
      assert LeadingDigits(t[1..]) == [];
    } else {
      assert LeadingDigits(t) == [];
    }
  }

  /** Leading whitespace is skipped. */
  lemma SkipsLeadingWhitespace(c: char, s: string)
    requires IsWhitespace(c)
    ensures ParseInt([c] + s) == ParseInt(s)
  {
    assert ([c] + s)[1..] == s;
  }

  /** The digits end at the first non-digit. */
  lemma StopsAtNonDigit(d: string, rest: string)
    requires |d| >= 1 && AllDigits(d)
    requires rest == [] || !IsDigit(rest[0])
    ensures ParseInt(d + rest) == Some(DigitsValue(d) as int)
  {
    LeadingDigitsOfConcat(d, rest);
    UnsignedNumeral(d + rest);
  }

  lemma {:induction false} LeadingDigitsOfConcat(d: string, rest: string)
    requires AllDigits(d)
    requires rest == [] || !IsDigit(rest[0])
    ensures LeadingDigits(d + rest) == d
    decreases |d|
  {
    if d == [] {
      assert d + rest == rest;
    } else {
      assert (d + rest)[1..] == d[1..] + rest;
      LeadingDigitsOfConcat(d[1..], rest);
    }
  }

  lemma PrefixIsRead()
    ensures ParseInt(" 12abc") == Some(12)
  {
    var d, rest := "12", "abc";
    assert DigitsValue(d) == 12 by {
      assert d[..1] == "1" && "1"[..0] == [];
    }
    assert " 12abc" == [' '] + (d + rest);
    SkipsLeadingWhitespace(' ', d + rest);
    StopsAtNonDigit(d, rest);
  }

  // ---------------------------------------------------------------------
  // Editing a row

  /** The field being edited and the value the input produced: the text
      fields take the raw string, the numeric ones `parseInt(..) || 1`. */
  datatype Edit =
    | CourseCode(text: string)
    | SubjectName(text: string)
    | FacultyName(text: string)
    | FacultyId(text: string)
    | SlotsPerWeek(input: string)
    | BlockSize(input: string)

  /** `{ ...courses[index], [field]: value }` */
  function ChangeField(c: Course, e: Edit): Course {
    match e
    case CourseCode(t) => c.(courseCode := t)
    case SubjectName(t) => c.(subject := t)
    case FacultyName(t) => c.(faculty := t)
    case FacultyId(t) => c.(facultyId := t)
    case SlotsPerWeek(t) => c.(slots := ParseIntOrOne(t))
    case BlockSize(t) => c.(consecutiveSlots := ParseIntOrOne(t))
  }

  /** `handleCourseChange(index, field, value)`, passed on to `updateCourse`:
      the form afterwards. */
  function HandleCourseChange(inputs: TimetableInputs, index: int, e: Edit): (r: TimetableInputs)
    requires 0 <= index < |inputs.courses|
    ensures |r.courses| == |inputs.courses|
    ensures forall i :: 0 <= i < |r.courses| && i != index ==> r.courses[i] == inputs.courses[i]
    ensures r.(courses := inputs.courses) == inputs
  {
    Generator.UpdateCourse(inputs, index, ChangeField(inputs.courses[index], e))
  }

  /** The edited row differs from the old one in the named field only, and
      the numeric fields never become 0. */
  lemma ChangeFieldChangesOneField(inputs: TimetableInputs, index: int, e: Edit)
    requires 0 <= index < |inputs.courses|
    ensures var c, d := inputs.courses[index], HandleCourseChange(inputs, index, e).courses[index];
      && d.courseCode == (if e.CourseCode? then e.text else c.courseCode)
      && d.subject == (if e.SubjectName? then e.text else c.subject)
      && d.faculty == (if e.FacultyName? then e.text else c.faculty)
      && d.facultyId == (if e.FacultyId? then e.text else c.facultyId)
      && d.slots == (if e.SlotsPerWeek? then ParseIntOrOne(e.input) else c.slots)
      && d.consecutive == c.consecutive
      && d.consecutiveSlots == (if e.BlockSize? then ParseIntOrOne(e.input) else c.consecutiveSlots)
    ensures e.SlotsPerWeek? ==> HandleCourseChange(inputs, index, e).courses[index].slots != 0
    ensures e.BlockSize? ==> HandleCourseChange(inputs, index, e).courses[index].consecutiveSlots != 0
  {
  }

  /** `handleConsecutiveChange(index, value)` on the row itself. */
  function ChangeConsecutive(c: Course, value: Consecutive): Course {
    c.(consecutive := value, consecutiveSlots := if value == Yes then c.consecutiveSlots else 1)
  }

  /** `handleConsecutiveChange(index, value)`, passed on to `updateCourse`. */
  function HandleConsecutiveChange(inputs: TimetableInputs, index: int, value: Consecutive): (r: TimetableInputs)
    requires 0 <= index < |inputs.courses|
    ensures |r.courses| == |inputs.courses|
    ensures forall i :: 0 <= i < |r.courses| && i != index ==> r.courses[i] == inputs.courses[i]
    ensures r.(courses := inputs.courses) == inputs
  {
    Generator.UpdateCourse(inputs, index, ChangeConsecutive(inputs.courses[index], value))
  }

  /** 'no' forces the block size to 1, 'yes' keeps it, and nothing else of
      the row changes; after 'no' the course is placed one cell at a time. */
  lemma ConsecutiveChangeSpec(inputs: TimetableInputs, index: int, value: Consecutive)
    requires 0 <= index < |inputs.courses|
    ensures var c, d := inputs.courses[index], HandleConsecutiveChange(inputs, index, value).courses[index];
      && d.consecutive == value
      && d.consecutiveSlots == (if value == Yes then c.consecutiveSlots else 1)
      && d.(consecutive := c.consecutive, consecutiveSlots := c.consecutiveSlots) == c
    ensures value == No ==>
      Placement.ConsecCount(HandleConsecutiveChange(inputs, index, value).courses[index]) == 1 &&
      Placement.Terminates(HandleConsecutiveChange(inputs, index, value).courses[index])
  {
  }

  /** A negative block size typed into a 'yes' row is kept, and the row
      then falls outside the courses the generator's loop finishes on. */
  lemma NegativeBlockSizeIsKept(inputs: TimetableInputs, index: int)
    requires 0 <= index < |inputs.courses|
    requires inputs.courses[index].consecutive == Yes && inputs.courses[index].slots > 0
    ensures var d := HandleCourseChange(inputs, index, BlockSize("-2")).courses[index];
      d.consecutiveSlots == -2 && !Placement.Terminates(d)
  {
    MinusTwoIsKept();
    NegativeInputIsKept(inputs, index, "-2");
  }

  lemma NegativeInputIsKept(inputs: TimetableInputs, index: int, t: string)
    requires 0 <= index < |inputs.courses|
    requires inputs.courses[index].consecutive == Yes && inputs.courses[index].slots > 0
    requires ParseIntOrOne(t) < 0
    ensures var d := HandleCourseChange(inputs, index, BlockSize(t)).courses[index];
      d.consecutiveSlots == ParseIntOrOne(t) && !Placement.Terminates(d)
  {
    ChangeFieldChangesOneField(inputs, index, BlockSize(t));
  }

  lemma MinusTwoIsKept()
    ensures ParseIntOrOne("-2") == -2
  {
    assert DigitsValue("2") == 2 by {
      assert "2"[..0] == [];
    }
    ParseDigitsOfNumeral("2");
    ParseIntOfNegated("-2", "2", 2);
  }
}
