/** The records of src/types/timetable.ts. */
module Types {

  /** The `'yes' | 'no'` flag of a course. */
  datatype Consecutive = Yes | No

  /** A course row of the form: `slots` is the weekly slot count and
      `consecutiveSlots` the block size used when `consecutive` is `Yes`.
      Both are whatever numbers the form produced, so they may be negative. */
  datatype Course = Course(
    courseCode: string,
    subject: string,
    faculty: string,
    facultyId: string,
    slots: int,
    consecutive: Consecutive,
    consecutiveSlots: int)

  datatype TimetableInputs = TimetableInputs(
    department: string,
    semester: string,
    block: string,
    classroom: string,
    courses: seq<Course>)

  /** A stored slot of another timetable that the same faculty id occupies;
      `slot` is 1-based. */
  datatype FacultyConflict = FacultyConflict(
    timetable: string,
    department: string,
    semester: string,
    day: string,
    slot: int)
}
