/** The record shapes kept by the college dashboard's in-memory store
    (students, faculty, subjects, timetable entries, attendance events),
    the "record without its id" shapes that the add operations take, and
    the partial records that the update operations merge into a row. */
module Records {

  datatype Option<+T> = None | Some(value: T)

  /** Attendance status of one student in one class. */
  datatype Status = Present | Absent

  /** The six teaching days of a timetable entry. */
  datatype Day = Monday | Tuesday | Wednesday | Thursday | Friday | Saturday

  /** The string a timetable row stores for its day. */
  function DayName(d: Day): (name: string)
    ensures |name| >= 6 && name[|name| - 3..] == "day"
  {
    match d
    case Monday => "Monday"
    case Tuesday => "Tuesday"
    case Wednesday => "Wednesday"
    case Thursday => "Thursday"
    case Friday => "Friday"
    case Saturday => "Saturday"
  }

  /** Distinct days have distinct names, so filtering by name is filtering by day. */
  lemma DayNameInjective(d: Day, e: Day)
    ensures DayName(d) == DayName(e) <==> d == e
  {
    if d != e {
      match d
      case Monday => assert DayName(d)[0] == 'M' && DayName(e)[0] != 'M';
      case Tuesday =>
        assert DayName(d)[0] == 'T' && DayName(d)[1] == 'u';
        assert DayName(e)[0] != 'T' || DayName(e)[1] != 'u';
      case Wednesday => assert DayName(d)[0] == 'W' && DayName(e)[0] != 'W';
      case Thursday =>
        assert DayName(d)[0] == 'T' && DayName(d)[1] == 'h';
        assert DayName(e)[0] != 'T' || DayName(e)[1] != 'h';
      case Friday => assert DayName(d)[0] == 'F' && DayName(e)[0] != 'F';
      case Saturday =>
        assert DayName(d)[0] == 'S' && DayName(e)[0] != 'S';
    }
  }

  datatype Student = Student(
    student_id: string, name: string, roll_no: string,
    department: string, year: int, email: string)

  datatype Faculty = Faculty(
    faculty_id: string, name: string, department: string, email: string)

  datatype Subject = Subject(
    subject_id: string, subject_name: string, subject_code: string,
    department: string, faculty_id: string, credits: int)

  datatype Timetable = Timetable(
    timetable_id: string, subject_id: string, day: Day, time_slot: string,
    room_no: string, department: string, year: int)

  datatype Attendance = Attendance(
    attendance_id: string, student_id: string, subject_id: string,
    date: string, status: Status, marked_by: Option<string>)

  /** Key functions, passed to the generic table operations. */
  function StudentKey(s: Student): string { s.student_id }
  function FacultyKey(f: Faculty): string { f.faculty_id }
  function SubjectKey(s: Subject): string { s.subject_id }
  function TimetableKey(t: Timetable): string { t.timetable_id }
  function AttendanceStudent(a: Attendance): string { a.student_id }
  function AttendanceSubject(a: Attendance): string { a.subject_id }

  // ---------------------------------------------------------------------
  // Records without their id (what the add operations receive).

  datatype NewStudent = NewStudent(
    name: string, roll_no: string, department: string, year: int, email: string)

  datatype NewFaculty = NewFaculty(name: string, department: string, email: string)

  datatype NewSubject = NewSubject(
    subject_name: string, subject_code: string, department: string,
    faculty_id: string, credits: int)

  datatype NewTimetable = NewTimetable(
    subject_id: string, day: Day, time_slot: string, room_no: string,
    department: string, year: int)

  /** What markAttendance receives: an attendance event without its id. */
  datatype NewAttendance = NewAttendance(
    student_id: string, subject_id: string, date: string,
    status: Status, marked_by: Option<string>)

  /** The prefixes of generated ids ("s", "f", "sub", "t", "a" followed by the clock reading). */
  const StudentPrefix := "s"
  const FacultyPrefix := "f"
  const SubjectPrefix := "sub"
  const TimetablePrefix := "t"
  const AttendancePrefix := "a"

  function WithStudentId(n: NewStudent, id: string): (s: Student)
    ensures s.student_id == id && s.name == n.name && s.roll_no == n.roll_no
    ensures s.department == n.department && s.year == n.year && s.email == n.email
  {
    Student(id, n.name, n.roll_no, n.department, n.year, n.email)
  }

  function WithFacultyId(n: NewFaculty, id: string): (f: Faculty)
    ensures f.faculty_id == id && f.name == n.name
    ensures f.department == n.department && f.email == n.email
  {
    Faculty(id, n.name, n.department, n.email)
  }

  function WithSubjectId(n: NewSubject, id: string): (s: Subject)
    ensures s.subject_id == id && s.subject_name == n.subject_name
    ensures s.subject_code == n.subject_code && s.department == n.department
    ensures s.faculty_id == n.faculty_id && s.credits == n.credits
  {
    Subject(id, n.subject_name, n.subject_code, n.department, n.faculty_id, n.credits)
  }

  function WithTimetableId(n: NewTimetable, id: string): (t: Timetable)
    ensures t.timetable_id == id && t.subject_id == n.subject_id && t.day == n.day
    ensures t.time_slot == n.time_slot && t.room_no == n.room_no
    ensures t.department == n.department && t.year == n.year
  {
    Timetable(id, n.subject_id, n.day, n.time_slot, n.room_no, n.department, n.year)
  }

  function WithAttendanceId(n: NewAttendance, id: string): (a: Attendance)
    ensures a.attendance_id == id && a.student_id == n.student_id
    ensures a.subject_id == n.subject_id && a.date == n.date
    ensures a.status == n.status && a.marked_by == n.marked_by
  {
    Attendance(id, n.student_id, n.subject_id, n.date, n.status, n.marked_by)
  }

  // ---------------------------------------------------------------------
  // Partial records. Object spread `{ ...row, ...data }` copies every key
  // that `data` carries over the row and keeps the row's value for every
  // key it lacks; `None` stands for a key the partial record does not carry.
  // The id is itself an optional key of a partial record.

  function Override<T>(patch: Option<T>, current: T): (r: T)
    ensures patch.None? ==> r == current
    ensures patch.Some? ==> r == patch.value
  {
    match patch
    case None => current
    case Some(v) => v
  }

  datatype StudentPatch = StudentPatch(
    student_id: Option<string>, name: Option<string>, roll_no: Option<string>,
    department: Option<string>, year: Option<int>, email: Option<string>)

  datatype FacultyPatch = FacultyPatch(
    faculty_id: Option<string>, name: Option<string>,
    department: Option<string>, email: Option<string>)

  datatype SubjectPatch = SubjectPatch(
    subject_id: Option<string>, subject_name: Option<string>,
    subject_code: Option<string>, department: Option<string>,
    faculty_id: Option<string>, credits: Option<int>)

  datatype TimetablePatch = TimetablePatch(
    timetable_id: Option<string>, subject_id: Option<string>, day: Option<Day>,
    time_slot: Option<string>, room_no: Option<string>,
    department: Option<string>, year: Option<int>)

  /** What a spread leaves for one key: the partial record's value when it
      carries the key, the row's value when it does not. */
  predicate Spreads<T(==)>(patch: Option<T>, current: T, r: T)
  {
    && (patch.Some? ==> r == patch.value)
    && (patch.None? ==> r == current)
  }

  function MergeStudent(s: Student, p: StudentPatch): (r: Student)
    ensures Spreads(p.student_id, s.student_id, r.student_id) && Spreads(p.name, s.name, r.name)
    ensures Spreads(p.roll_no, s.roll_no, r.roll_no) && Spreads(p.department, s.department, r.department)
    ensures Spreads(p.year, s.year, r.year) && Spreads(p.email, s.email, r.email)
  {
    Student(Override(p.student_id, s.student_id), Override(p.name, s.name),
            Override(p.roll_no, s.roll_no), Override(p.department, s.department),
            Override(p.year, s.year), Override(p.email, s.email))
  }

  function MergeFaculty(f: Faculty, p: FacultyPatch): (r: Faculty)
    ensures Spreads(p.faculty_id, f.faculty_id, r.faculty_id) && Spreads(p.name, f.name, r.name)
    ensures Spreads(p.department, f.department, r.department) && Spreads(p.email, f.email, r.email)
  {
    Faculty(Override(p.faculty_id, f.faculty_id), Override(p.name, f.name),
            Override(p.department, f.department), Override(p.email, f.email))
  }

  function MergeSubject(s: Subject, p: SubjectPatch): (r: Subject)
    ensures Spreads(p.subject_id, s.subject_id, r.subject_id)
    ensures Spreads(p.subject_name, s.subject_name, r.subject_name)
    ensures Spreads(p.subject_code, s.subject_code, r.subject_code)
    ensures Spreads(p.department, s.department, r.department)
    ensures Spreads(p.faculty_id, s.faculty_id, r.faculty_id) && Spreads(p.credits, s.credits, r.credits)
  {
    Subject(Override(p.subject_id, s.subject_id), Override(p.subject_name, s.subject_name),
            Override(p.subject_code, s.subject_code), Override(p.department, s.department),
            Override(p.faculty_id, s.faculty_id), Override(p.credits, s.credits))
  }

  function MergeTimetable(t: Timetable, p: TimetablePatch): (r: Timetable)
    ensures Spreads(p.timetable_id, t.timetable_id, r.timetable_id)
    ensures Spreads(p.subject_id, t.subject_id, r.subject_id) && Spreads(p.day, t.day, r.day)
    ensures Spreads(p.time_slot, t.time_slot, r.time_slot) && Spreads(p.room_no, t.room_no, r.room_no)
    ensures Spreads(p.department, t.department, r.department) && Spreads(p.year, t.year, r.year)
  {
    Timetable(Override(p.timetable_id, t.timetable_id), Override(p.subject_id, t.subject_id),
              Override(p.day, t.day), Override(p.time_slot, t.time_slot),
              Override(p.room_no, t.room_no), Override(p.department, t.department),
              Override(p.year, t.year))
  }

  /** Spreading a new attendance event over an existing one: every field but
      the attendance id comes from the new event, except that a marker the
      new event lacks leaves the old marker in place. */
  function MergeAttendance(a: Attendance, n: NewAttendance): (r: Attendance)
    ensures r.attendance_id == a.attendance_id
    ensures r.student_id == n.student_id && r.subject_id == n.subject_id && r.date == n.date
    ensures r.status == n.status
    ensures r.marked_by == if n.marked_by.Some? then n.marked_by else a.marked_by
  {
    Attendance(a.attendance_id, n.student_id, n.subject_id, n.date, n.status,
               if n.marked_by.Some? then n.marked_by else a.marked_by)
  }

  /** A partial record that carries no key leaves the row as it is. */
  lemma MergeEmptyIsIdentity(s: Student, f: Faculty, sub: Subject, t: Timetable)
    ensures MergeStudent(s, StudentPatch(None, None, None, None, None, None)) == s
    ensures MergeFaculty(f, FacultyPatch(None, None, None, None)) == f
    ensures MergeSubject(sub, SubjectPatch(None, None, None, None, None, None)) == sub
    ensures MergeTimetable(t, TimetablePatch(None, None, None, None, None, None, None)) == t
  {
  }

  /** Merging the same partial record twice is merging it once. */
  lemma MergeIdempotent(s: Student, ps: StudentPatch, f: Faculty, pf: FacultyPatch,
                        sub: Subject, pb: SubjectPatch, t: Timetable, pt: TimetablePatch)
    ensures MergeStudent(MergeStudent(s, ps), ps) == MergeStudent(s, ps)
    ensures MergeFaculty(MergeFaculty(f, pf), pf) == MergeFaculty(f, pf)
    ensures MergeSubject(MergeSubject(sub, pb), pb) == MergeSubject(sub, pb)
    ensures MergeTimetable(MergeTimetable(t, pt), pt) == MergeTimetable(t, pt)
  {
  }

  /** Without an id key, a merge keeps the row's id. */
  lemma MergeKeepsId(s: Student, ps: StudentPatch, f: Faculty, pf: FacultyPatch,
                     sub: Subject, pb: SubjectPatch, t: Timetable, pt: TimetablePatch)
    ensures ps.student_id.None? ==> StudentKey(MergeStudent(s, ps)) == StudentKey(s)
    ensures pf.faculty_id.None? ==> FacultyKey(MergeFaculty(f, pf)) == FacultyKey(f)
    ensures pb.subject_id.None? ==> SubjectKey(MergeSubject(sub, pb)) == SubjectKey(sub)
    ensures pt.timetable_id.None? ==> TimetableKey(MergeTimetable(t, pt)) == TimetableKey(t)
  {
  }
}
