/** The store's filtered read-only getters (`filter`, table order). Each takes
    the table it reads. The lookups by id are `Seqs.Find` on the table. */
module Queries {
  import opened Records
  import opened Seqs

  /** `getSubjectsByDepartment`: every subject of the department, as often as it
      occurs in the table, and nothing else. */
  function SubjectsByDepartment(subjects: seq<Subject>, department: string): (r: seq<Subject>)
    ensures forall s :: multiset(r)[s] == if s.department == department then multiset(subjects)[s] else 0
  {
    var p := (s: Subject) => s.department == department;
    assert forall s :: multiset(Filter(subjects, p))[s] == if p(s) then multiset(subjects)[s] else 0 by {
      forall s { FilterCount(subjects, p, s); }
    }
    Filter(subjects, p)
  }

  /** `getSubjectsByFaculty`: every subject taught by the faculty member, and nothing else. */
  function SubjectsByFaculty(subjects: seq<Subject>, facultyId: string): (r: seq<Subject>)
    ensures forall s :: multiset(r)[s] == if s.faculty_id == facultyId then multiset(subjects)[s] else 0
  {
    var p := (s: Subject) => s.faculty_id == facultyId;
    assert forall s :: multiset(Filter(subjects, p))[s] == if p(s) then multiset(subjects)[s] else 0 by {
      forall s { FilterCount(subjects, p, s); }
    }
    Filter(subjects, p)
  }

  /** The entry matches a department and, when a year is given, that year. */
  predicate InDepartmentYear(t: Timetable, department: string, year: Option<int>)
  {
    t.department == department && (year.None? || t.year == year.value)
  }

  /** `getTimetableByDepartment(department, year?)`: an absent year matches every year. */
  function TimetableByDepartment(timetable: seq<Timetable>, department: string, year: Option<int>)
    : (r: seq<Timetable>)
    ensures forall t :: (multiset(r)[t]
      == if t.department == department && (year.None? || t.year == year.value)
         then multiset(timetable)[t] else 0)
  {
    var p := (t: Timetable) => InDepartmentYear(t, department, year);
    assert forall t :: multiset(Filter(timetable, p))[t] == if p(t) then multiset(timetable)[t] else 0 by {
      forall t { FilterCount(timetable, p, t); }
    }
    Filter(timetable, p)
  }

  /** The entry is on the named day and, when a department is given, in it. */
  predicate OnDayInDepartment(t: Timetable, day: string, department: Option<string>)
  {
    DayName(t.day) == day && (department.None? || t.department == department.value)
  }

  /** `getTimetableByDay(day, department?)`: the day is the name a row stores;
      an absent department matches every department. */
  function TimetableByDay(timetable: seq<Timetable>, day: string, department: Option<string>)
    : (r: seq<Timetable>)
    ensures forall t :: (multiset(r)[t]
      == if DayName(t.day) == day && (department.None? || t.department == department.value)
         then multiset(timetable)[t] else 0)
  {
    var p := (t: Timetable) => OnDayInDepartment(t, day, department);
    assert forall t :: multiset(Filter(timetable, p))[t] == if p(t) then multiset(timetable)[t] else 0 by {
      forall t { FilterCount(timetable, p, t); }
    }
    Filter(timetable, p)
  }

  /** Asking for a day by its name selects the entries on that day and no other. */
  lemma TimetableByDayName(timetable: seq<Timetable>, d: Day, department: Option<string>, t: Timetable)
    ensures multiset(TimetableByDay(timetable, DayName(d), department))[t]
         == if t.day == d && (department.None? || t.department == department.value)
            then multiset(timetable)[t] else 0
  {
    DayNameInjective(t.day, d);
  }

  /** A day string that names no day selects nothing. */
  lemma TimetableByUnknownDay(timetable: seq<Timetable>, day: string, department: Option<string>)
    requires forall d: Day :: DayName(d) != day
    ensures TimetableByDay(timetable, day, department) == []
  {
    var r := TimetableByDay(timetable, day, department);
    assert multiset(r) == multiset{};
  }

  /** `getAttendanceByStudent`: the student's events, in log order. */
  function AttendanceByStudent(attendance: seq<Attendance>, studentId: string): (r: seq<Attendance>)
    ensures forall a :: multiset(r)[a] == if a.student_id == studentId then multiset(attendance)[a] else 0
  {
    var r := Where(attendance, AttendanceStudent, studentId);
    assert forall a :: multiset(r)[a] == if a.student_id == studentId then multiset(attendance)[a] else 0 by {
      forall a { WhereCount(attendance, AttendanceStudent, studentId, a); }
    }
    r
  }

  /** `getAttendanceBySubject`: the subject's events, in log order. */
  function AttendanceBySubject(attendance: seq<Attendance>, subjectId: string): (r: seq<Attendance>)
    ensures forall a :: multiset(r)[a] == if a.subject_id == subjectId then multiset(attendance)[a] else 0
  {
    var r := Where(attendance, AttendanceSubject, subjectId);
    assert forall a :: multiset(r)[a] == if a.subject_id == subjectId then multiset(attendance)[a] else 0 by {
      forall a { WhereCount(attendance, AttendanceSubject, subjectId, a); }
    }
    r
  }

  /** Filtered reads keep table order: reading a table made of two parts reads
      the first part, then the second. */
  lemma FilteredReadsKeepOrder(a: seq<Timetable>, b: seq<Timetable>, department: string,
                               year: Option<int>, day: string, dept: Option<string>)
    ensures TimetableByDepartment(a + b, department, year)
         == TimetableByDepartment(a, department, year) + TimetableByDepartment(b, department, year)
    ensures TimetableByDay(a + b, day, dept) == TimetableByDay(a, day, dept) + TimetableByDay(b, day, dept)
  {
    FilterAppend(a, b, (t: Timetable) => InDepartmentYear(t, department, year));
    FilterAppend(a, b, (t: Timetable) => OnDayInDepartment(t, day, dept));
  }
}
