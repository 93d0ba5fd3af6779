/** The in-memory store: five tables held as mutable arrays, seeded with the
    sample rows, with add / update / delete on four of them and the
    attendance upsert. The reads and the reports are functions of the tables
    (modules Queries and Reports); the clock reading that generated ids are
    made from is the `now` parameter. */
module Service {
  import opened Records
  import opened Seqs
  import opened Tables
  import opened AttendanceLog
  import opened MockData

  class DataService {
    var students: seq<Student>
    var faculty: seq<Faculty>
    var subjects: seq<Subject>
    var timetable: seq<Timetable>
    var attendance: seq<Attendance>

    /** The attendance log never holds two events for one student, subject and date. */
    ghost predicate Valid()
      reads this`attendance
    {
      KeysUnique(attendance)
    }

    /** The store starts from copies of the sample rows. */
    constructor()
      ensures students == SeedStudents && faculty == SeedFaculty && subjects == SeedSubjects
      ensures timetable == SeedTimetable && attendance == SeedAttendance
      ensures Valid()
    {
      students := SeedStudents;
      faculty := SeedFaculty;
      subjects := SeedSubjects;
      timetable := SeedTimetable;
      attendance := SeedAttendance;
      new;
      SeedKeysUnique();
    }

    // The student roll.

    /** `addStudent`: the row gets the id "{prefix}{now}" and goes at the end.
        Looking its id up afterwards finds it, unless an earlier row already
        carried that id. */
    method AddStudent(entry: NewStudent, now: string) returns (r: Student)
      modifies this`students
      ensures r == WithStudentId(entry, StudentPrefix + now)
      ensures students == Added(old(students), r)
      ensures Find(students, StudentKey, r.student_id)
           == if HasKey(old(students), StudentKey, r.student_id) then Find(old(students), StudentKey, r.student_id) else Some(r)
    {
      r := WithStudentId(entry, StudentPrefix + now);
      students := students + [r];
      FindAfterAdd(old(students), StudentKey, r);
    }

    /** `updateStudent`: the first row with the id takes every key the patch carries;
        without such a row nothing changes and nothing is returned. When the
        patch keeps the id, looking it up afterwards finds the returned row. */
    method UpdateStudent(id: string, data: StudentPatch) returns (r: Option<Student>)
      modifies this`students
      ensures students == Updated(old(students), StudentKey, id, x => MergeStudent(x, data))
      ensures r == UpdateResult(old(students), StudentKey, id, x => MergeStudent(x, data))
      ensures r.None? <==> !HasKey(old(students), StudentKey, id)
      ensures r.Some? && (data.student_id.None? || data.student_id == Some(id)) ==> Find(students, StudentKey, id) == r
    {
      var index := FindIndex(students, StudentKey, id);
      if index == -1 {
        return None;
      }
      students := students[index := MergeStudent(students[index], data)];
      r := Some(students[index]);
      if data.student_id.None? || data.student_id == Some(id) {
        FindAfterUpdate(old(students), StudentKey, id, x => MergeStudent(x, data));
      }
    }

    /** `deleteStudent`: splices out the first row with the id and reports whether
        there was one; one row with the id goes, rows with other ids stay. */
    method DeleteStudent(id: string) returns (ok: bool)
      modifies this`students
      ensures ok == HasKey(old(students), StudentKey, id)
      ensures students == Deleted(old(students), StudentKey, id)
      ensures !ok ==> students == old(students)
      ensures forall other :: other != id ==>
        Where(students, StudentKey, other) == Where(old(students), StudentKey, other)
      ensures ok ==> |Where(students, StudentKey, id)| == |Where(old(students), StudentKey, id)| - 1
    {
      var index := FindIndex(students, StudentKey, id);
      if index == -1 {
        return false;
      }
      students := RemoveAt(students, index);
      ok := true;
      DeleteCount(old(students), StudentKey, id);
      forall other | other != id {
        DeleteOthers(old(students), StudentKey, id, other);
      }
    }

    // The faculty list.

    /** `addFaculty`: the row gets the id "{prefix}{now}" and goes at the end.
        Looking its id up afterwards finds it, unless an earlier row already
        carried that id. */
    method AddFaculty(entry: NewFaculty, now: string) returns (r: Faculty)
      modifies this`faculty
      ensures r == WithFacultyId(entry, FacultyPrefix + now)
      ensures faculty == Added(old(faculty), r)
      ensures Find(faculty, FacultyKey, r.faculty_id)
           == if HasKey(old(faculty), FacultyKey, r.faculty_id) then Find(old(faculty), FacultyKey, r.faculty_id) else Some(r)
    {
      r := WithFacultyId(entry, FacultyPrefix + now);
      faculty := faculty + [r];
      FindAfterAdd(old(faculty), FacultyKey, r);
    }

    /** `updateFaculty`: the first row with the id takes every key the patch carries;
        without such a row nothing changes and nothing is returned. When the
        patch keeps the id, looking it up afterwards finds the returned row. */
    method UpdateFaculty(id: string, data: FacultyPatch) returns (r: Option<Faculty>)
      modifies this`faculty
      ensures faculty == Updated(old(faculty), FacultyKey, id, x => MergeFaculty(x, data))
      ensures r == UpdateResult(old(faculty), FacultyKey, id, x => MergeFaculty(x, data))
      ensures r.None? <==> !HasKey(old(faculty), FacultyKey, id)
      ensures r.Some? && (data.faculty_id.None? || data.faculty_id == Some(id)) ==> Find(faculty, FacultyKey, id) == r
    {
      var index := FindIndex(faculty, FacultyKey, id);
      if index == -1 {
        return None;
      }
      faculty := faculty[index := MergeFaculty(faculty[index], data)];
      r := Some(faculty[index]);
      if data.faculty_id.None? || data.faculty_id == Some(id) {
        FindAfterUpdate(old(faculty), FacultyKey, id, x => MergeFaculty(x, data));
      }
    }

    /** `deleteFaculty`: splices out the first row with the id and reports whether
        there was one; one row with the id goes, rows with other ids stay. */
    method DeleteFaculty(id: string) returns (ok: bool)
      modifies this`faculty
      ensures ok == HasKey(old(faculty), FacultyKey, id)
      ensures faculty == Deleted(old(faculty), FacultyKey, id)
      ensures !ok ==> faculty == old(faculty)
      ensures forall other :: other != id ==>
        Where(faculty, FacultyKey, other) == Where(old(faculty), FacultyKey, other)
      ensures ok ==> |Where(faculty, FacultyKey, id)| == |Where(old(faculty), FacultyKey, id)| - 1
    {
      var index := FindIndex(faculty, FacultyKey, id);
      if index == -1 {
        return false;
      }
      faculty := RemoveAt(faculty, index);
      ok := true;
      DeleteCount(old(faculty), FacultyKey, id);
      forall other | other != id {
        DeleteOthers(old(faculty), FacultyKey, id, other);
      }
    }

    // The subject list.

    /** `addSubject`: the row gets the id "{prefix}{now}" and goes at the end.
        Looking its id up afterwards finds it, unless an earlier row already
        carried that id. */
    method AddSubject(entry: NewSubject, now: string) returns (r: Subject)
      modifies this`subjects
      ensures r == WithSubjectId(entry, SubjectPrefix + now)
      ensures subjects == Added(old(subjects), r)
      ensures Find(subjects, SubjectKey, r.subject_id)
           == if HasKey(old(subjects), SubjectKey, r.subject_id) then Find(old(subjects), SubjectKey, r.subject_id) else Some(r)
    {
      r := WithSubjectId(entry, SubjectPrefix + now);
      subjects := subjects + [r];
      FindAfterAdd(old(subjects), SubjectKey, r);
    }

    /** `updateSubject`: the first row with the id takes every key the patch carries;
        without such a row nothing changes and nothing is returned. When the
        patch keeps the id, looking it up afterwards finds the returned row. */
    method UpdateSubject(id: string, data: SubjectPatch) returns (r: Option<Subject>)
      modifies this`subjects
      ensures subjects == Updated(old(subjects), SubjectKey, id, x => MergeSubject(x, data))
      ensures r == UpdateResult(old(subjects), SubjectKey, id, x => MergeSubject(x, data))
      ensures r.None? <==> !HasKey(old(subjects), SubjectKey, id)
      ensures r.Some? && (data.subject_id.None? || data.subject_id == Some(id)) ==> Find(subjects, SubjectKey, id) == r
    {
      var index := FindIndex(subjects, SubjectKey, id);
      if index == -1 {
        return None;
      }
      subjects := subjects[index := MergeSubject(subjects[index], data)];
      r := Some(subjects[index]);
      if data.subject_id.None? || data.subject_id == Some(id) {
        FindAfterUpdate(old(subjects), SubjectKey, id, x => MergeSubject(x, data));
      }
    }

    /** `deleteSubject`: splices out the first row with the id and reports whether
        there was one; one row with the id goes, rows with other ids stay. */
    method DeleteSubject(id: string) returns (ok: bool)
      modifies this`subjects
      ensures ok == HasKey(old(subjects), SubjectKey, id)
      ensures subjects == Deleted(old(subjects), SubjectKey, id)
      ensures !ok ==> subjects == old(subjects)
      ensures forall other :: other != id ==>
        Where(subjects, SubjectKey, other) == Where(old(subjects), SubjectKey, other)
      ensures ok ==> |Where(subjects, SubjectKey, id)| == |Where(old(subjects), SubjectKey, id)| - 1
    {
      var index := FindIndex(subjects, SubjectKey, id);
      if index == -1 {
        return false;
      }
      subjects := RemoveAt(subjects, index);
      ok := true;
      DeleteCount(old(subjects), SubjectKey, id);
      forall other | other != id {
        DeleteOthers(old(subjects), SubjectKey, id, other);
      }
    }

    // The timetable.

    /** `addTimetable`: the row gets the id "{prefix}{now}" and goes at the end.
        Looking its id up afterwards finds it, unless an earlier row already
        carried that id. */
    method AddTimetable(entry: NewTimetable, now: string) returns (r: Timetable)
      modifies this`timetable
      ensures r == WithTimetableId(entry, TimetablePrefix + now)
      ensures timetable == Added(old(timetable), r)
      ensures Find(timetable, TimetableKey, r.timetable_id)
           == if HasKey(old(timetable), TimetableKey, r.timetable_id) then Find(old(timetable), TimetableKey, r.timetable_id) else Some(r)
    {
      r := WithTimetableId(entry, TimetablePrefix + now);
      timetable := timetable + [r];
      FindAfterAdd(old(timetable), TimetableKey, r);
    }

    /** `updateTimetable`: the first row with the id takes every key the patch carries;
        without such a row nothing changes and nothing is returned. When the
        patch keeps the id, looking it up afterwards finds the returned row. */
    method UpdateTimetable(id: string, data: TimetablePatch) returns (r: Option<Timetable>)
      modifies this`timetable
      ensures timetable == Updated(old(timetable), TimetableKey, id, x => MergeTimetable(x, data))
      ensures r == UpdateResult(old(timetable), TimetableKey, id, x => MergeTimetable(x, data))
      ensures r.None? <==> !HasKey(old(timetable), TimetableKey, id)
      ensures r.Some? && (data.timetable_id.None? || data.timetable_id == Some(id)) ==> Find(timetable, TimetableKey, id) == r
    {
      var index := FindIndex(timetable, TimetableKey, id);
      if index == -1 {
        return None;
      }
      timetable := timetable[index := MergeTimetable(timetable[index], data)];
      r := Some(timetable[index]);
      if data.timetable_id.None? || data.timetable_id == Some(id) {
        FindAfterUpdate(old(timetable), TimetableKey, id, x => MergeTimetable(x, data));
      }
    }

    /** `deleteTimetable`: splices out the first row with the id and reports whether
        there was one; one row with the id goes, rows with other ids stay. */
    method DeleteTimetable(id: string) returns (ok: bool)
      modifies this`timetable
      ensures ok == HasKey(old(timetable), TimetableKey, id)
      ensures timetable == Deleted(old(timetable), TimetableKey, id)
      ensures !ok ==> timetable == old(timetable)
      ensures forall other :: other != id ==>
        Where(timetable, TimetableKey, other) == Where(old(timetable), TimetableKey, other)
      ensures ok ==> |Where(timetable, TimetableKey, id)| == |Where(old(timetable), TimetableKey, id)| - 1
    {
      var index := FindIndex(timetable, TimetableKey, id);
      if index == -1 {
        return false;
      }
      timetable := RemoveAt(timetable, index);
      ok := true;
      DeleteCount(old(timetable), TimetableKey, id);
      forall other | other != id {
        DeleteOthers(old(timetable), TimetableKey, id, other);
      }
    }

    // Attendance.

    /** `markAttendance`: an event for a (student, subject, date) already in the
        log is overwritten in place and keeps its id; otherwise a new event with
        id "a{now}" is appended. Afterwards the log holds exactly one event for
        that key, the one returned. */
    method MarkAttendance(record: NewAttendance, now: string) returns (r: Attendance)
      requires Valid()
      modifies this`attendance
      ensures Valid()
      ensures attendance == Marked(old(attendance), record, AttendancePrefix + now)
      ensures r == MarkResult(old(attendance), record, AttendancePrefix + now)
      ensures Where(attendance, KeyOf, InputKey(record)) == [r]
    {
      var existing := FindIndex(attendance, KeyOf, InputKey(record));
      if existing != -1 {
        attendance := attendance[existing := MergeAttendance(attendance[existing], record)];
        r := attendance[existing];
      } else {
        r := WithAttendanceId(record, AttendancePrefix + now);
        attendance := attendance + [r];
      }
      MarkKeepsKeysUnique(old(attendance), record, AttendancePrefix + now);
      MarkSelectsOne(old(attendance), record, AttendancePrefix + now);
    }
  }
}
