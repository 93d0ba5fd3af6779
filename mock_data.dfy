/** The seed rows the store starts with (five students, three faculty
    members, four subjects, six timetable entries, nine attendance events),
    with the invariant the attendance log keeps. */
module MockData {
  import opened Records
  import opened AttendanceLog

  const SeedStudents: seq<Student> := [
    Student("s1", "Rahul Kumar", "CS2021001", "Computer Science", 3, "rahul.kumar@college.edu"),
    Student("s2", "Priya Sharma", "CS2021002", "Computer Science", 3, "priya.sharma@college.edu"),
    Student("s3", "Amit Patel", "CS2021003", "Computer Science", 3, "amit.patel@college.edu"),
    Student("s4", "Sneha Gupta", "EC2021001", "Electronics", 2, "sneha.gupta@college.edu"),
    Student("s5", "Vikram Singh", "EC2021002", "Electronics", 2, "vikram.singh@college.edu")
  ]

  const SeedFaculty: seq<Faculty> := [
    Faculty("f1", "Dr. Rajesh Verma", "Computer Science", "rajesh.verma@college.edu"),
    Faculty("f2", "Prof. Sunita Desai", "Computer Science", "sunita.desai@college.edu"),
    Faculty("f3", "Dr. Arjun Mehta", "Electronics", "arjun.mehta@college.edu")
  ]

  const SeedSubjects: seq<Subject> := [
    Subject("sub1", "Database Management Systems", "CS301", "Computer Science", "f1", 4),
    Subject("sub2", "Operating Systems", "CS302", "Computer Science", "f2", 4),
    Subject("sub3", "Computer Networks", "CS303", "Computer Science", "f1", 3),
    Subject("sub4", "Digital Signal Processing", "EC201", "Electronics", "f3", 3)
  ]

  const SeedTimetable: seq<Timetable> := [
    Timetable("t1", "sub1", Monday, "09:00-10:00", "A101", "Computer Science", 3),
    Timetable("t2", "sub2", Monday, "10:00-11:00", "A102", "Computer Science", 3),
    Timetable("t3", "sub3", Tuesday, "09:00-10:00", "A101", "Computer Science", 3),
    Timetable("t4", "sub1", Wednesday, "11:00-12:00", "A103", "Computer Science", 3),
    Timetable("t5", "sub2", Thursday, "10:00-11:00", "A102", "Computer Science", 3),
    Timetable("t6", "sub4", Monday, "09:00-10:00", "B201", "Electronics", 2)
  ]

  const SeedAttendance: seq<Attendance> := [
    Attendance("a1", "s1", "sub1", "2025-10-01", Present, Some("f1")),
    Attendance("a2", "s2", "sub1", "2025-10-01", Present, Some("f1")),
    Attendance("a3", "s3", "sub1", "2025-10-01", Absent, Some("f1")),
    Attendance("a4", "s1", "sub2", "2025-10-01", Present, Some("f2")),
    Attendance("a5", "s2", "sub2", "2025-10-01", Present, Some("f2")),
    Attendance("a6", "s3", "sub2", "2025-10-01", Present, Some("f2")),
    Attendance("a7", "s1", "sub1", "2025-10-03", Present, Some("f1")),
    Attendance("a8", "s2", "sub1", "2025-10-03", Absent, Some("f1")),
    Attendance("a9", "s3", "sub1", "2025-10-03", Present, Some("f1"))
  ]

  /** The seed log has no two events for the same student, subject and date. */
  lemma SeedKeysUnique()
    ensures KeysUnique(SeedAttendance)
  {
    forall i, j | 0 <= i < j < |SeedAttendance| ensures KeyOf(SeedAttendance[i]) != KeyOf(SeedAttendance[j]) {
      var a, b := SeedAttendance[i], SeedAttendance[j];
      assert a.student_id != b.student_id || a.subject_id != b.subject_id || a.date != b.date;
    }
  }
}
