/** The three aggregations over the attendance log: a student's report (one
    row per subject the student has events for), a subject's statistics (one
    row per student with events for it), and the ranking of all subjects by
    attendance percentage. Percentages are exact: `present / total * 100`,
    and 0 when there are no classes. */
module Reports {
  import opened Records
  import opened Seqs

  // ---------------------------------------------------------------------
  // Counting and percentages.

  /** `records.filter(r => r.status === 'Present').length` */
  function CountPresent(records: seq<Attendance>): (n: nat)
    ensures n <= |records|
  {
    |Filter(records, (r: Attendance) => r.status == Present)|
  }

  /** The events that are not Present, i.e. Absent. */
  function CountAbsent(records: seq<Attendance>): (n: nat)
    ensures n <= |records|
  {
    |Filter(records, (r: Attendance) => r.status == Absent)|
  }

  lemma CountSnoc(records: seq<Attendance>, x: Attendance)
    ensures CountPresent(records + [x]) == CountPresent(records) + (if x.status == Present then 1 else 0)
    ensures CountAbsent(records + [x]) == CountAbsent(records) + (if x.status == Absent then 1 else 0)
  {
    FilterSnoc(records, x, (r: Attendance) => r.status == Present);
    FilterSnoc(records, x, (r: Attendance) => r.status == Absent);
  }

  /** Every event is either Present or Absent: the two counts add up to the total. */
  lemma {:induction false} PresentPlusAbsent(records: seq<Attendance>)
    ensures CountPresent(records) + CountAbsent(records) == |records|
  {
    if records != [] {
      var init, x := records[..|records| - 1], records[|records| - 1];
      assert records == init + [x];
      PresentPlusAbsent(init);
      CountSnoc(init, x);
    }
  }

  /** The attendance percentage `present / total * 100`, or 0 without classes. */
  function Percentage(present: nat, total: nat): (r: real)
    ensures 0.0 <= r
    ensures total > 0 ==> r * total as real == present as real * 100.0
    ensures total == 0 ==> r == 0.0
  {
    if total > 0 then
      var q := present as real / total as real;
      assert q * total as real == present as real;
      q * 100.0
    else 0.0
  }

  /** A percentage of at most `total` classes lies between 0 and 100; it is 100
      exactly when every class was attended and 0 exactly when none was. */
  lemma PercentageRange(present: nat, total: nat)
    requires present <= total
    ensures 0.0 <= Percentage(present, total) <= 100.0
    ensures total > 0 ==> (Percentage(present, total) == 100.0 <==> present == total)
    ensures total > 0 ==> (Percentage(present, total) == 0.0 <==> present == 0)
    ensures total == 0 ==> Percentage(present, total) == 0.0
  {
    if total > 0 {
      var p, t := present as real, total as real;
      var q := p / t;
      assert q * t == p;
      assert 0.0 <= q <= 1.0;
      assert q == 1.0 <==> p == t by {
        if q == 1.0 { assert q * t == t; }
      }
      assert q == 0.0 <==> p == 0.0;
    }
  }

  /** Percentages order like the cross-multiplied counts. */
  lemma PercentageOrder(p1: nat, t1: nat, p2: nat, t2: nat)
    requires t1 > 0 && t2 > 0
    ensures Percentage(p1, t1) <= Percentage(p2, t2) <==> p1 * t2 <= p2 * t1
  {
    var a, b := Percentage(p1, t1), Percentage(p2, t2);
    var x1, x2 := t1 as real, t2 as real;
    var tt := x1 * x2;
    assert tt > 0.0;
    assert a * tt == (a * x1) * x2 == (p1 as real * 100.0) * x2;
    assert b * tt == (b * x2) * x1 == (p2 as real * 100.0) * x1;
    assert (p1 * t2) as real == p1 as real * x2;
    assert (p2 * t1) as real == p2 as real * x1;
    assert a <= b <==> a * tt <= b * tt;
  }

  // ---------------------------------------------------------------------
  // A student's attendance report.

  datatype AttendanceReport = AttendanceReport(
    student: Student, subject: Subject, total_classes: nat,
    present_count: nat, absent_count: nat, percentage: real)

  /** The report row for one student and subject from that pair's events. */
  function ReportRow(student: Student, subject: Subject, records: seq<Attendance>): (r: AttendanceReport)
    ensures r.student == student && r.subject == subject
    ensures r.total_classes == |records| == r.present_count + r.absent_count
    ensures r.present_count == CountPresent(records) && r.absent_count == CountAbsent(records)
    ensures r.percentage == Percentage(r.present_count, r.total_classes)
  {
    PresentPlusAbsent(records);
    var total := |records|;
    var present := CountPresent(records);
    AttendanceReport(student, subject, total, present, total - present, Percentage(present, total))
  }

  /** The rows for the subject ids `ks` in order, skipping ids no subject has. */
  function ReportRows(student: Student, subjects: seq<Subject>, mine: seq<Attendance>,
                      ks: seq<string>): (r: seq<AttendanceReport>)
    ensures |r| <= |ks|
    ensures forall j :: 0 <= j < |r| ==> r[j].student == student
  {
    if ks == [] then []
    else
      var rows := ReportRows(student, subjects, mine, ks[..|ks| - 1]);
      var k := ks[|ks| - 1];
      match Find(subjects, SubjectKey, k)
      case None => rows
      case Some(sub) => rows + [ReportRow(student, sub, Where(mine, AttendanceSubject, k))]
  }

  /** One more subject id adds its row, if the id names a subject. */
  lemma ReportLoopStep(student: Student, subjects: seq<Subject>, mine: seq<Attendance>,
                       ks: seq<string>, j: nat, reports: seq<AttendanceReport>,
                       records: seq<Attendance>, subject: Option<Subject>)
    requires j < |ks|
    requires reports == ReportRows(student, subjects, mine, ks[..j])
    requires records == Where(mine, AttendanceSubject, ks[j])
    requires subject == Find(subjects, SubjectKey, ks[j])
    ensures subject.None? ==> reports == ReportRows(student, subjects, mine, ks[..j + 1])
    ensures subject.Some? ==>
      reports + [ReportRow(student, subject.value, records)] == ReportRows(student, subjects, mine, ks[..j + 1])
  {
    assert ks[..j + 1][..j] == ks[..j];
  }


  /** `getAttendanceReport(studentId)`: empty for an unknown student, else one row
      per subject id of the student's events, in order of first event, for the
      ids that name a subject. */
  function Report(students: seq<Student>, subjects: seq<Subject>, attendance: seq<Attendance>,
                  studentId: string): (r: seq<AttendanceReport>)
    ensures |r| <= |Where(attendance, AttendanceStudent, studentId)|
    ensures forall j :: 0 <= j < |r| ==> r[j].student.student_id == studentId
  {
    var mine := Where(attendance, AttendanceStudent, studentId);
    match Find(students, StudentKey, studentId)
    case None => []
    case Some(st) => ReportRows(st, subjects, mine, DistinctKeys(mine, AttendanceSubject))
  }

  /** What every row says: the counts of one subject's events, present and
      absent adding up to a total of at least one, and the exact percentage. */
  ghost predicate RowSound(r: AttendanceReport, subjects: seq<Subject>, mine: seq<Attendance>)
  {
    var group := Where(mine, AttendanceSubject, r.subject.subject_id);
    && Find(subjects, SubjectKey, r.subject.subject_id) == Some(r.subject)
    && r.total_classes == |group| >= 1
    && r.present_count == CountPresent(group)
    && r.absent_count == CountAbsent(group)
    && r.present_count + r.absent_count == r.total_classes
    && r.percentage == Percentage(r.present_count, r.total_classes)
    && 0.0 <= r.percentage <= 100.0
  }

  /** Every row is about the given student and one of the ids, and is sound. */
  lemma {:induction false} ReportRowsSound(student: Student, subjects: seq<Subject>,
                                           mine: seq<Attendance>, ks: seq<string>)
    requires forall k :: k in ks ==> k in DistinctKeys(mine, AttendanceSubject)
    ensures forall r :: r in ReportRows(student, subjects, mine, ks) ==>
      r.student == student && RowSound(r, subjects, mine)
  {
    if ks != [] {
      var init, k := ks[..|ks| - 1], ks[|ks| - 1];
      assert forall x :: x in init ==> x in ks;
      ReportRowsSound(student, subjects, mine, init);
      var prev := ReportRows(student, subjects, mine, init);

      var rows := ReportRows(student, subjects, mine, ks);
      match Find(subjects, SubjectKey, k)
      case None =>
        assert rows == prev;
      case Some(sub) =>
        var group := Where(mine, AttendanceSubject, k);
        assert rows == prev + [ReportRow(student, sub, group)];
        WhereNonEmpty(mine, AttendanceSubject, k);
        PresentPlusAbsent(group);
        PercentageRange(CountPresent(group), |group|);
        assert RowSound(rows[|prev|], subjects, mine);
    }
  }

  /** Rows come from distinct ids, so no subject has two rows. */
  lemma {:induction false} ReportRowsDistinct(student: Student, subjects: seq<Subject>,
                                              mine: seq<Attendance>, ks: seq<string>)
    requires Distinct(ks)
    ensures var rows := ReportRows(student, subjects, mine, ks);
      && |rows| <= |ks|
      && (forall j :: 0 <= j < |rows| ==> rows[j].subject.subject_id in ks)
      && (forall a, b :: 0 <= a < b < |rows| ==> rows[a].subject.subject_id != rows[b].subject.subject_id)
  {
    if ks != [] {
      var init, k := ks[..|ks| - 1], ks[|ks| - 1];
      ReportRowsDistinct(student, subjects, mine, init);
      var prev := ReportRows(student, subjects, mine, init);
      var rows := ReportRows(student, subjects, mine, ks);
      assert k !in init;
      match Find(subjects, SubjectKey, k)
      case None =>
        assert rows == prev;
      case Some(sub) =>
        assert rows == prev + [ReportRow(student, sub, Where(mine, AttendanceSubject, k))];
        assert rows[|prev|].subject.subject_id == k;
        forall j | 0 <= j < |prev| ensures rows[j].subject.subject_id in init {
          assert rows[j] == prev[j];
        }
    }
  }

  /** Every id that names a subject has a row. */
  lemma {:induction false} ReportRowsComplete(student: Student, subjects: seq<Subject>,
                                              mine: seq<Attendance>, ks: seq<string>, k: string)
    requires k in ks && Find(subjects, SubjectKey, k).Some?
    ensures exists r :: r in ReportRows(student, subjects, mine, ks) && r.subject.subject_id == k
  {
    var init, last := ks[..|ks| - 1], ks[|ks| - 1];
    var prev := ReportRows(student, subjects, mine, init);
    var rows := ReportRows(student, subjects, mine, ks);
    if k == last {
      var sub := Find(subjects, SubjectKey, k).value;
      var row := ReportRow(student, sub, Where(mine, AttendanceSubject, k));
      assert rows == prev + [row];
      assert rows[|prev|] == row;
    } else {
      var idx :| 0 <= idx < |ks| && ks[idx] == k;
      assert ks[|init|] == last != k;
      assert init[idx] == k;
      ReportRowsComplete(student, subjects, mine, init, k);
      var r :| r in prev && r.subject.subject_id == k;
      assert rows[..|prev|] == prev;
      assert r in rows;
    }
  }


  /** The report of a student who is not in the students table is empty. */
  lemma ReportUnknownStudent(students: seq<Student>, subjects: seq<Subject>,
                             attendance: seq<Attendance>, studentId: string)
    requires forall i :: 0 <= i < |students| ==> students[i].student_id != studentId
    ensures Report(students, subjects, attendance, studentId) == []
  {
  }

  /** The report of a student without attendance events is empty. */
  lemma ReportNoEvents(students: seq<Student>, subjects: seq<Subject>,
                       attendance: seq<Attendance>, studentId: string)
    requires forall i :: 0 <= i < |attendance| ==> attendance[i].student_id != studentId
    ensures Report(students, subjects, attendance, studentId) == []
  {
    WhereNone(attendance, AttendanceStudent, studentId);
  }

  /** Each row of a report is about the student asked for and one subject that
      resolves; its counts are that student's events for that subject; no
      subject has two rows; and every subject the student has events for and
      that resolves has a row. */
  lemma ReportSpec(students: seq<Student>, subjects: seq<Subject>,
                   attendance: seq<Attendance>, studentId: string)
    ensures var rows := Report(students, subjects, attendance, studentId);
      var mine := Where(attendance, AttendanceStudent, studentId);
      && (forall j :: 0 <= j < |rows| ==>
            rows[j].student.student_id == studentId && RowSound(rows[j], subjects, mine))
      && (forall a, b :: 0 <= a < b < |rows| ==> rows[a].subject.subject_id != rows[b].subject.subject_id)
      && (Find(students, StudentKey, studentId).Some? ==>
            forall i :: 0 <= i < |attendance| && attendance[i].student_id == studentId
                        && Find(subjects, SubjectKey, attendance[i].subject_id).Some? ==>
              exists j :: 0 <= j < |rows| && rows[j].subject.subject_id == attendance[i].subject_id)
  {
    var mine := Where(attendance, AttendanceStudent, studentId);
    var ks := DistinctKeys(mine, AttendanceSubject);
    match Find(students, StudentKey, studentId)
    case None =>
    case Some(st) =>
      DistinctKeysSpec(mine, AttendanceSubject);
      ReportRowsSound(st, subjects, mine, ks);
      ReportRowsDistinct(st, subjects, mine, ks);
      forall i | 0 <= i < |attendance| && attendance[i].student_id == studentId
                 && Find(subjects, SubjectKey, attendance[i].subject_id).Some?
        ensures var rows := ReportRows(st, subjects, mine, ks);
          exists j :: 0 <= j < |rows| && rows[j].subject.subject_id == attendance[i].subject_id
      {
        WhereMembers(attendance, AttendanceStudent, studentId);
        assert attendance[i] in mine;
        var m :| 0 <= m < |mine| && mine[m] == attendance[i];
        assert AttendanceSubject(mine[m]) == attendance[i].subject_id;
        ReportRowsComplete(st, subjects, mine, ks, attendance[i].subject_id);
      }
  }

  /** The events of key `k` among the first `i + 1` events. */
  lemma WhereStep(mine: seq<Attendance>, i: nat, k: string)
    requires i < |mine|
    ensures Where(mine[..i + 1], AttendanceSubject, k)
         == Where(mine[..i], AttendanceSubject, k) + (if mine[i].subject_id == k then [mine[i]] else [])
  {
    assert mine[..i + 1] == mine[..i] + [mine[i]];
    WhereSnoc(mine[..i], mine[i], AttendanceSubject, k);
  }

  /** A key that is not yet in the map has no events so far. */
  lemma WhereNewKey(mine: seq<Attendance>, i: nat, k: string)
    requires i <= |mine|
    requires k !in DistinctKeys(mine[..i], AttendanceSubject)
    ensures Where(mine[..i], AttendanceSubject, k) == []
  {
    DistinctKeysSpec(mine[..i], AttendanceSubject);
    WhereNone(mine[..i], AttendanceSubject, k);
  }

  /** One step of the pass that fills `subjectMap` keeps its key order that of
      the events seen so far. */
  lemma GroupKeysStep(mine: seq<Attendance>, i: nat, keys: seq<string>, groups: map<string, seq<Attendance>>)
    requires i < |mine|
    requires keys == DistinctKeys(mine[..i], AttendanceSubject)
    requires forall k :: k in groups <==> k in keys
    ensures var k := mine[i].subject_id;
      (if k in groups then keys else keys + [k]) == DistinctKeys(mine[..i + 1], AttendanceSubject)
  {
    assert mine[..i + 1] == mine[..i] + [mine[i]];
    DistinctKeysSnoc(mine[..i], mine[i], AttendanceSubject);
  }

  /** One step of the pass that fills `subjectMap` keeps each list equal to the
      events of its subject seen so far. */
  lemma GroupListsStep(mine: seq<Attendance>, i: nat, keys: seq<string>, groups: map<string, seq<Attendance>>)
    requires i < |mine|
    requires keys == DistinctKeys(mine[..i], AttendanceSubject)
    requires forall k :: k in groups <==> k in keys
    requires forall k :: k in keys ==> groups[k] == Where(mine[..i], AttendanceSubject, k)
    ensures var x := mine[i];
      var groups' := groups[x.subject_id := (if x.subject_id in groups then groups[x.subject_id] else []) + [x]];
      forall k :: k in groups' ==> groups'[k] == Where(mine[..i + 1], AttendanceSubject, k)
  {
    var x := mine[i];
    WhereStep(mine, i, x.subject_id);
    if x.subject_id !in keys {
      WhereNewKey(mine, i, x.subject_id);
    }
    forall k | k in keys && k != x.subject_id
      ensures Where(mine[..i + 1], AttendanceSubject, k) == groups[k]
    {
      WhereStep(mine, i, k);
    }
  }



  /** The `forEach` that fills `subjectMap`: each event is pushed onto the list of
      its subject id; `keys` is the map's key order (first insertion). */
  method GroupBySubject(mine: seq<Attendance>)
    returns (keys: seq<string>, groups: map<string, seq<Attendance>>)
    ensures keys == DistinctKeys(mine, AttendanceSubject)
    ensures forall k :: k in groups <==> k in keys
    ensures forall k :: k in keys ==> groups[k] == Where(mine, AttendanceSubject, k)
  {
    keys, groups := [], map[];
    for i := 0 to |mine|
      invariant keys == DistinctKeys(mine[..i], AttendanceSubject)
      invariant forall k :: k in groups <==> k in keys
      invariant forall k :: k in keys ==> groups[k] == Where(mine[..i], AttendanceSubject, k)
    {
      GroupKeysStep(mine, i, keys, groups);
      GroupListsStep(mine, i, keys, groups);
      var record := mine[i];
      var existing := if record.subject_id in groups then groups[record.subject_id] else [];
      existing := existing + [record];
      if record.subject_id !in groups {
        keys := keys + [record.subject_id];
      }
      groups := groups[record.subject_id := existing];
    }
    assert mine[..|mine|] == mine;
  }


  /** `getAttendanceReport`: the student's events, grouped by subject id into a
      map filled in event order, then one row per group whose subject resolves. */
  method BuildReport(students: seq<Student>, subjects: seq<Subject>, attendance: seq<Attendance>,
                     studentId: string) returns (reports: seq<AttendanceReport>)
    ensures reports == Report(students, subjects, attendance, studentId)
  {
    var mine := Where(attendance, AttendanceStudent, studentId);
    var student := Find(students, StudentKey, studentId);
    if student.None? {
      return [];
    }

    var keys, groups := GroupBySubject(mine);
    reports := ReportEntries(student.value, subjects, mine, keys, groups);
  }

  /** The `for ... of subjectMap.entries()` loop: one row per entry whose subject
      id resolves, in the map's key order. */
  method ReportEntries(student: Student, subjects: seq<Subject>, mine: seq<Attendance>,
                       keys: seq<string>, groups: map<string, seq<Attendance>>)
    returns (reports: seq<AttendanceReport>)
    requires forall k :: k in keys ==> k in groups && groups[k] == Where(mine, AttendanceSubject, k)
    ensures reports == ReportRows(student, subjects, mine, keys)
  {
    reports := [];
    for j := 0 to |keys|
      invariant reports == ReportRows(student, subjects, mine, keys[..j])
    {
      var subjectId := keys[j];
      var records := groups[subjectId];
      var subject := Find(subjects, SubjectKey, subjectId);
      ReportLoopStep(student, subjects, mine, keys, j, reports, records, subject);
      if subject.Some? {
        reports := reports + [ReportRow(student, subject.value, records)];
      }
    }
    assert keys[..|keys|] == keys;
  }


  // ---------------------------------------------------------------------
  // A subject's statistics, one row per student.

  datatype StudentStat = StudentStat(
    studentId: string, present: nat, absent: nat, total: nat, percentage: real)

  /** The statistics row of one student from that student's events. */
  function StatRow(studentId: string, records: seq<Attendance>): (r: StudentStat)
    ensures r.studentId == studentId && r.total == |records|
    ensures r.present == CountPresent(records) && r.absent == CountAbsent(records)
  {
    PresentPlusAbsent(records);
    StatOf(studentId, TallyOf(records))
  }

  /** The row the `map` over `studentMap`'s entries makes from one entry. */
  function StatOf(studentId: string, t: Tally): (r: StudentStat)
    ensures r.studentId == studentId && r.present == t.present && r.absent == t.absent
    ensures r.total == r.present + r.absent
    ensures r.total > 0 ==> r.percentage * r.total as real == r.present as real * 100.0
  {
    StudentStat(studentId, t.present, t.absent, t.present + t.absent,
                Percentage(t.present, t.present + t.absent))
  }

  /** `getAttendanceStatsBySubject(subjectId)`: the subject's events grouped by
      student id, in order of each student's first event. */
  function SubjectStats(attendance: seq<Attendance>, subjectId: string): (r: seq<StudentStat>)
    ensures |r| <= |Where(attendance, AttendanceSubject, subjectId)|
    ensures r == [] <==> Where(attendance, AttendanceSubject, subjectId) == []
  {
    var records := Where(attendance, AttendanceSubject, subjectId);
    var ks := DistinctKeys(records, AttendanceStudent);
    seq(|ks|, i requires 0 <= i < |ks| => StatRow(ks[i], Where(records, AttendanceStudent, ks[i])))
  }

  /** Each row counts one student's events for the subject, with present and
      absent adding up to a total of at least one (so the percentage never
      divides by zero); no student has two rows; and every student with an
      event for the subject has a row. */
  lemma SubjectStatsSpec(attendance: seq<Attendance>, subjectId: string)
    ensures var rows := SubjectStats(attendance, subjectId);
      var records := Where(attendance, AttendanceSubject, subjectId);
      && (forall j :: 0 <= j < |rows| ==>
            var mine := Where(records, AttendanceStudent, rows[j].studentId);
            && rows[j].total == rows[j].present + rows[j].absent == |mine|
            && rows[j].total >= 1
            && rows[j].present == CountPresent(mine)
            && rows[j].absent == CountAbsent(mine)
            && rows[j].percentage == Percentage(rows[j].present, rows[j].total)
            && 0.0 <= rows[j].percentage <= 100.0)
      && (forall a, b :: 0 <= a < b < |rows| ==> rows[a].studentId != rows[b].studentId)
      && (forall i :: 0 <= i < |attendance| && attendance[i].subject_id == subjectId ==>
            exists j :: 0 <= j < |rows| && rows[j].studentId == attendance[i].student_id)
  {
    var rows := SubjectStats(attendance, subjectId);
    var records := Where(attendance, AttendanceSubject, subjectId);
    var ks := DistinctKeys(records, AttendanceStudent);
    DistinctKeysSpec(records, AttendanceStudent);
    forall j | 0 <= j < |rows|
      ensures var mine := Where(records, AttendanceStudent, rows[j].studentId);
        && rows[j].total == rows[j].present + rows[j].absent == |mine|
        && rows[j].total >= 1
        && rows[j].present == CountPresent(mine)
        && rows[j].absent == CountAbsent(mine)
        && rows[j].percentage == Percentage(rows[j].present, rows[j].total)
        && 0.0 <= rows[j].percentage <= 100.0
    {
      WhereNonEmpty(records, AttendanceStudent, ks[j]);
      StatRowSound(ks[j], Where(records, AttendanceStudent, ks[j]));
    }
    forall i | 0 <= i < |attendance| && attendance[i].subject_id == subjectId
      ensures exists j :: 0 <= j < |rows| && rows[j].studentId == attendance[i].student_id
    {
      SubjectStatsComplete(attendance, subjectId, i);
    }
  }

  /** A row built from at least one event: its counts add up, and its percentage
      is `present / total * 100`, between 0 and 100. */
  lemma StatRowSound(studentId: string, mine: seq<Attendance>)
    requires |mine| >= 1
    ensures var r := StatRow(studentId, mine);
      && r.studentId == studentId
      && r.total == r.present + r.absent == |mine|
      && r.total >= 1
      && r.present == CountPresent(mine)
      && r.absent == CountAbsent(mine)
      && r.percentage == Percentage(r.present, r.total)
      && 0.0 <= r.percentage <= 100.0
  {
    PresentPlusAbsent(mine);
    PercentageRange(CountPresent(mine), |mine|);
  }

  /** Every student with an event for the subject has a statistics row. */
  lemma SubjectStatsComplete(attendance: seq<Attendance>, subjectId: string, i: nat)
    requires i < |attendance| && attendance[i].subject_id == subjectId
    ensures var rows := SubjectStats(attendance, subjectId);
      exists j :: 0 <= j < |rows| && rows[j].studentId == attendance[i].student_id
  {
    var rows := SubjectStats(attendance, subjectId);
    var records := Where(attendance, AttendanceSubject, subjectId);
    var ks := DistinctKeys(records, AttendanceStudent);
    DistinctKeysSpec(records, AttendanceStudent);
    WhereCount(attendance, AttendanceSubject, subjectId, attendance[i]);
    assert attendance[i] in multiset(attendance);
    assert attendance[i] in records;
    var m :| 0 <= m < |records| && records[m] == attendance[i];
    assert AttendanceStudent(records[m]) == attendance[i].student_id;
    assert attendance[i].student_id in ks;
    var j :| 0 <= j < |ks| && ks[j] == attendance[i].student_id;
    assert rows[j].studentId == ks[j];
  }


  /** A student's `{ present, absent }` counters. */
  datatype Tally = Tally(present: nat, absent: nat)

  function TallyOf(records: seq<Attendance>): Tally
  {
    Tally(CountPresent(records), CountAbsent(records))
  }

  /** `stats.present++` or `stats.absent++`, by the event's status. */
  function Bump(t: Tally, x: Attendance): (r: Tally)
    ensures r.present + r.absent == t.present + t.absent + 1
    ensures r.present >= t.present && r.absent >= t.absent
    ensures r.present > t.present <==> x.status == Present
  {
    if x.status == Present then t.(present := t.present + 1) else t.(absent := t.absent + 1)
  }

  /** The counter map after a pass over `records`, one event at a time. */
  function TallyMap(records: seq<Attendance>): (m: map<string, Tally>)
    ensures forall k :: k in m ==> 1 <= m[k].present + m[k].absent <= |records|
  {
    if records == [] then map[]
    else
      var m := TallyMap(records[..|records| - 1]);
      var x := records[|records| - 1];
      m[x.student_id := Bump(if x.student_id in m then m[x.student_id] else Tally(0, 0), x)]
  }

  /** The counter map has an entry for exactly the students with events, and each
      entry holds the present and absent counts of that student's events. */
  lemma {:induction false} TallyMapSpec(records: seq<Attendance>)
    ensures forall k :: k in TallyMap(records) <==> k in DistinctKeys(records, AttendanceStudent)
    ensures forall k :: k in TallyMap(records) ==>
      TallyMap(records)[k] == TallyOf(Where(records, AttendanceStudent, k))
  {
    if records != [] {
      var init, x := records[..|records| - 1], records[|records| - 1];
      assert records == init + [x];
      TallyMapSpec(init);
      DistinctKeysSnoc(init, x, AttendanceStudent);
      var m := TallyMap(init);
      forall k | k in TallyMap(records)
        ensures TallyMap(records)[k] == TallyOf(Where(records, AttendanceStudent, k))
      {
        var before := Where(init, AttendanceStudent, k);
        WhereSnoc(init, x, AttendanceStudent, k);
        if k == x.student_id {
          assert Where(records, AttendanceStudent, k) == before + [x];
          CountSnoc(before, x);
          if k !in m {
            DistinctKeysSpec(init, AttendanceStudent);
            WhereNone(init, AttendanceStudent, k);
          }
        } else {
          assert Where(records, AttendanceStudent, k) == before + [];
          assert before + [] == before;
        }
      }
    }
  }

  /** One step of the pass that fills `studentMap`: the counter map and the key
      order of the events seen so far, one event later. */
  lemma CountStep(records: seq<Attendance>, i: nat)
    requires i < |records|
    ensures var x := records[i];
      var m := TallyMap(records[..i]);
      TallyMap(records[..i + 1])
        == m[x.student_id := Bump(if x.student_id in m then m[x.student_id] else Tally(0, 0), x)]
    ensures var ks := DistinctKeys(records[..i], AttendanceStudent);
      DistinctKeys(records[..i + 1], AttendanceStudent)
        == if records[i].student_id in ks then ks else ks + [records[i].student_id]
  {
    assert records[..i + 1][..i] == records[..i];
    assert records[..i + 1] == records[..i] + [records[i]];
    DistinctKeysSnoc(records[..i], records[i], AttendanceStudent);
  }

  /** The `forEach` that fills `studentMap`: one pass over the events that bumps
      the present or absent counter of the event's student; `keys` is the map's
      key order (first insertion). */
  method CountByStudent(records: seq<Attendance>)
    returns (keys: seq<string>, counts: map<string, Tally>)
    ensures keys == DistinctKeys(records, AttendanceStudent)
    ensures forall k :: k in counts <==> k in keys
    ensures forall k :: k in keys ==> counts[k] == TallyOf(Where(records, AttendanceStudent, k))
  {
    keys, counts := [], map[];
    for i := 0 to |records|
      invariant keys == DistinctKeys(records[..i], AttendanceStudent)
      invariant forall k :: k in counts <==> k in keys
      invariant counts == TallyMap(records[..i])
    {
      CountStep(records, i);
      var record := records[i];
      var stats := if record.student_id in counts then counts[record.student_id] else Tally(0, 0);
      ghost var before := stats;
      if record.status == Present {
        stats := stats.(present := stats.present + 1);
      } else {
        stats := stats.(absent := stats.absent + 1);
      }
      assert stats == Bump(before, record);
      if record.student_id !in counts {
        keys := keys + [record.student_id];
      }
      counts := counts[record.student_id := stats];
    }
    assert records[..|records|] == records;
    TallyMapSpec(records);
  }


  /** `getAttendanceStatsBySubject`: count per student, then one row per map entry. */
  method BuildSubjectStats(attendance: seq<Attendance>, subjectId: string)
    returns (stats: seq<StudentStat>)
    ensures stats == SubjectStats(attendance, subjectId)
  {
    var records := Where(attendance, AttendanceSubject, subjectId);
    var keys, counts := CountByStudent(records);
    stats := StatEntries(records, keys, counts);
  }

  /** `Array.from(studentMap.entries()).map(...)`: one row per entry, in the
      map's key order. */
  method StatEntries(records: seq<Attendance>, keys: seq<string>, counts: map<string, Tally>)
    returns (stats: seq<StudentStat>)
    requires forall k :: k in keys ==> k in counts && counts[k] == TallyOf(Where(records, AttendanceStudent, k))
    ensures |stats| == |keys|
    ensures forall m :: 0 <= m < |keys| ==> stats[m] == StatRow(keys[m], Where(records, AttendanceStudent, keys[m]))
  {
    stats := [];
    for j := 0 to |keys|
      invariant |stats| == j
      invariant forall m :: 0 <= m < j ==>
        stats[m] == StatRow(keys[m], Where(records, AttendanceStudent, keys[m]))
    {
      var studentId := keys[j];
      stats := stats + [StatOf(studentId, counts[studentId])];
    }
  }


  // ---------------------------------------------------------------------
  // The ranking of all subjects.

  datatype SubjectSummary = SubjectSummary(
    subject: Subject, total_classes: nat, present_count: nat, percentage: real)

  function PercentageOf(s: SubjectSummary): real { s.percentage }

  /** One subject's attendance over all students. */
  function Summary(subject: Subject, attendance: seq<Attendance>): (r: SubjectSummary)
    ensures r.subject == subject
    ensures r.total_classes == |Where(attendance, AttendanceSubject, subject.subject_id)|
    ensures r.present_count <= r.total_classes
    ensures r.total_classes > 0 ==> r.percentage * r.total_classes as real == r.present_count as real * 100.0
  {
    var records := Where(attendance, AttendanceSubject, subject.subject_id);
    var present := CountPresent(records);
    SubjectSummary(subject, |records|, present, Percentage(present, |records|))
  }

  /** `subjects.map(...)`: the summaries in subject order. */
  function Summaries(subjects: seq<Subject>, attendance: seq<Attendance>): (r: seq<SubjectSummary>)
    ensures |r| == |subjects|
    ensures forall i :: 0 <= i < |r| ==> r[i].subject == subjects[i]
  {
    seq(|subjects|, i requires 0 <= i < |subjects| => Summary(subjects[i], attendance))
  }

  ghost predicate SortedDesc(s: seq<SubjectSummary>)
  {
    forall i, j :: 0 <= i < j < |s| ==> s[i].percentage >= s[j].percentage
  }

  /** Inserts `x` into a list sorted by descending percentage, after every
      element whose percentage is at least that of `x`. */
  function InsertDesc(sorted: seq<SubjectSummary>, x: SubjectSummary): (r: seq<SubjectSummary>)
    ensures |r| == |sorted| + 1
    ensures x in r
  {
    if sorted == [] then [x]
    else if sorted[0].percentage >= x.percentage then [sorted[0]] + InsertDesc(sorted[1..], x)
    else [x] + sorted
  }

  /** `sort((a, b) => b.percentage - a.percentage)`: a stable sort by descending
      percentage, as insertion of each element in turn. */
  function SortDesc(s: seq<SubjectSummary>): (r: seq<SubjectSummary>)
    ensures |r| == |s|
  {
    if s == [] then [] else InsertDesc(SortDesc(s[..|s| - 1]), s[|s| - 1])
  }

  lemma {:induction false} InsertDescPerm(sorted: seq<SubjectSummary>, x: SubjectSummary)
    ensures multiset(InsertDesc(sorted, x)) == multiset(sorted) + multiset{x}
  {
    if sorted != [] && sorted[0].percentage >= x.percentage {
      var rest := sorted[1..];
      InsertDescPerm(rest, x);
      assert InsertDesc(sorted, x) == [sorted[0]] + InsertDesc(rest, x);
      assert sorted == [sorted[0]] + rest;
      assert multiset(InsertDesc(sorted, x)) == multiset{sorted[0]} + multiset(InsertDesc(rest, x));
    }
  }


  lemma {:induction false} InsertDescFacts(sorted: seq<SubjectSummary>, x: SubjectSummary)
    requires SortedDesc(sorted)
    ensures multiset(InsertDesc(sorted, x)) == multiset(sorted) + multiset{x}
    ensures SortedDesc(InsertDesc(sorted, x))
  {
    InsertDescPerm(sorted, x);
    if sorted != [] && sorted[0].percentage >= x.percentage {
      var rest := sorted[1..];
      InsertDescFacts(rest, x);
      InsertDescBound(rest, x, sorted[0].percentage);
      ConsSorted(sorted[0], InsertDesc(rest, x));
    }
  }

  /** A bound on every element and on `x` bounds every element after insertion. */
  lemma InsertDescBound(s: seq<SubjectSummary>, x: SubjectSummary, v: real)
    requires x.percentage <= v
    requires forall m :: 0 <= m < |s| ==> s[m].percentage <= v
    ensures forall m :: 0 <= m < |InsertDesc(s, x)| ==> InsertDesc(s, x)[m].percentage <= v
  {
    var t := InsertDesc(s, x);
    InsertDescPerm(s, x);
    forall m | 0 <= m < |t| ensures t[m].percentage <= v {
      assert t[m] in multiset(s) + multiset{x};
      if t[m] != x {
        assert t[m] in s;
      }
    }
  }

  /** An element at least as large as every element of a sorted list heads a sorted list. */
  lemma ConsSorted(h: SubjectSummary, t: seq<SubjectSummary>)
    requires SortedDesc(t)
    requires forall m :: 0 <= m < |t| ==> t[m].percentage <= h.percentage
    ensures SortedDesc([h] + t)
  {
    var r := [h] + t;
    forall a, b | 0 <= a < b < |r| ensures r[a].percentage >= r[b].percentage {
      assert r[b] == t[b - 1];
      if a > 0 {
        assert r[a] == t[a - 1];
      }
    }
  }



  /** Insertion keeps the relative order of equal percentages: among the
      elements with percentage `v`, `x` comes last. */
  lemma {:induction false} InsertDescStable(sorted: seq<SubjectSummary>, x: SubjectSummary, v: real)
    requires SortedDesc(sorted)
    ensures Where(InsertDesc(sorted, x), PercentageOf, v)
         == Where(sorted, PercentageOf, v) + (if x.percentage == v then [x] else [])
  {
    WhereSingleton(x, PercentageOf, v);
    if sorted == [] {
    } else if sorted[0].percentage >= x.percentage {
      var rest := sorted[1..];
      assert sorted == [sorted[0]] + rest;
      InsertDescStable(rest, x, v);
      WhereAppend([sorted[0]], rest, PercentageOf, v);
      WhereAppend([sorted[0]], InsertDesc(rest, x), PercentageOf, v);
    } else {
      InsertFrontStable(sorted, x, v);
    }
  }

  /** An element larger than the head of a sorted list goes first, and no
      element of the list has its percentage. */
  lemma InsertFrontStable(sorted: seq<SubjectSummary>, x: SubjectSummary, v: real)
    requires SortedDesc(sorted)
    requires sorted != [] && sorted[0].percentage < x.percentage
    ensures Where([x] + sorted, PercentageOf, v)
         == Where(sorted, PercentageOf, v) + (if x.percentage == v then [x] else [])
  {
    WhereAppend([x], sorted, PercentageOf, v);
    WhereSingleton(x, PercentageOf, v);
    if x.percentage == v {
      forall i | 0 <= i < |sorted| ensures PercentageOf(sorted[i]) != v {
        assert sorted[i].percentage <= sorted[0].percentage;
      }
      WhereNone(sorted, PercentageOf, v);
    }
  }


  /** The ranking is sorted by descending percentage, is a permutation of the
      summaries, and keeps the original order among equal percentages. */
  lemma {:induction false} SortDescSpec(s: seq<SubjectSummary>, v: real)
    ensures SortedDesc(SortDesc(s))
    ensures multiset(SortDesc(s)) == multiset(s)
    ensures Where(SortDesc(s), PercentageOf, v) == Where(s, PercentageOf, v)
  {
    if s != [] {
      var init, x := s[..|s| - 1], s[|s| - 1];
      assert s == init + [x];
      SortDescSpec(init, v);
      InsertDescFacts(SortDesc(init), x);
      InsertDescStable(SortDesc(init), x, v);
      WhereSnoc(init, x, PercentageOf, v);
    }
  }

  datatype OverallStats = OverallStats(
    mostAttended: Option<SubjectSummary>, leastAttended: Option<SubjectSummary>,
    allSubjects: seq<SubjectSummary>)

  /** `getOverallStats()`: every subject's summary, ranked, with the first and
      the last of the ranking. */
  function Overall(subjects: seq<Subject>, attendance: seq<Attendance>): (r: OverallStats)
    ensures |r.allSubjects| == |subjects|
    ensures r.mostAttended.None? <==> |subjects| == 0
    ensures r.leastAttended.None? <==> |subjects| == 0
  {
    var all := SortDesc(Summaries(subjects, attendance));
    OverallStats(if |all| > 0 then Some(all[0]) else None,
                 if |all| > 0 then Some(all[|all| - 1]) else None,
                 all)
  }

  /** The ranking holds every subject's summary once, sorted by descending
      percentage; the most attended subject has the highest percentage and the
      least attended the lowest; they are the first and the last of the ranking,
      and both are absent exactly when there are no subjects. Each summary counts the subject's events. */
  lemma OverallSpec(subjects: seq<Subject>, attendance: seq<Attendance>)
    ensures var o := Overall(subjects, attendance);
      && multiset(o.allSubjects) == multiset(Summaries(subjects, attendance))
      && SortedDesc(o.allSubjects)
      && (o.mostAttended.None? <==> |subjects| == 0)
      && (o.leastAttended.None? <==> |subjects| == 0)
      && (|o.allSubjects| > 0 ==>
            o.mostAttended == Some(o.allSubjects[0])
            && o.leastAttended == Some(o.allSubjects[|o.allSubjects| - 1]))
      && (o.mostAttended.Some? ==>
            forall s :: s in o.allSubjects ==> o.mostAttended.value.percentage >= s.percentage)
      && (o.leastAttended.Some? ==>
            forall s :: s in o.allSubjects ==> o.leastAttended.value.percentage <= s.percentage)
      && (forall s :: s in o.allSubjects ==>
            var records := Where(attendance, AttendanceSubject, s.subject.subject_id);
            && s.subject in subjects
            && s.total_classes == |records|
            && s.present_count == CountPresent(records) <= s.total_classes
            && s.percentage == Percentage(s.present_count, s.total_classes)
            && 0.0 <= s.percentage <= 100.0)
  {
    var sums := Summaries(subjects, attendance);
    var all := SortDesc(sums);
    SortDescSpec(sums, 0.0);
    RankingLength(sums);
    RankingExtremes(all);
    forall s | s in all
      ensures var records := Where(attendance, AttendanceSubject, s.subject.subject_id);
        && s.subject in subjects
        && s.total_classes == |records|
        && s.present_count == CountPresent(records) <= s.total_classes
        && s.percentage == Percentage(s.present_count, s.total_classes)
        && 0.0 <= s.percentage <= 100.0
    {
      assert s in multiset(sums);
      var i :| 0 <= i < |sums| && sums[i] == s;
      PercentageRange(s.present_count, s.total_classes);
    }
  }

  lemma RankingLength(sums: seq<SubjectSummary>)
    ensures |SortDesc(sums)| == |sums|
  {
    SortDescSpec(sums, 0.0);
    assert |multiset(SortDesc(sums))| == |multiset(sums)|;
  }

  /** In a list sorted by descending percentage the first element has the
      highest percentage and the last the lowest. */
  lemma RankingExtremes(all: seq<SubjectSummary>)
    requires SortedDesc(all)
    ensures |all| > 0 ==> forall s :: s in all ==> all[0].percentage >= s.percentage
    ensures |all| > 0 ==> forall s :: s in all ==> all[|all| - 1].percentage <= s.percentage
  {
  }

  /** In counts: of two ranked subjects that both have classes, the earlier one
      has the larger share of attended classes, compared by cross-multiplying. */
  lemma RankingByCounts(subjects: seq<Subject>, attendance: seq<Attendance>, i: nat, j: nat)
    requires i < j < |subjects|
    requires var all := Overall(subjects, attendance).allSubjects;
      all[i].total_classes > 0 && all[j].total_classes > 0
    ensures var all := Overall(subjects, attendance).allSubjects;
      all[j].present_count * all[i].total_classes <= all[i].present_count * all[j].total_classes
  {
    OverallSpec(subjects, attendance);
    var all := Overall(subjects, attendance).allSubjects;
    var a, b := all[i], all[j];
    assert a in all && b in all;
    assert a.percentage >= b.percentage;
    PercentageOrder(b.present_count, b.total_classes, a.present_count, a.total_classes);
  }

  /** `getOverallStats`: summarise each subject in turn, then sort the summaries. */
  method BuildOverallStats(subjects: seq<Subject>, attendance: seq<Attendance>)
    returns (result: OverallStats)
    ensures result == Overall(subjects, attendance)
  {
    var stats := SummarizeAll(subjects, attendance);
    var sorted := RankDesc(stats);
    result := OverallStats(
      if |sorted| > 0 then Some(sorted[0]) else None,
      if |sorted| > 0 then Some(sorted[|sorted| - 1]) else None,
      sorted);
  }

  /** `subjects.map(...)`: one summary per subject, in subject order. */
  method SummarizeAll(subjects: seq<Subject>, attendance: seq<Attendance>)
    returns (stats: seq<SubjectSummary>)
    ensures stats == Summaries(subjects, attendance)
  {
    stats := [];
    for i := 0 to |subjects|
      invariant |stats| == i
      invariant forall m :: 0 <= m < i ==> stats[m] == Summary(subjects[m], attendance)
    {
      var subject := subjects[i];
      var records := Where(attendance, AttendanceSubject, subject.subject_id);
      var present := CountPresent(records);
      var total := |records|;
      stats := stats + [SubjectSummary(subject, total, present, Percentage(present, total))];
    }
  }

  /** `subjectStats.sort(...)`: each summary inserted in turn into the ranking. */
  method RankDesc(stats: seq<SubjectSummary>) returns (sorted: seq<SubjectSummary>)
    ensures sorted == SortDesc(stats)
  {
    sorted := [];
    for j := 0 to |stats|
      invariant sorted == SortDesc(stats[..j])
    {
      assert stats[..j + 1][..j] == stats[..j];
      sorted := InsertDesc(sorted, stats[j]);
    }
    assert stats[..|stats|] == stats;
  }

}
