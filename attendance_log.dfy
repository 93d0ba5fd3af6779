/** The attendance log and its upsert. An attendance event is identified by
    its natural key (student, subject, date); marking attendance for a key
    that is already in the log overwrites that event in place, and marking
    it for a new key appends a new event. */
module AttendanceLog {
  import opened Records
  import opened Seqs

  datatype NaturalKey = NaturalKey(student_id: string, subject_id: string, date: string)

  function KeyOf(a: Attendance): NaturalKey
  {
    NaturalKey(a.student_id, a.subject_id, a.date)
  }

  function InputKey(n: NewAttendance): NaturalKey
  {
    NaturalKey(n.student_id, n.subject_id, n.date)
  }

  /** No two events of the log share a natural key. */
  ghost predicate KeysUnique(log: seq<Attendance>)
  {
    forall i, j :: 0 <= i < j < |log| ==> KeyOf(log[i]) != KeyOf(log[j])
  }

  /** The log after marking attendance `n`; `id` is the id a new event gets. */
  function Marked(log: seq<Attendance>, n: NewAttendance, id: string): (r: seq<Attendance>)
    ensures |r| == if exists i :: 0 <= i < |log| && KeyOf(log[i]) == InputKey(n) then |log| else |log| + 1
    ensures forall j :: 0 <= j < |log| && KeyOf(log[j]) != InputKey(n) ==> r[j] == log[j]
    ensures exists j :: 0 <= j < |r| && KeyOf(r[j]) == InputKey(n)
  {
    var i := FindIndex(log, KeyOf, InputKey(n));
    if i == -1 then
      var r := log + [WithAttendanceId(n, id)];
      assert KeyOf(r[|log|]) == InputKey(n);
      r
    else
      var r := log[i := MergeAttendance(log[i], n)];
      assert KeyOf(r[i]) == InputKey(n);
      r
  }

  /** The event that marking attendance returns: the overwritten event or the new one. */
  function MarkResult(log: seq<Attendance>, n: NewAttendance, id: string): (r: Attendance)
    ensures KeyOf(r) == InputKey(n) && r.status == n.status
    ensures r in Marked(log, n, id)
  {
    var i := FindIndex(log, KeyOf, InputKey(n));
    if i == -1 then WithAttendanceId(n, id) else MergeAttendance(log[i], n)
  }

  /** Marking a key that is in the log overwrites that event in place: the
      log keeps its length, the event keeps its attendance id and takes the new
      status (and the new marker, if one is given), and no other event changes. */
  lemma MarkExisting(log: seq<Attendance>, n: NewAttendance, id: string)
    requires exists i :: 0 <= i < |log| && KeyOf(log[i]) == InputKey(n)
    ensures var i := FindIndex(log, KeyOf, InputKey(n));
      && 0 <= i < |log|
      && |Marked(log, n, id)| == |log|
      && Marked(log, n, id)[i] == MarkResult(log, n, id)
      && MarkResult(log, n, id).attendance_id == log[i].attendance_id
      && MarkResult(log, n, id).status == n.status
      && MarkResult(log, n, id).marked_by
         == (if n.marked_by.Some? then n.marked_by else log[i].marked_by)
      && (forall j :: 0 <= j < |log| && j != i ==> Marked(log, n, id)[j] == log[j])
  {
  }

  /** Marking a key that is not in the log appends exactly one new event with
      the given id and keeps every earlier event, in order. */
  lemma MarkNew(log: seq<Attendance>, n: NewAttendance, id: string)
    requires forall i :: 0 <= i < |log| ==> KeyOf(log[i]) != InputKey(n)
    ensures |Marked(log, n, id)| == |log| + 1
    ensures Marked(log, n, id)[..|log|] == log
    ensures Marked(log, n, id)[|log|] == MarkResult(log, n, id)
    ensures MarkResult(log, n, id).attendance_id == id
  {
    assert (log + [WithAttendanceId(n, id)])[..|log|] == log;
  }

  /** Marking attendance keeps the natural keys of the log unique. */
  lemma MarkKeepsKeysUnique(log: seq<Attendance>, n: NewAttendance, id: string)
    requires KeysUnique(log)
    ensures KeysUnique(Marked(log, n, id))
  {
    var m := Marked(log, n, id);
    var i := FindIndex(log, KeyOf, InputKey(n));
    forall a, b | 0 <= a < b < |m| ensures KeyOf(m[a]) != KeyOf(m[b]) {
      if i == -1 {
        if b == |log| {
          assert m[a] == log[a];
        } else {
          assert m[a] == log[a] && m[b] == log[b];
        }
      } else {
        assert KeyOf(m[i]) == KeyOf(log[i]);
        assert KeyOf(m[a]) == KeyOf(log[a]) && KeyOf(m[b]) == KeyOf(log[b]);
      }
    }
  }

  /** In a log whose keys are unique, a key selects at most one event. */
  lemma {:induction false} UniqueKeySelectsOne(log: seq<Attendance>, k: NaturalKey)
    requires KeysUnique(log)
    ensures |Where(log, KeyOf, k)| <= 1
    ensures (exists i :: 0 <= i < |log| && KeyOf(log[i]) == k) ==> |Where(log, KeyOf, k)| == 1
  {
    if log != [] {
      var init, x := log[..|log| - 1], log[|log| - 1];
      assert log == init + [x];
      UniqueKeySelectsOne(init, k);
      WhereSnoc(init, x, KeyOf, k);
      if KeyOf(x) == k {
        forall j | 0 <= j < |init| ensures KeyOf(init[j]) != k {
          assert KeyOf(log[j]) != KeyOf(log[|log| - 1]);
        }
        WhereNone(init, KeyOf, k);
      } else if exists i :: 0 <= i < |log| && KeyOf(log[i]) == k {
        var i :| 0 <= i < |log| && KeyOf(log[i]) == k;
        assert KeyOf(init[i]) == k;
      }
    }
  }

  /** Marking attendance leaves the events of every other natural key as they were. */
  lemma MarkOtherKeys(log: seq<Attendance>, n: NewAttendance, id: string, k: NaturalKey)
    requires k != InputKey(n)
    ensures Where(Marked(log, n, id), KeyOf, k) == Where(log, KeyOf, k)
  {
    var i := FindIndex(log, KeyOf, InputKey(n));
    if i == -1 {
      assert Marked(log, n, id) == log + [WithAttendanceId(n, id)];
      WhereSnoc(log, WithAttendanceId(n, id), KeyOf, k);
    } else {
      assert Marked(log, n, id) == log[i := MergeAttendance(log[i], n)];
      WhereOverwrite(log, i, MergeAttendance(log[i], n), k);
    }
  }

  /** Overwriting an event of another key with one of another key leaves the
      events of key `k` as they were. */
  lemma WhereOverwrite(log: seq<Attendance>, i: nat, x: Attendance, k: NaturalKey)
    requires i < |log| && KeyOf(log[i]) != k && KeyOf(x) != k
    ensures Where(log[i := x], KeyOf, k) == Where(log, KeyOf, k)
  {
    var m := log[i := x];
    assert m == log[..i] + [x] + log[i + 1..];
    assert log == log[..i] + [log[i]] + log[i + 1..];
    WhereAppend(log[..i] + [x], log[i + 1..], KeyOf, k);
    WhereAppend(log[..i] + [log[i]], log[i + 1..], KeyOf, k);
    WhereSnoc(log[..i], x, KeyOf, k);
    WhereSnoc(log[..i], log[i], KeyOf, k);
  }

  /** After marking, the log holds exactly one event with the marked key, and it
      is the event that marking returned. */
  lemma MarkSelectsOne(log: seq<Attendance>, n: NewAttendance, id: string)
    requires KeysUnique(log)
    ensures Where(Marked(log, n, id), KeyOf, InputKey(n)) == [MarkResult(log, n, id)]
  {
    var m := Marked(log, n, id);
    var r := MarkResult(log, n, id);
    MarkKeepsKeysUnique(log, n, id);
    var j :| 0 <= j < |m| && m[j] == r;
    UniqueKeySelectsOne(m, InputKey(n));
    WhereMembers(m, KeyOf, InputKey(n));
    assert r in Where(m, KeyOf, InputKey(n));
  }

  /** Marking the same key twice leaves one event for that key, holding the
      second status, and adds at most one event to the log. */
  lemma MarkTwice(log: seq<Attendance>, n1: NewAttendance, id1: string, n2: NewAttendance, id2: string)
    requires KeysUnique(log)
    requires InputKey(n1) == InputKey(n2)
    ensures var twice := Marked(Marked(log, n1, id1), n2, id2);
      && KeysUnique(twice)
      && |Where(twice, KeyOf, InputKey(n2))| == 1
      && Where(twice, KeyOf, InputKey(n2))[0].status == n2.status
      && |twice| == |Marked(log, n1, id1)| <= |log| + 1
  {
    var once := Marked(log, n1, id1);
    MarkKeepsKeysUnique(log, n1, id1);
    MarkKeepsKeysUnique(once, n2, id2);
    MarkSelectsOne(once, n2, id2);
    var r1 := MarkResult(log, n1, id1);
    var j :| 0 <= j < |once| && once[j] == r1;
    assert KeyOf(once[j]) == InputKey(n2);
  }
}
