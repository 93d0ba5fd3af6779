# College attendance store — a Dafny model

This project models the in-memory record store behind a college attendance
dashboard: the `DataService` class of `src/services/dataService.ts`, with the
record shapes of `src/types/index.ts`. The store keeps five tables (students,
faculty, subjects, timetable entries, attendance events) as mutable arrays,
seeded with sample rows. It offers the following:

- add, update (a partial-record merge) and delete by id on four of the tables;
- lookups by id and filtered reads;
- the attendance upsert `markAttendance`, keyed on (student, subject, date);
- three aggregations over the attendance log:
  - a student's report, one row per subject;
  - a subject's statistics, one row per student;
  - the ranking of all subjects by attendance percentage.

Layout, one module per file:

- `records.dfy` (`Records`) holds the following:
  - the record datatypes, with `Status` and `Day` as enumerations;
  - the "record without its id" inputs of the add operations;
  - the partial records (`...Patch`, every key optional, the id included) and the object-spread merge.
- `seqs.dfy` (`Seqs`) holds the array primitives the store uses, stated over sequences:
  - `findIndex` and `find` (first match);
  - `filter` (order-preserving selection);
  - `splice(i, 1)`;
  - the key order of a `Map` filled by one pass over an array (first insertion).
- `tables.dfy` (`Tables`) states the add / update / delete protocol once, for any table and id function. It also proves what each operation does to lookups and to the other rows.
- `attendance_log.dfy` (`AttendanceLog`) holds the upsert as a function of the log, the natural-key uniqueness invariant it keeps, and its properties.
- `queries.dfy` (`Queries`) holds the filtered reads, as functions of the table they read. The lookups by id are `Seqs.Find` on a table.
- `reports.dfy` (`Reports`) holds the three aggregations. Each is a specification function with its properties. Each also has a method with the source's loops (the `forEach` that fills a `Map`, the map over subjects, the sort) proved equal to that function.
- `mock_data.dfy` (`MockData`) holds the seed rows of `src/services/mockData.ts` and the proof that the seed log satisfies the store invariant.
- `data_service.dfy` (`Service`) holds the class `DataService`:
  - one `seq` field per table;
  - the invariant `Valid()` (no two attendance events share a student, subject and date);
  - the constructor that seeds the tables;
  - the state-changing operations, each proved against the functions of `Tables` and `AttendanceLog`.

Generated ids are `prefix + Date.now()` in the source. Here the clock reading is the parameter `now` (its decimal text), and the prefixes "s", "f", "sub", "t" and "a" are constants. Nothing requires the id to be unused. Instead, the add operations state what a lookup finds when it is new and when it collides with an existing row.

Percentages are exact reals, `present / total * 100`, and 0 when there are no classes.

## Model

| member | source | states |
|---|---|---|
| Records.DayName | src/types/index.ts:32 | every stored day name is at least six characters long and ends in "day" |
| Records.DayNameInjective | src/types/index.ts:32 | two days have the same stored name exactly when they are the same day |
| Records.WithStudentId | src/services/dataService.ts:19-26 | the new student carries the given id and every field of the input |
| Records.WithFacultyId | src/services/dataService.ts:50-57 | the new faculty member carries the given id and every field of the input |
| Records.WithSubjectId | src/services/dataService.ts:89-96 | the new subject carries the given id and every field of the input |
| Records.WithTimetableId | src/services/dataService.ts:128-135 | the new timetable entry carries the given id and every field of the input |
| Records.WithAttendanceId | src/services/dataService.ts:167-171 | the new attendance event carries the given id and every field of the input |
| Records.Override | src/services/dataService.ts:31 | a key the partial record carries replaces the row's value; a key it lacks keeps it |
| Records.MergeAttendance | src/services/dataService.ts:161-163 | spreading the input over an existing event keeps its attendance id, takes student, subject, date and status from the input, and takes the marker only when the input has one |
| Records.MergeStudent | src/services/dataService.ts:31 | `{ ...row, ...data }` on a student: each key the partial record carries takes its value, each key it lacks keeps the row's |
| Records.MergeFaculty | src/services/dataService.ts:62 | the same spread on a faculty member, key by key |
| Records.MergeSubject | src/services/dataService.ts:101 | the same spread on a subject, key by key |
| Records.MergeTimetable | src/services/dataService.ts:140 | the same spread on a timetable entry, key by key |
| Records.MergeEmptyIsIdentity | src/services/dataService.ts:31 | merging a partial record with no keys leaves each kind of row unchanged |
| Records.MergeIdempotent | src/services/dataService.ts:31 | merging the same partial record twice equals merging it once |
| Records.MergeKeepsId | src/services/dataService.ts:31 | a partial record without the id key keeps the row's id |
| Seqs.FindIndex | src/services/dataService.ts:29 | the result is -1 exactly when no row has the key, and otherwise is the index of the first row with the key |
| Seqs.Find | src/services/dataService.ts:15-17 | `find`, and so `getStudentById` (also `getFacultyById` at lines 46-48 and `getSubjectById` at lines 77-79): the result is the first row with the key, and nothing exactly when no row has it |
| Seqs.Filter | src/services/dataService.ts:82 | every kept row satisfies the predicate, and no more rows are kept than there are |
| Seqs.FilterAppend | src/services/dataService.ts:82 | filtering keeps table order: filtering two parts of a table is filtering the first, then the second |
| Seqs.FilterCount | src/services/dataService.ts:82 | every qualifying row is kept exactly as often as it occurs, and no other row is kept |
| Seqs.FilterMembers | src/services/dataService.ts:82 | a value is kept exactly when it is a row and satisfies the predicate |
| Seqs.FilterAll | src/services/dataService.ts:82 | a filter that every row passes returns the table unchanged |
| Seqs.Where | src/services/dataService.ts:175-181 | every selected row carries the key (a filter on one key value) |
| Seqs.WhereNone | src/services/dataService.ts:175-177 | selecting a key no row has yields nothing |
| Seqs.RemoveAt | src/services/dataService.ts:38 | `splice(i, 1)` shortens the table by one, keeps the rows before i, shifts the rows after it down by one, and removes exactly one copy of row i |
| Seqs.DistinctKeys | src/services/dataService.ts:189-197 | a `Map` filled by one pass over the rows has no more keys than there are rows, and no keys exactly when there are no rows |
| Seqs.DistinctKeysSpec | src/services/dataService.ts:189-197 | a `Map` filled by one pass over the rows has each key once, and has exactly the keys some row carries |
| Seqs.DistinctKeysSnoc | src/services/dataService.ts:189-194 | one more row adds its key at the end of the map's key order exactly when the key is new |
| Seqs.WhereNonEmpty | src/services/dataService.ts:189-197 | every key of the map has at least one row |
| Tables.Added | src/services/dataService.ts:24 | `push` keeps every earlier row and puts the new row last |
| Tables.Updated | src/services/dataService.ts:28-31 | an update keeps the length of the table, and changes no row whose id is another one |
| Tables.UpdateResult | src/services/dataService.ts:28-32 | an update returns null exactly when no row has the id; otherwise it returns a row of the updated table |
| Tables.Deleted | src/services/dataService.ts:35-38 | a delete shortens the table by one exactly when some row has the id, and adds no row |
| Tables.HasKey | src/services/dataService.ts:35-39 | a delete reports true exactly when some row carries the id |
| Tables.FindAfterAdd | src/services/dataService.ts:19-26 | after an add, a lookup of the new id finds the new row, unless an earlier row already had that id |
| Tables.FindOtherAfterAdd | src/services/dataService.ts:19-26 | an add does not change the lookup of any other id |
| Tables.UpdateAbsent | src/services/dataService.ts:28-30 | updating an id no row has returns null and leaves the table unchanged |
| Tables.UpdatePresent | src/services/dataService.ts:28-33 | updating a present id replaces the first row with that id by the merged row, returns it, and leaves every other row and the length unchanged |
| Tables.FindAfterUpdate | src/services/dataService.ts:28-33 | when the merge keeps the id, a lookup after the update finds the returned row |
| Tables.DeleteAbsent | src/services/dataService.ts:35-37 | deleting an id no row has returns false and leaves the table unchanged |
| Tables.DeletePresent | src/services/dataService.ts:35-40 | deleting a present id returns true and removes exactly the first row with that id; the rows before and after it stay in order |
| Tables.DeleteCount | src/services/dataService.ts:35-40 | a delete removes exactly one of the rows carrying the id |
| Tables.DeleteOthers | src/services/dataService.ts:35-40 | a delete leaves the rows of every other id as they were, in order |
| AttendanceLog.Marked | src/services/dataService.ts:155-172 | marking keeps the length when an event has the key and grows the log by one otherwise; events of other keys stay at their places; afterwards some event has the key |
| AttendanceLog.MarkResult | src/services/dataService.ts:155-172 | the returned event has the marked student, subject and date and the given status, and is in the log after marking |
| AttendanceLog.MarkExisting | src/services/dataService.ts:155-165 | marking a key already in the log overwrites that event in place: the length is unchanged, the event keeps its attendance id and takes the new status (and the new marker if given), and no other event changes |
| AttendanceLog.MarkNew | src/services/dataService.ts:167-172 | marking a new key appends exactly one event with the new id at the end and keeps every earlier event in order |
| AttendanceLog.MarkKeepsKeysUnique | src/services/dataService.ts:155-172 | marking keeps the invariant that no two events share a student, subject and date |
| AttendanceLog.UniqueKeySelectsOne | src/services/dataService.ts:155-159 | in a log with unique keys, a key selects at most one event, and exactly one when some event has it |
| AttendanceLog.MarkOtherKeys | src/services/dataService.ts:155-172 | marking leaves the events of every other key unchanged |
| AttendanceLog.MarkSelectsOne | src/services/dataService.ts:155-172 | after marking, the log holds exactly one event with the marked key, the returned one |
| AttendanceLog.MarkTwice | src/services/dataService.ts:155-172 | marking the same key twice leaves one event for it holding the second status, and grows the log by at most one |
| Queries.SubjectsByDepartment | src/services/dataService.ts:81-83 | every subject of the department, as often as it occurs in the table, and no other subject |
| Queries.SubjectsByFaculty | src/services/dataService.ts:85-87 | every subject of the faculty member, as often as it occurs in the table, and no other subject |
| Queries.TimetableByDepartment | src/services/dataService.ts:116-120 | every entry of the department and, when a year is given, of that year (an absent year matches all), and nothing else |
| Queries.TimetableByDay | src/services/dataService.ts:122-126 | every entry whose stored day string is the given one and, when a department is given, of that department, and nothing else |
| Queries.TimetableByDayName | src/services/dataService.ts:122-126 | asking by a day's name selects exactly the entries on that day |
| Queries.TimetableByUnknownDay | src/services/dataService.ts:122-126 | a string that names no day selects nothing |
| Queries.AttendanceByStudent | src/services/dataService.ts:175-177 | every event of the student, as often as it occurs in the log, and no other event |
| Queries.AttendanceBySubject | src/services/dataService.ts:179-181 | every event of the subject, as often as it occurs in the log, and no other event |
| Queries.FilteredReadsKeepOrder | src/services/dataService.ts:116-126 | the timetable reads keep table order: reading a table made of two parts reads the first part, then the second |
| Reports.CountPresent | src/services/dataService.ts:202 | the present count is at most the number of events |
| Reports.CountAbsent | src/services/dataService.ts:203 | the absent count is at most the number of events |
| Reports.PresentPlusAbsent | src/services/dataService.ts:201-203 | present and absent counts add up to the number of events |
| Reports.Percentage | src/services/dataService.ts:204 | a percentage is never negative, times the total it gives 100 times the present count, and it is 0 without classes |
| Reports.PercentageRange | src/services/dataService.ts:204 | a percentage of at most `total` classes lies in [0, 100], is 100 exactly when all were attended, is 0 exactly when none were, and is 0 without classes |
| Reports.PercentageOrder | src/services/dataService.ts:248 | percentages order like the cross-multiplied counts |
| Reports.ReportRow | src/services/dataService.ts:201-213 | a report row is about the given student and subject, counts total, present and absent events with present + absent = total, and carries their percentage |
| Reports.ReportRows | src/services/dataService.ts:197-214 | the loop over the map entries makes at most one row per subject id, each for the given student |
| Reports.Report | src/services/dataService.ts:183-216 | every report row is about the student asked for, and there are no more rows than that student has events |
| Reports.ReportRowsSound | src/services/dataService.ts:197-214 | every report row is about the student and a subject id of the student's events, with present + absent = total >= 1 and the exact percentage |
| Reports.ReportRowsDistinct | src/services/dataService.ts:197-214 | no subject has two report rows |
| Reports.ReportRowsComplete | src/services/dataService.ts:197-214 | every subject id of the student's events that resolves to a subject has a report row |
| Reports.ReportUnknownStudent | src/services/dataService.ts:183-187 | the report of a student who is not in the table is empty |
| Reports.ReportNoEvents | src/services/dataService.ts:183-216 | the report of a student without events is empty |
| Reports.ReportSpec | src/services/dataService.ts:183-216 | every row is the student's and counts that student's events for one resolving subject; no subject has two rows; every resolving subject of the student's events has a row |
| Reports.GroupBySubject | src/services/dataService.ts:189-194 | the loop fills the map with exactly the subject ids of the events, in first-event order, each holding that subject's events in log order |
| Reports.BuildReport | src/services/dataService.ts:183-216 | the method with the source's loops computes the report function |
| Reports.ReportEntries | src/services/dataService.ts:196-214 | the loop over the map's entries makes, in key order, one row per subject id that resolves, counting that subject's events |
| Reports.SubjectStats | src/services/dataService.ts:219-238 | there are no more rows than events of the subject, and no rows exactly when the subject has no events |
| Reports.StatRow | src/services/dataService.ts:233-238 | a student's row carries the student id, the number of that student's events as total, and the present and absent counts of those events |
| Reports.StatOf | src/services/dataService.ts:233-238 | a row built from a counter keeps its counts, totals them, and carries their percentage |
| Reports.Bump | src/services/dataService.ts:224-230 | one event adds one to exactly one counter, the present counter exactly when the event is present |
| Reports.TallyMap | src/services/dataService.ts:223-231 | every counter of the map counts at least one and at most all of the events |
| Reports.SubjectStatsSpec | src/services/dataService.ts:219-238 | every row counts one student's events for the subject, with present + absent = total >= 1 and percentage = present / total * 100, in [0, 100]; no student has two rows; every student with an event for the subject has a row |
| Reports.StatRowSound | src/services/dataService.ts:233-238 | a row made from at least one event has present + absent = total >= 1 and percentage = present / total * 100, in [0, 100] |
| Reports.SubjectStatsComplete | src/services/dataService.ts:219-238 | every student with an event for the subject has a statistics row |
| Reports.TallyMapSpec | src/services/dataService.ts:223-231 | the counter map has an entry for exactly the students with events, each holding the present and absent counts of that student's events |
| Reports.CountByStudent | src/services/dataService.ts:223-231 | the counting loop produces, in first-event order, one counter per student that counts that student's present and absent events |
| Reports.StatEntries | src/services/dataService.ts:233-238 | the map over the counter entries makes one row per student, in key order, from that student's counts |
| Reports.BuildSubjectStats | src/services/dataService.ts:219-238 | the method with the source's loops computes the statistics function |
| Reports.Summary | src/services/dataService.ts:244-255 | a subject's summary is about that subject, totals its events, has no more present than total, and carries their percentage |
| Reports.Summaries | src/services/dataService.ts:243-256 | one summary per subject, in subject order |
| Reports.InsertDesc | src/services/dataService.ts:259 | inserting adds one element, the inserted one |
| Reports.SortDesc | src/services/dataService.ts:259 | sorting keeps the number of summaries |
| Reports.InsertDescFacts | src/services/dataService.ts:259 | inserting into a list sorted by descending percentage keeps it sorted and adds exactly the one element |
| Reports.InsertDescPerm | src/services/dataService.ts:259 | inserting adds exactly the one element and loses none |
| Reports.InsertDescStable | src/services/dataService.ts:259 | among the elements with one percentage, an inserted element comes after those already there |
| Reports.SortDescSpec | src/services/dataService.ts:259 | the ranking is sorted by descending percentage, is a permutation of the summaries, and keeps the original order among equal percentages |
| Reports.Overall | src/services/dataService.ts:241-266 | the ranking has one summary per subject, and most and least attended are null exactly when there are no subjects |
| Reports.OverallSpec | src/services/dataService.ts:241-266 | the ranking holds every subject's summary once, sorted by descending percentage; most and least attended are its first and last (highest and lowest percentage), and are null exactly when there are no subjects; each summary counts that subject's events |
| Reports.RankingLength | src/services/dataService.ts:259 | sorting keeps the number of summaries |
| Reports.RankingExtremes | src/services/dataService.ts:261-264 | in a ranking, the first summary has the highest percentage and the last the lowest |
| Reports.RankingByCounts | src/services/dataService.ts:259 | of two ranked subjects with classes, the earlier has the larger share of attended classes, compared by cross-multiplying the counts |
| Reports.BuildOverallStats | src/services/dataService.ts:241-266 | the method with the source's loops computes the ranking function |
| Reports.SummarizeAll | src/services/dataService.ts:243-256 | the map over the subjects makes one summary per subject, in subject order |
| Reports.RankDesc | src/services/dataService.ts:259 | the sort yields the stable descending ranking of the summaries |
| MockData.SeedKeysUnique | src/services/mockData.ts:159-232 | the sample attendance log has no two events for the same student, subject and date |
| Service.DataService.constructor | src/services/dataService.ts:5-9 | the store starts with copies of the sample tables and satisfies its invariant |
| Service.DataService.AddStudent | src/services/dataService.ts:19-26 | appends the student with id "s" + clock and returns it; a lookup of that id then finds it unless it was already taken |
| Service.DataService.UpdateStudent | src/services/dataService.ts:28-33 | merges the patch into the first student with the id and returns it, or returns null and changes nothing; with the id kept, a lookup finds the returned row |
| Service.DataService.DeleteStudent | src/services/dataService.ts:35-40 | returns whether the id was present, and removes one student with it; students with other ids stay in order |
| Service.DataService.AddFaculty | src/services/dataService.ts:50-57 | appends the faculty member with id "f" + clock and returns it; a lookup of that id then finds it unless it was already taken |
| Service.DataService.UpdateFaculty | src/services/dataService.ts:59-64 | merges the patch into the first faculty member with the id and returns it, or returns null and changes nothing |
| Service.DataService.DeleteFaculty | src/services/dataService.ts:66-71 | returns whether the id was present, and removes one faculty member with it; the others stay in order |
| Service.DataService.AddSubject | src/services/dataService.ts:89-96 | appends the subject with id "sub" + clock and returns it; a lookup of that id then finds it unless it was already taken |
| Service.DataService.UpdateSubject | src/services/dataService.ts:98-103 | merges the patch into the first subject with the id and returns it, or returns null and changes nothing |
| Service.DataService.DeleteSubject | src/services/dataService.ts:105-110 | returns whether the id was present, and removes one subject with it; the others stay in order |
| Service.DataService.AddTimetable | src/services/dataService.ts:128-135 | appends the entry with id "t" + clock and returns it; a lookup of that id then finds it unless it was already taken |
| Service.DataService.UpdateTimetable | src/services/dataService.ts:137-142 | merges the patch into the first entry with the id and returns it, or returns null and changes nothing |
| Service.DataService.DeleteTimetable | src/services/dataService.ts:144-149 | returns whether the id was present, and removes one entry with it; the others stay in order |
| Service.DataService.MarkAttendance | src/services/dataService.ts:155-173 | upserts the event on its natural key, keeps the invariant, and leaves exactly one event for that key, the one returned |

## Left out

- Floating-point rounding and formatting are left out. `Math.round(x * 100) / 100` (src/services/dataService.ts:212, 254) and `toFixed(2)` (src/services/dataService.ts:237) are not modelled. Percentages are exact reals, and the per-subject statistics percentage is a number, not a string.
- Reports.SortDesc compares exact percentages. The source sorts on the rounded ones (src/services/dataService.ts:259), so two subjects whose percentages round to the same value may be ranked differently.
- Reports.RankDesc sorts by inserting into a new sequence. It does not sort the array in place; the order it produces is that of a stable sort, which `Array.prototype.sort` is.
- Reports.BuildSubjectStats computes the percentage with the guarded Percentage function. The source divides unguarded, but SubjectStatsSpec proves that every row's total is at least 1, so the two agree.
- `Date.now()` is the `now` parameter. Nothing constrains it: successive calls may receive the same reading, as they can in the source.
- `async` / `Promise` and `Promise.all` are left out. Every operation is synchronous, and no two run interleaved.
- The plain getters `getStudents`, `getFaculty`, `getSubjects`, `getTimetable` and `getAttendance` are left out. They hand out the live arrays, and the aliasing this allows (a caller mutating the store's array) is not modelled. The fields of `DataService` are that state. Aliasing of single rows is not modelled either: `getStudentById` and the other lookups, the add and update operations and `markAttendance` return the row object that stays in the table (src/services/dataService.ts:16, 25, 32, 164, 172), and a caller that mutates it changes the store; here rows are values.
- The read operations and the reports are functions (and module-level methods) of the tables they read. They are not methods of the class.
- `created_at` is left out. The in-memory store never sets it.
- The `User` and `UserRole` types (src/types/index.ts:59-66), the React components and `src/App.tsx` are not part of this model.
- The concrete contents of the sample tables are modelled as constants. Only the attendance log's invariant is proved about them, not any report computed from them.
