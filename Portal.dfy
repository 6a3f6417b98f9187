/**
 * The teacher portal page: the module-level `students` table, the default "Absent"
 * status, today's attendance laid over it, the home-page statistics, the section list,
 * the attendance table of one section, per-student status changes and the student forms.
 *
 * A student's `status` is the empty string while the page has not given it one (the
 * source only tests it for truthiness, so `undefined`, `null` and "" behave alike).
 */
module Portal {
  import opened Wrappers
  import opened Text

  datatype Student = Student(
    id: int,
    firstName: string,
    lastName: string,
    contactNo: string,
    course: string,
    section: string,
    status: string)

  /** One row of `GET /attendance/<today>` as the page reads it. */
  datatype AttendanceRecord = AttendanceRecord(studentId: int, status: string)

  // ---------------------------------------------------------------------------
  // Lookups
  // ---------------------------------------------------------------------------

  /** `students.find(s => s.id === id)`, as the index of the first student with that id. */
  function FindStudent(students: seq<Student>, id: int): (r: Option<nat>)
    ensures r.Some? ==> r.value < |students| && students[r.value].id == id
    ensures r.Some? ==> forall j :: 0 <= j < r.value ==> students[j].id != id
    ensures r.None? <==> forall j :: 0 <= j < |students| ==> students[j].id != id
  {
    if |students| == 0 then None
    else if students[0].id == id then Some(0)
    else match FindStudent(students[1..], id)
      case None => None
      case Some(k) => Some(k + 1)
  }

  /** Two tables with the same ids position by position answer every lookup alike. */
  lemma {:induction false} FindStudentSameIds(a: seq<Student>, b: seq<Student>, id: int)
    requires |a| == |b|
    requires forall j :: 0 <= j < |a| ==> a[j].id == b[j].id
    ensures FindStudent(a, id) == FindStudent(b, id)
  {
    if |a| > 0 && a[0].id != id {
      FindStudentSameIds(a[1..], b[1..], id);
    }
  }

  /** `attendanceRecords.find(a => a.studentId === id)`: the index of the FIRST record for `id`. */
  function FirstRecord(records: seq<AttendanceRecord>, id: int): (r: Option<nat>)
    ensures r.Some? ==> r.value < |records| && records[r.value].studentId == id
    ensures r.Some? ==> forall j :: 0 <= j < r.value ==> records[j].studentId != id
    ensures r.None? <==> forall j :: 0 <= j < |records| ==> records[j].studentId != id
  {
    if |records| == 0 then None
    else if records[0].studentId == id then Some(0)
    else match FirstRecord(records[1..], id)
      case None => None
      case Some(k) => Some(k + 1)
  }

  /** The status the overlay leaves for `id`: that of the LAST record naming it. */
  function LastRecordStatus(records: seq<AttendanceRecord>, id: int): (r: Option<string>)
    ensures r.None? <==> forall j :: 0 <= j < |records| ==> records[j].studentId != id
    ensures r.Some? ==> exists i :: 0 <= i < |records| && records[i].studentId == id && records[i].status == r.value
                                    && forall j :: i < j < |records| ==> records[j].studentId != id
  {
    if |records| == 0 then None
    else if records[|records| - 1].studentId == id then Some(records[|records| - 1].status)
    else LastRecordStatus(records[..|records| - 1], id)
  }

  // ---------------------------------------------------------------------------
  // Loading: default status and today's overlay
  // ---------------------------------------------------------------------------

  /** The table after `if(!s.status) s.status = "Absent"` has run over every student. */
  function WithDefaultStatus(students: seq<Student>): (r: seq<Student>)
    ensures |r| == |students|
    ensures forall i :: 0 <= i < |r| ==> r[i].status != "" && r[i] == students[i].(status := r[i].status)
    ensures forall i :: 0 <= i < |r| && students[i].status != "" ==> r[i] == students[i]
    ensures forall i :: 0 <= i < |r| && students[i].status == "" ==> r[i].status == "Absent"
  {
    seq(|students|, i requires 0 <= i < |students| =>
      if students[i].status == "" then students[i].(status := "Absent") else students[i])
  }

  /** One step of the overlay, and also what `setStatus(id, status)` does to the table:
      the first student with the record's id takes its status; nothing else changes. */
  function ApplyRecord(students: seq<Student>, rec: AttendanceRecord): (r: seq<Student>)
    ensures |r| == |students|
    ensures FindStudent(students, rec.studentId).None? ==> r == students
    ensures FindStudent(students, rec.studentId).Some? ==> r[FindStudent(students, rec.studentId).value].status == rec.status
    ensures forall j :: 0 <= j < |r| ==> r[j] == students[j].(status := r[j].status)
    ensures forall j :: 0 <= j < |r| && Some(j) != FindStudent(students, rec.studentId) ==> r[j] == students[j]
  {
    match FindStudent(students, rec.studentId)
    case None => students
    case Some(i) => students[i := students[i].(status := rec.status)]
  }

  /** `attendanceRecords.forEach(record => { ... student.status = record.status })`. */
  function Overlay(students: seq<Student>, records: seq<AttendanceRecord>): (r: seq<Student>)
    ensures |r| == |students|
    decreases |records|
  {
    if |records| == 0 then students
    else ApplyRecord(Overlay(students, records[..|records| - 1]), records[|records| - 1])
  }

  /** What the overlay does to student `i`: if `i` is the first student with its id and some
      record names that id, the status of the last such record; otherwise nothing. */
  lemma {:induction false} OverlayAt(students: seq<Student>, records: seq<AttendanceRecord>, i: nat)
    requires i < |students|
    ensures |Overlay(students, records)| == |students|
    ensures forall j :: 0 <= j < |students| ==> Overlay(students, records)[j].id == students[j].id
    ensures Overlay(students, records)[i] ==
      (if FindStudent(students, students[i].id) == Some(i) && LastRecordStatus(records, students[i].id).Some?
       then students[i].(status := LastRecordStatus(records, students[i].id).value)
       else students[i])
    decreases |records|
  {
    if |records| > 0 {
      var front, rec := records[..|records| - 1], records[|records| - 1];
      OverlayAt(students, front, i);
      var o := Overlay(students, front);
      FindStudentSameIds(o, students, rec.studentId);
      FindStudentSameIds(o, students, students[i].id);
    }
  }

  /** A record whose id matches no student changes nothing. */
  lemma {:induction false} UnknownRecordIgnored(students: seq<Student>, records: seq<AttendanceRecord>, rec: AttendanceRecord)
    requires forall j :: 0 <= j < |students| ==> students[j].id != rec.studentId
    ensures Overlay(students, records + [rec]) == Overlay(students, records)
  {
    assert (records + [rec])[..|records|] == records;
    var o := Overlay(students, records);
    forall j | 0 <= j < |o| ensures o[j].id != rec.studentId {
      OverlayAt(students, records, j);
    }
  }

  // ---------------------------------------------------------------------------
  // Home-page statistics
  // ---------------------------------------------------------------------------

  datatype Category = Present | Late | Absent

  /** The counters' branch: "Present", then "Late", everything else absent. */
  function Classify(status: string): (c: Category)
    ensures c == Present <==> status == "Present"
    ensures c == Late <==> status == "Late"
    ensures c == Absent <==> status != "Present" && status != "Late"
  {
    if status == "Present" then Present else if status == "Late" then Late else Absent
  }

  /** `attendance ? attendance.status : 'Absent'` with the FIRST matching record. */
  function StatisticsStatus(records: seq<AttendanceRecord>, id: int): (r: string)
    ensures FirstRecord(records, id).None? ==> r == "Absent"
    ensures FirstRecord(records, id).Some? ==> r == records[FirstRecord(records, id).value].status
  {
    match FirstRecord(records, id)
    case None => "Absent"
    case Some(k) => records[k].status
  }

  /** A student is counted absent exactly when no record names it, or the first record that
      does carries a status other than "Present" and "Late". */
  lemma CountedAbsent(records: seq<AttendanceRecord>, id: int)
    ensures Classify(StatisticsStatus(records, id)) == Absent <==>
      (FirstRecord(records, id).None? ||
       records[FirstRecord(records, id).value].status !in {"Present", "Late"})
  {
  }

  /** How many of `students` the counting loop puts in category `c`. */
  function CountCategory(students: seq<Student>, records: seq<AttendanceRecord>, c: Category): (n: nat)
    ensures n <= |students|
    decreases |students|
  {
    if |students| == 0 then 0
    else CountCategory(students[..|students| - 1], records, c)
         + (if Classify(StatisticsStatus(records, students[|students| - 1].id)) == c then 1 else 0)
  }

  /** Counting one more student adds it to its own category's counter. */
  lemma CountStep(students: seq<Student>, records: seq<AttendanceRecord>, i: nat, c: Category)
    requires i < |students|
    ensures CountCategory(students[..i + 1], records, c) ==
      CountCategory(students[..i], records, c) + (if Classify(StatisticsStatus(records, students[i].id)) == c then 1 else 0)
  {
    assert students[..i + 1][..i] == students[..i];
  }

  /** Every student lands in exactly one counter. */
  lemma {:induction false} CountsPartition(students: seq<Student>, records: seq<AttendanceRecord>)
    ensures CountCategory(students, records, Present) + CountCategory(students, records, Absent)
            + CountCategory(students, records, Late) == |students|
    decreases |students|
  {
    if |students| > 0 {
      CountsPartition(students[..|students| - 1], records);
    }
  }

  /** `Math.round((count / total) * 100)`, on exact rationals, rounding halves up. */
  function Percentage(count: nat, total: nat): (p: nat)
    ensures total == 0 ==> p == 0
    ensures total > 0 ==> 2 * total * p <= 200 * count + total < 2 * total * p + 2 * total
  {
    if total == 0 then 0
    else
      DivisionBounds(200 * count + total, 2 * total);
      (200 * count + total) / (2 * total)
  }

  /** The percentage is the integer nearest to 100·count/total (halves up), so it lies in
      0..100 when count ≤ total, 0 for no students counted and 100 for all of them. */
  lemma PercentageIsRounded(count: nat, total: nat)
    requires 0 < total && count <= total
    ensures 200 * count - total < 2 * total * Percentage(count, total) <= 200 * count + total
    ensures Percentage(count, total) <= 100
    ensures count == 0 ==> Percentage(count, total) == 0
    ensures count == total ==> Percentage(count, total) == 100
  {
    var p, m, q := Percentage(count, total), 2 * total, 200 * count + total;
    assert p == q / m;
    DivisionBounds(q, m);
    if p > 100 {
      MultiplyMonotone(m, 101, p);
    }
    if count == total && p < 100 {
      MultiplyMonotone(m, p, 99);
    }
    if count == 0 && p > 0 {
      MultiplyMonotone(m, 1, p);
    }
  }

  lemma DivisionBounds(q: nat, m: nat)
    requires m > 0
    ensures m * (q / m) <= q < m * (q / m) + m
  {
  }

  lemma MultiplyMonotone(m: nat, a: nat, b: nat)
    requires a <= b
    ensures m * a <= m * b
  {
  }

  /** The figures `updateHomeStatistics` writes into the page. */
  datatype HomeStats = HomeStats(
    presentCount: nat, absentCount: nat, lateCount: nat, totalCount: nat,
    presentPct: nat, absentPct: nat, latePct: nat, totalPct: nat)

  /** The statistics the page shows for `students` and today's `records`: each counter is the
      number of students in its category, the three add up to the number of students, every
      percentage lies in 0..100 and the total reads 100%; with no students everything is 0. */
  function Statistics(students: seq<Student>, records: seq<AttendanceRecord>): (st: HomeStats)
    ensures st.presentCount + st.absentCount + st.lateCount == st.totalCount == |students|
    ensures st.presentPct <= 100 && st.absentPct <= 100 && st.latePct <= 100
    ensures |students| == 0 ==> st == HomeStats(0, 0, 0, 0, 0, 0, 0, 0)
    ensures |students| > 0 ==> st.totalPct == 100
    ensures |students| > 0 ==>
      && st.presentCount == CountCategory(students, records, Present)
      && st.absentCount == CountCategory(students, records, Absent)
      && st.lateCount == CountCategory(students, records, Late)
  {
    var total := |students|;
    if total == 0 then HomeStats(0, 0, 0, 0, 0, 0, 0, 0)
    else
      var p := CountCategory(students, records, Present);
      var a := CountCategory(students, records, Absent);
      var l := CountCategory(students, records, Late);
      CountsPartition(students, records);
      PercentageIsRounded(p, total);
      PercentageIsRounded(a, total);
      PercentageIsRounded(l, total);
      HomeStats(p, a, l, total, Percentage(p, total), Percentage(a, total), Percentage(l, total), 100)
  }

  /** `updateHomeStatistics`: the counting loop over the students. */
  method UpdateHomeStatistics(students: seq<Student>, records: seq<AttendanceRecord>) returns (st: HomeStats)
    ensures st == Statistics(students, records)
    ensures st.presentCount + st.absentCount + st.lateCount == |students|
  {
    if |students| == 0 {
      return HomeStats(0, 0, 0, 0, 0, 0, 0, 0);
    }
    var presentCount, absentCount, lateCount := 0, 0, 0;
    var i := 0;
    while i < |students|
      invariant 0 <= i <= |students|
      invariant presentCount == CountCategory(students[..i], records, Present)
      invariant absentCount == CountCategory(students[..i], records, Absent)
      invariant lateCount == CountCategory(students[..i], records, Late)
    {
      CountStep(students, records, i, Present);
      CountStep(students, records, i, Absent);
      CountStep(students, records, i, Late);
      var attendance := FirstRecord(records, students[i].id);
      var status := if attendance.Some? then records[attendance.value].status else "Absent";
      assert status == StatisticsStatus(records, students[i].id);
      if status == "Present" {
        presentCount := presentCount + 1;
      } else if status == "Late" {
        lateCount := lateCount + 1;
      } else {
        assert Classify(status) == Absent;
        absentCount := absentCount + 1;
      }
      i := i + 1;
    }
    assert students[..i] == students;
    CountsPartition(students, records);
    var total := |students|;
    st := HomeStats(presentCount, absentCount, lateCount, total,
                    Percentage(presentCount, total), Percentage(absentCount, total), Percentage(lateCount, total), 100);
  }

  /** When every record names a different student, every student id is distinct and the fetched
      students carry no status yet, the table after loading shows each student with exactly the
      status the statistics count for it. */
  lemma {:induction false} LoadedStatusMatchesStatistics(fetched: seq<Student>, records: seq<AttendanceRecord>, i: nat)
    requires i < |fetched|
    requires UniqueStudentIds(fetched) && UniqueRecordIds(records)
    requires forall j :: 0 <= j < |fetched| ==> fetched[j].status == ""
    ensures Overlay(WithDefaultStatus(fetched), records)[i].status == StatisticsStatus(records, fetched[i].id)
  {
    var d := WithDefaultStatus(fetched);
    var id := fetched[i].id;
    assert d[i].status == "Absent";
    var found := FindStudent(fetched, id);
    assert found == Some(i) by {
      assert found.Some?;
      assert fetched[found.value].id == id;
    }
    FindStudentSameIds(d, fetched, id);
    OverlayAt(d, records, i);
    var last := LastRecordStatus(records, id);
    if last.Some? {
      var k :| 0 <= k < |records| && records[k].studentId == id && records[k].status == last.value;
      var first := FirstRecord(records, id);
      assert first.Some? && records[first.value].studentId == id;
      assert first.value == k;
    }
  }

  predicate UniqueStudentIds(students: seq<Student>)
  {
    forall j, k :: 0 <= j < k < |students| ==> students[j].id != students[k].id
  }

  predicate UniqueRecordIds(records: seq<AttendanceRecord>)
  {
    forall j, k :: 0 <= j < k < |records| ==> records[j].studentId != records[k].studentId
  }

  /** The quirk kept from the page: with two records for one student the table shows the last
      status while the counters use the first. */
  lemma DuplicateRecordsDisagree()
    ensures var s := Student(7, "Ana", "Cruz", "0917", "BSIT", "A", "");
            var recs := [AttendanceRecord(7, "Present"), AttendanceRecord(7, "Late")];
            && Overlay(WithDefaultStatus([s]), recs)[0].status == "Late"
            && Statistics([s], recs).presentCount == 1
  {
    var s := Student(7, "Ana", "Cruz", "0917", "BSIT", "A", "");
    var recs := [AttendanceRecord(7, "Present"), AttendanceRecord(7, "Late")];
    OverlayAt(WithDefaultStatus([s]), recs, 0);
    assert recs[..1] == [AttendanceRecord(7, "Present")];
    assert [s][..0] == [];
  }

  // ---------------------------------------------------------------------------
  // Sections and the attendance table
  // ---------------------------------------------------------------------------

  /** Position of the first occurrence of `x` in `xs`. */
  function FirstIndex<T(==, !new)>(xs: seq<T>, x: T): (k: nat)
    requires x in xs
    ensures k < |xs| && xs[k] == x && x !in xs[..k]
  {
    if xs[0] == x then 0 else 1 + FirstIndex(xs[1..], x)
  }

  /** Dropping the last element keeps every other value's first position; the last element,
      when it is new, has its own position as first one. */
  lemma FirstIndexPrefix<T(!new)>(xs: seq<T>)
    requires |xs| > 0
    ensures forall y :: y in xs[..|xs| - 1] ==> y in xs && FirstIndex(xs, y) == FirstIndex(xs[..|xs| - 1], y) < |xs| - 1
    ensures xs[|xs| - 1] !in xs[..|xs| - 1] ==> FirstIndex(xs, xs[|xs| - 1]) == |xs| - 1
  {
    var front := xs[..|xs| - 1];
    forall y | y in front ensures y in xs && FirstIndex(xs, y) == FirstIndex(front, y) < |xs| - 1 {
      var k := FirstIndex(front, y);
      assert xs[k] == y;
      assert front[..k] == xs[..k];
    }
  }

  /** `[...new Set(xs)]`: each value once, in order of first appearance. */
  function Distinct<T(==, !new)>(xs: seq<T>): (r: seq<T>)
    ensures forall i, j :: 0 <= i < j < |r| ==> r[i] != r[j]
    ensures forall x :: x in r <==> x in xs
    ensures forall i, j :: 0 <= i < j < |r| ==> FirstIndex(xs, r[i]) < FirstIndex(xs, r[j])
    decreases |xs|
  {
    if |xs| == 0 then []
    else
      var front, x := xs[..|xs| - 1], xs[|xs| - 1];
      var p := Distinct(front);
      FirstIndexPrefix(xs);
      if x in p then p else p + [x]
  }

  /** `students.map(s => s.section)`. */
  function SectionColumn(students: seq<Student>): (r: seq<string>)
    ensures |r| == |students| && forall i :: 0 <= i < |r| ==> r[i] == students[i].section
  {
    seq(|students|, i requires 0 <= i < |students| => students[i].section)
  }

  /** The options `loadSections` adds: every section of the table, once each, in order of
      first appearance. */
  function LoadSections(students: seq<Student>): (r: seq<string>)
    ensures forall i, j :: 0 <= i < j < |r| ==> r[i] != r[j]
    ensures forall sec :: sec in r <==> exists k :: 0 <= k < |students| && students[k].section == sec
  {
    var col := SectionColumn(students);
    var r := Distinct(col);
    assert forall sec :: sec in col <==> exists k :: 0 <= k < |students| && students[k].section == sec by {
      forall sec | sec in col ensures exists k :: 0 <= k < |students| && students[k].section == sec {
        var k :| 0 <= k < |col| && col[k] == sec;
      }
    }
    r
  }

  /** The colour class of the status cell. */
  function StatusClass(status: string): (r: string)
    ensures r == "present" <==> Classify(status) == Present
    ensures r == "late" <==> Classify(status) == Late
    ensures r == "absent" <==> Classify(status) == Absent
  {
    if status == "Present" then "present" else if status == "Late" then "late" else "absent"
  }

  /** One row of the attendance table. */
  datatype AttendanceRow = AttendanceRow(
    number: nat, studentId: int, fullName: string, course: string, statusClass: string, shownStatus: string)

  /** A row shows the student's number, name and course; the status text is "Absent" when the
      student has none, and its colour class always agrees with the text shown. */
  function RowFor(s: Student, number: nat): (row: AttendanceRow)
    ensures row.number == number && row.studentId == s.id && row.course == s.course
    ensures row.fullName == s.firstName + " " + s.lastName
    ensures s.status != "" ==> row.shownStatus == s.status
    ensures s.status == "" ==> row.shownStatus == "Absent"
    ensures row.statusClass == StatusClass(row.shownStatus)
  {
    AttendanceRow(number, s.id, s.firstName + " " + s.lastName, s.course, StatusClass(s.status),
                  if s.status == "" then "Absent" else s.status)
  }

  /** The students of section `sec`, in table order. */
  function InSection(students: seq<Student>, sec: string): (r: seq<Student>)
    ensures |r| <= |students|
    ensures forall k :: 0 <= k < |r| ==> r[k] in students && r[k].section == sec
    ensures forall s :: s in students && s.section == sec ==> s in r
    decreases |students|
  {
    if |students| == 0 then []
    else
      var front := InSection(students[..|students| - 1], sec);
      var s := students[|students| - 1];
      assert forall t :: t in students ==> t in students[..|students| - 1] || t == s;
      if s.section == sec then front + [s] else front
  }

  /** Scanning one more student appends it to the section's list exactly when it belongs. */
  lemma InSectionStep(students: seq<Student>, i: nat, sec: string)
    requires i < |students|
    ensures InSection(students[..i + 1], sec) ==
      if students[i].section == sec then InSection(students[..i], sec) + [students[i]] else InSection(students[..i], sec)
  {
    assert students[..i + 1][..i] == students[..i];
  }

  /** Filtering keeps the table order: the students of a section in a table made of two parts
      are those of the first part followed by those of the second. */
  lemma {:induction false} InSectionAppend(a: seq<Student>, b: seq<Student>, sec: string)
    ensures InSection(a + b, sec) == InSection(a, sec) + InSection(b, sec)
    decreases |b|
  {
    if |b| == 0 {
      assert a + b == a;
    } else {
      var front := b[..|b| - 1];
      assert (a + b)[..|a + b| - 1] == a + front;
      InSectionAppend(a, front, sec);
    }
  }

  /** A single student is kept exactly when it belongs to the section, once. */
  lemma InSectionSingle(s: Student, sec: string)
    ensures InSection([s], sec) == if s.section == sec then [s] else []
  {
    assert [s][..0] == [];
  }

  /** `loadAttendance`: with no section chosen the table is empty; otherwise one row per
      student of that section, numbered from 1 in table order. */
  method LoadAttendance(students: seq<Student>, sec: string) returns (rows: seq<AttendanceRow>)
    ensures sec == "" ==> rows == []
    ensures sec != "" ==> |rows| == |InSection(students, sec)|
    ensures sec != "" ==> forall k :: 0 <= k < |rows| ==> rows[k] == RowFor(InSection(students, sec)[k], k + 1)
  {
    rows := [];
    if sec == "" {
      return;
    }
    var count := 0;
    var i := 0;
    while i < |students|
      invariant 0 <= i <= |students|
      invariant count == |rows| == |InSection(students[..i], sec)|
      invariant forall k :: 0 <= k < |rows| ==> rows[k] == RowFor(InSection(students[..i], sec)[k], k + 1)
    {
      InSectionStep(students, i, sec);
      var s := students[i];
      if s.section == sec {
        count := count + 1;
        rows := rows + [RowFor(s, count)];
      }
      i := i + 1;
    }
    assert students[..i] == students;
  }

  // ---------------------------------------------------------------------------
  // Status buttons
  // ---------------------------------------------------------------------------

  /** `toggleStatus`'s new status: "Present" becomes "Absent", anything else "Present". */
  function Toggled(status: string): (r: string)
    ensures r == "Absent" <==> status == "Present"
    ensures r == "Present" <==> status != "Present"
  {
    if status == "Present" then "Absent" else "Present"
  }

  /** Toggling twice returns to where one started only from "Present" or "Absent":
      "Late" (or no status) toggles to "Present" and then to "Absent". */
  lemma ToggleTwice(status: string)
    ensures Toggled(Toggled(status)) == status <==> status in {"Present", "Absent"}
  {
  }

  // ---------------------------------------------------------------------------
  // Student forms
  // ---------------------------------------------------------------------------

  datatype StudentForm = StudentForm(firstName: string, lastName: string, contactNo: string, course: string, section: string)

  predicate HasEmptyField(f: StudentForm)
  {
    f.firstName == "" || f.lastName == "" || f.contactNo == "" || f.course == "" || f.section == ""
  }

  /** The request `saveStudent` sends: a POST to `/students`, or a PUT to `/students/<id>`. */
  datatype StudentRequest = CreateStudent(body: StudentForm) | UpdateStudent(id: int, body: StudentForm)

  /** `saveStudent`: any empty field (untrimmed) stops it with "Fill all fields"; otherwise a
      POST when no student is being edited, a PUT to the edited id when one is. */
  function SaveStudentRequest(form: StudentForm, editingId: Option<int>): (r: Result<StudentRequest, string>)
    ensures r.Err? <==> HasEmptyField(form)
    ensures r.Err? ==> r.error == "Fill all fields"
    ensures r.Ok? ==> r.value.body == form
    ensures r.Ok? ==> (r.value.CreateStudent? <==> editingId.None?)
    ensures r.Ok? && editingId.Some? ==> r.value.id == editingId.value
  {
    if HasEmptyField(form) then Err("Fill all fields")
    else if editingId.None? then Ok(CreateStudent(form))
    else Ok(UpdateStudent(editingId.value, form))
  }

  /** The form with every field trimmed, as the edit dialog reads it. */
  function TrimForm(f: StudentForm): StudentForm
  {
    StudentForm(Trim(f.firstName), Trim(f.lastName), Trim(f.contactNo), Trim(f.course), Trim(f.section))
  }

  /** `handleEditStudentFormSubmit`: no student selected, then no token, then a field that is
      empty after trimming stop it, in that order; otherwise the trimmed form is PUT to the
      selected student. An absent token is the empty string. */
  function EditStudentSubmission(current: Option<int>, form: StudentForm, token: string): (r: Result<StudentRequest, string>)
    ensures !Selected(current) ==> r == Err("Error: No student selected")
    ensures Selected(current) && token == "" ==> r == Err("Unauthorized: Please login")
    ensures Selected(current) && token != "" && HasEmptyField(TrimForm(form)) ==> r == Err("All fields are required")
    ensures r.Ok? <==> Selected(current) && token != "" && !HasEmptyField(TrimForm(form))
    ensures r.Ok? ==> r == Ok(UpdateStudent(current.value, TrimForm(form)))
  {
    if !Selected(current) then Err("Error: No student selected")
    else if token == "" then Err("Unauthorized: Please login")
    else if HasEmptyField(TrimForm(form)) then Err("All fields are required")
    else Ok(UpdateStudent(current.value, TrimForm(form)))
  }

  /** A field left as nothing but white space is refused by the edit dialog although
      `saveStudent` would accept it. */
  lemma BlankFieldRefusedOnlyByEditDialog(form: StudentForm, id: int, token: string)
    requires id != 0 && token != ""
    requires !HasEmptyField(form) && AllSpace(form.course)
    ensures SaveStudentRequest(form, None).Ok?
    ensures EditStudentSubmission(Some(id), form, token) == Err("All fields are required")
  {
  }

  // ---------------------------------------------------------------------------
  // API base URL
  // ---------------------------------------------------------------------------

  /** What `window.location` offers; `None` when reading it throws. */
  datatype Location = Location(origin: string, hostname: string)

  const LocalApi: string := "http://localhost:3000/api"

  /** `window.API_BASE || (function(){ ... })()`: a value already set wins; otherwise the local
      server for localhost / 127.0.0.1 or when the location cannot be read, and
      `origin + '/api'` for any other host. */
  function ApiBase(current: string, location: Option<Location>): (r: string)
    ensures current != "" ==> r == current
    ensures current == "" ==> |r| >= 4 && r[|r| - 4..] == "/api"
    ensures current == "" && location.Some? && location.value.hostname !in {"localhost", "127.0.0.1"}
            ==> r == location.value.origin + "/api"
    ensures current == "" && (location.None? || location.value.hostname in {"localhost", "127.0.0.1"})
            ==> r == LocalApi
  {
    if current != "" then current
    else match location
      case None => LocalApi
      case Some(loc) =>
        if loc.hostname == "localhost" || loc.hostname == "127.0.0.1" then LocalApi
        else loc.origin + "/api"
  }

  /** Every script on a page runs the same derivation; the first one fixes the value for all. */
  lemma ApiBaseSettles(current: string, first: Option<Location>, later: Option<Location>)
    ensures ApiBase(ApiBase(current, first), later) == ApiBase(current, first)
  {
  }

  // ---------------------------------------------------------------------------
  // The page state
  // ---------------------------------------------------------------------------

  /** The module-level variables of the page script. */
  class PortalPage {
    var students: seq<Student>
    var editingId: Option<int>
    var currentEditingStudentId: Option<int>

    /** No code of the page ever gives `editingId` a value, so it stays `null`. */
    ghost predicate Valid()
      reads this
    {
      editingId.None?
    }

    constructor ()
      ensures Valid()
      ensures students == [] && currentEditingStudentId.None?
    {
      students := [];
      editingId := None;
      currentEditingStudentId := None;
    }

    /** `loadStudents`: `fetched` is the student list (`None` when the response is not ok) and
        `today` what its call to `loadTodayAttendance` receives. Every student without a status
        gets "Absent" before today's records are laid over the table. */
    method LoadStudents(fetched: Option<seq<Student>>, today: Option<seq<AttendanceRecord>>) returns (stats: Option<HomeStats>)
      requires Valid()
      modifies this
      ensures Valid()
      ensures fetched.None? ==> students == old(students) && stats.None?
      ensures fetched.Some? && today.None? ==> students == WithDefaultStatus(fetched.value) && stats.None?
      ensures fetched.Some? && today.Some? ==>
        students == Overlay(WithDefaultStatus(fetched.value), today.value)
        && stats == Some(Statistics(fetched.value, today.value))
      ensures currentEditingStudentId == old(currentEditingStudentId)
    {
      stats := None;
      if fetched.None? {
        return;
      }
      students := fetched.value;
      var i := 0;
      while i < |students|
        invariant 0 <= i <= |students| == |fetched.value|
        invariant forall j :: 0 <= j < i ==> students[j] == WithDefaultStatus(fetched.value)[j]
        invariant forall j :: i <= j < |students| ==> students[j] == fetched.value[j]
        invariant editingId.None? && currentEditingStudentId == old(currentEditingStudentId)
      {
        if students[i].status == "" {
          students := students[i := students[i].(status := "Absent")];
        }
        i := i + 1;
      }
      assert students == WithDefaultStatus(fetched.value);
      assert forall j :: 0 <= j < |students| ==> students[j].id == fetched.value[j].id;
      ghost var defaulted := students;
      stats := LoadTodayAttendance(today);
      if today.Some? {
        SameIdsSameStatistics(defaulted, fetched.value, today.value);
      }
    }

    /** `loadTodayAttendance`: each record in turn sets the status of the first student with
        its id (the last record for an id wins); then the statistics are computed from the records.
        `None` stands for a response that is not ok, which changes nothing. */
    method LoadTodayAttendance(today: Option<seq<AttendanceRecord>>) returns (stats: Option<HomeStats>)
      modifies this
      ensures today.None? ==> students == old(students) && stats.None?
      ensures today.Some? ==> students == Overlay(old(students), today.value)
      ensures today.Some? ==> stats == Some(Statistics(old(students), today.value))
      ensures editingId == old(editingId) && currentEditingStudentId == old(currentEditingStudentId)
    {
      if today.None? {
        return None;
      }
      var records := today.value;
      var k := 0;
      while k < |records|
        invariant 0 <= k <= |records|
        invariant students == Overlay(old(students), records[..k])
        invariant editingId == old(editingId) && currentEditingStudentId == old(currentEditingStudentId)
      {
        assert records[..k + 1][..k] == records[..k];
        var found := FindStudent(students, records[k].studentId);
        if found.Some? {
          students := students[found.value := students[found.value].(status := records[k].status)];
        }
        k := k + 1;
      }
      assert records[..k] == records;
      var st := UpdateHomeStatistics(students, records);
      OverlaySameStatistics(old(students), records);
      stats := Some(st);
    }

    /** `setStatus(id, status)`: the first student with that id takes the status and the
        same pair is posted to `/attendance`; an unknown id changes and posts nothing. */
    method SetStatus(id: int, status: string) returns (posted: Option<AttendanceRecord>)
      modifies this
      ensures students == ApplyRecord(old(students), AttendanceRecord(id, status))
      ensures posted.Some? <==> FindStudent(old(students), id).Some?
      ensures posted.Some? ==> posted.value == AttendanceRecord(id, status)
      ensures editingId == old(editingId) && currentEditingStudentId == old(currentEditingStudentId)
    {
      var found := FindStudent(students, id);
      if found.None? {
        return None;
      }
      students := students[found.value := students[found.value].(status := status)];
      posted := Some(AttendanceRecord(id, status));
    }

    /** `toggleStatus(id)`: flips the first matching student between "Present" and "Absent"
        ("Late" becomes "Present"); nothing is posted. */
    method ToggleStatus(id: int)
      modifies this
      ensures FindStudent(old(students), id).None? ==> students == old(students)
      ensures FindStudent(old(students), id).Some? ==>
        students == ApplyRecord(old(students), AttendanceRecord(id, Toggled(old(students)[FindStudent(old(students), id).value].status)))
      ensures editingId == old(editingId) && currentEditingStudentId == old(currentEditingStudentId)
    {
      var found := FindStudent(students, id);
      if found.None? {
        return;
      }
      var s := students[found.value];
      students := students[found.value := s.(status := if s.status == "Present" then "Absent" else "Present")];
    }

    /** `saveStudent`: the request sent, and on an ok response `editingId` is cleared
        (the form is reset). */
    method SaveStudent(form: StudentForm, responseOk: bool) returns (r: Result<StudentRequest, string>)
      requires Valid()
      modifies this
      ensures Valid()
      ensures r == SaveStudentRequest(form, old(editingId))
      ensures r.Ok? ==> r.value.CreateStudent?
      ensures students == old(students) && currentEditingStudentId == old(currentEditingStudentId)
    {
      r := SaveStudentRequest(form, editingId);
      if r.Ok? && responseOk {
        editingId := None;
      }
    }

    /** `openEditStudentModal`: remembers the student and fills the dialog with its fields. */
    method OpenEditStudentModal(s: Student) returns (form: StudentForm)
      modifies this
      ensures currentEditingStudentId == Some(s.id)
      ensures form == StudentForm(s.firstName, s.lastName, s.contactNo, s.course, s.section)
      ensures students == old(students) && editingId == old(editingId)
    {
      currentEditingStudentId := Some(s.id);
      form := StudentForm(s.firstName, s.lastName, s.contactNo, s.course, s.section);
    }

    /** `closeEditStudentModal`: forgets the student. */
    method CloseEditStudentModal()
      modifies this
      ensures currentEditingStudentId.None?
      ensures students == old(students) && editingId == old(editingId)
    {
      currentEditingStudentId := None;
    }

    /** `editStudent(id)`: opens the dialog on the first student with that id, filled with that
        student's five fields; an unknown id does nothing. */
    method EditStudent(id: int) returns (form: Option<StudentForm>)
      modifies this
      ensures FindStudent(students, id).None? ==> form.None? && currentEditingStudentId == old(currentEditingStudentId)
      ensures FindStudent(students, id).Some? ==> currentEditingStudentId == Some(id)
      ensures FindStudent(students, id).Some? ==>
        var s := students[FindStudent(students, id).value];
        form == Some(StudentForm(s.firstName, s.lastName, s.contactNo, s.course, s.section))
      ensures students == old(students) && editingId == old(editingId)
    {
      var found := FindStudent(students, id);
      if found.None? {
        return None;
      }
      var f := OpenEditStudentModal(students[found.value]);
      form := Some(f);
    }

    /** `handleEditStudentFormSubmit` on the dialog's current student. */
    method HandleEditStudentFormSubmit(form: StudentForm, token: string) returns (r: Result<StudentRequest, string>)
      ensures r == EditStudentSubmission(currentEditingStudentId, form, token)
    {
      r := EditStudentSubmission(currentEditingStudentId, form, token);
    }
  }

  /** The counters only look at ids, so two tables with the same ids have the same statistics. */
  lemma {:induction false} SameIdsSameStatistics(a: seq<Student>, b: seq<Student>, records: seq<AttendanceRecord>)
    requires |a| == |b|
    requires forall j :: 0 <= j < |a| ==> a[j].id == b[j].id
    ensures Statistics(a, records) == Statistics(b, records)
  {
    forall c | c in {Present, Late, Absent} ensures CountCategory(a, records, c) == CountCategory(b, records, c) {
      SameIdsSameCount(a, b, records, c);
    }
  }

  /** Laying records over the table does not change what the counters see. */
  lemma OverlaySameStatistics(students: seq<Student>, records: seq<AttendanceRecord>)
    ensures Statistics(Overlay(students, records), records) == Statistics(students, records)
  {
    if |students| > 0 {
      OverlayAt(students, records, 0);
    }
    SameIdsSameStatistics(Overlay(students, records), students, records);
  }

  lemma {:induction false} SameIdsSameCount(a: seq<Student>, b: seq<Student>, records: seq<AttendanceRecord>, c: Category)
    requires |a| == |b|
    requires forall j :: 0 <= j < |a| ==> a[j].id == b[j].id
    ensures CountCategory(a, records, c) == CountCategory(b, records, c)
    decreases |a|
  {
    if |a| > 0 {
      SameIdsSameCount(a[..|a| - 1], b[..|b| - 1], records, c);
    }
  }
}
