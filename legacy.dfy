/**
 * The older schema variant of the backend (app.py).
 *
 * Its Attendance table is keyed by the enrollment link and a class number
 * instead of by a class session, and its one new route builds a per-subject
 * report: for every student seen among the attendance records, the student's
 * name and a map from class number to presence.  The query that feeds the
 * report names columns the Attendance table does not have, so the report is
 * modelled over the records it would receive, not over the table.
 */
module LegacyReport {
  import opened Common
  import opened Store

  // ---------------------------------------------------------------------
  // The Attendance table of this variant (app.py:52-59)
  // ---------------------------------------------------------------------

  datatype LegacyMark = LegacyMark(id: int, studentSubjectId: int, classNumber: int, date: Date, present: bool)

  predicate HasEntry(marks: seq<LegacyMark>, studentSubjectId: int, classNumber: int) {
    exists m :: m in marks && m.studentSubjectId == studentSubjectId && m.classNumber == classNumber
  }

  /** One row per (enrollment link, class number): the unique constraint. */
  ghost predicate LegacyMarksOk(marks: seq<LegacyMark>) {
    && (forall i :: 0 <= i < |marks| ==> marks[i].id == i + 1)
    && (forall i, j :: 0 <= i < j < |marks| ==>
          !(marks[i].studentSubjectId == marks[j].studentSubjectId && marks[i].classNumber == marks[j].classNumber))
  }

  class LegacyStore {
    var enrollments: seq<Enrollment>
    var marks: seq<LegacyMark>

    ghost predicate Valid()
      reads this
    {
      EnrollmentsOk(enrollments) && LegacyMarksOk(marks)
    }

    constructor ()
      ensures Valid() && enrollments == [] && marks == []
    {
      enrollments, marks := [], [];
    }

    /** POST /assign_student of this variant: the same guards as the newer
        backend, both ids required and an enrolled pair refused. */
    method AssignStudent(studentId: Option<int>, subjectId: Option<int>) returns (r: Reply<()>)
      requires Valid()
      modifies this
      ensures Valid()
      ensures r == AssignDecision(old(enrollments), studentId, subjectId)
      ensures marks == old(marks)
      ensures r.Refused? ==> enrollments == old(enrollments)
      ensures r.Done? ==>
        enrollments == old(enrollments) + [Enrollment(|old(enrollments)| + 1, studentId.value, subjectId.value)]
    {
      r := AssignDecision(enrollments, studentId, subjectId);
      if r.Done? {
        enrollments := enrollments + [Enrollment(|enrollments| + 1, studentId.value, subjectId.value)];
      }
    }

    /** An insert into this variant's Attendance table: the commit fails on a
        second row for the same (link, class number); `present` defaults to
        false and `date` to today. */
    method InsertMark(studentSubjectId: int, classNumber: int, present: Option<bool>, today: Date)
      returns (inserted: bool)
      requires Valid()
      modifies this
      ensures Valid()
      ensures enrollments == old(enrollments)
      ensures inserted <==> !HasEntry(old(marks), studentSubjectId, classNumber)
      ensures !inserted ==> marks == old(marks)
      ensures inserted ==>
        marks == old(marks) + [LegacyMark(|old(marks)| + 1, studentSubjectId, classNumber, today, present.GetOr(false))]
    {
      if HasEntry(marks, studentSubjectId, classNumber) {
        return false;
      }
      var row := LegacyMark(|marks| + 1, studentSubjectId, classNumber, today, present.GetOr(false));
      forall i | 0 <= i < |marks|
        ensures !(marks[i].studentSubjectId == studentSubjectId && marks[i].classNumber == classNumber)
      {
        assert marks[i] in marks;
      }
      marks := marks + [row];
      inserted := true;
    }
  }

  // ---------------------------------------------------------------------
  // The per-subject report (app.py:201-220)
  // ---------------------------------------------------------------------

  /** One attendance record as the report loop reads it. */
  datatype ReportRecord = ReportRecord(studentId: int, firstName: string, lastName: string, classNumber: int, present: bool)

  /** `{"name": ..., "classes": {class_number: present}}` */
  datatype StudentReport = StudentReport(name: string, classes: map<int, bool>)

  /** The report, keyed by student id (the JSON key is the id written in decimal). */
  type Report = map<int, StudentReport>

  /** One turn of the report loop: a student seen for the first time gets an
      entry named after this record; then this record's presence is written
      under its class number, over any earlier value. */
  function AddRecord(report: Report, record: ReportRecord): Report {
    var entry := if record.studentId in report then report[record.studentId]
                 else StudentReport(DisplayName(record.firstName, record.lastName), map[]);
    report[record.studentId := entry.(classes := entry.classes[record.classNumber := record.present])]
  }

  /** The report after the loop has read `records` in order. */
  function ReportOf(records: seq<ReportRecord>): Report {
    if records == [] then map[]
    else AddRecord(ReportOf(records[..|records| - 1]), records[|records| - 1])
  }

  /** The loop of `get_subject_attendance_report`, updating the report in place. */
  method BuildReport(records: seq<ReportRecord>) returns (report: Report)
    ensures report == ReportOf(records)
  {
    report := map[];
    var i := 0;
    while i < |records|
      invariant 0 <= i <= |records|
      invariant report == ReportOf(records[..i])
    {
      var record := records[i];
      var key := record.studentId;
      if key !in report {
        report := report[key := StudentReport(DisplayName(record.firstName, record.lastName), map[])];
      }
      report := report[key := report[key].(classes := report[key].classes[record.classNumber := record.present])];
      assert records[..i + 1][..i] == records[..i];
      i := i + 1;
    }
    assert records[..i] == records;
  }

  /** GET /attendance/report/subject: refused with 403, before anything is
      computed, unless the subject exists and belongs to the caller. */
  method GetSubjectAttendanceReport(subjects: seq<Subject>, caller: int, subjectId: Option<int>, records: seq<ReportRecord>)
    returns (r: Reply<Report>)
    ensures subjectId.None? || OwnedSubject(subjects, subjectId.value, caller).None? ==>
      r == Refused(Forbidden, "Access denied or subject not found.")
    ensures subjectId.Some? && OwnedSubject(subjects, subjectId.value, caller).Some? ==>
      r == Done(Ok, "", ReportOf(records))
  {
    if subjectId.None? || OwnedSubject(subjects, subjectId.value, caller).None? {
      return Refused(Forbidden, "Access denied or subject not found.");
    }
    var report := BuildReport(records);
    r := Done(Ok, "", report);
  }

  // ---------------------------------------------------------------------
  // What the report says about the records
  // ---------------------------------------------------------------------

  /** The report has an entry for exactly the students among the records;
      no records, no entries. */
  lemma {:induction false} ReportKeys(records: seq<ReportRecord>)
    ensures ReportOf(records).Keys == set r | r in records :: r.studentId
  {
    if records != [] {
      var init := records[..|records| - 1];
      var last := records[|records| - 1];
      ReportKeys(init);
      assert records == init + [last];
      assert (set r | r in records :: r.studentId) == (set r | r in init :: r.studentId) + {last.studentId};
    }
  }

  /** A student's name is taken from the first record seen for that student. */
  lemma {:induction false} ReportNameFromFirstRecord(records: seq<ReportRecord>, k: nat)
    requires k < |records|
    requires forall j :: 0 <= j < k ==> records[j].studentId != records[k].studentId
    ensures records[k].studentId in ReportOf(records)
    ensures ReportOf(records)[records[k].studentId].name == DisplayName(records[k].firstName, records[k].lastName)
  {
    var init := records[..|records| - 1];
    if k == |records| - 1 {
      ReportKeys(init);
      assert records[k].studentId !in ReportOf(init);
    } else {
      assert init[k] == records[k];
      ReportNameFromFirstRecord(init, k);
    }
  }

  /** `classes[n]` of a student holds the presence of the last record for that
      student and class number: later records overwrite earlier ones. */
  lemma {:induction false} ReportClassFromLastRecord(records: seq<ReportRecord>, k: nat)
    requires k < |records|
    requires forall j :: k < j < |records| ==>
      !(records[j].studentId == records[k].studentId && records[j].classNumber == records[k].classNumber)
    ensures records[k].studentId in ReportOf(records)
    ensures records[k].classNumber in ReportOf(records)[records[k].studentId].classes
    ensures ReportOf(records)[records[k].studentId].classes[records[k].classNumber] == records[k].present
  {
    var init := records[..|records| - 1];
    if k < |records| - 1 {
      assert init[k] == records[k];
      ReportClassFromLastRecord(init, k);
    }
  }

  /** Every class number in a student's entry comes from a record of that student. */
  lemma {:induction false} ReportClassesFromRecords(records: seq<ReportRecord>, sid: int, n: int)
    requires sid in ReportOf(records) && n in ReportOf(records)[sid].classes
    ensures exists r :: r in records && r.studentId == sid && r.classNumber == n
  {
    var init := records[..|records| - 1];
    var last := records[|records| - 1];
    if !(last.studentId == sid && last.classNumber == n) {
      ReportClassesFromRecords(init, sid, n);
      var r :| r in init && r.studentId == sid && r.classNumber == n;
      assert r in records;
    }
  }

  /** When no two records share a (student, class number), as the unique
      (enrollment link, class number) column promises within one subject,
      the report holds every record's presence, whatever the record order. */
  lemma ReportOfUniqueRecords(records: seq<ReportRecord>)
    requires forall i, j :: 0 <= i < j < |records| ==>
      !(records[i].studentId == records[j].studentId && records[i].classNumber == records[j].classNumber)
    ensures forall r :: r in records ==>
      r.studentId in ReportOf(records) &&
      r.classNumber in ReportOf(records)[r.studentId].classes &&
      ReportOf(records)[r.studentId].classes[r.classNumber] == r.present
  {
    forall r | r in records
      ensures r.studentId in ReportOf(records)
      ensures r.classNumber in ReportOf(records)[r.studentId].classes
      ensures ReportOf(records)[r.studentId].classes[r.classNumber] == r.present
    {
      var k :| 0 <= k < |records| && records[k] == r;
      ReportClassFromLastRecord(records, k);
    }
  }
}
