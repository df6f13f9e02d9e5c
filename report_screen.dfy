/**
 * The subject report screen of the client (src/screens/subject/subject_report_screen.py).
 *
 * When a class is picked, the screen fetches the class's attendance and the
 * subject's roster, splits them into present and absent students, and fills
 * its two columns of names.  The split is pure; the columns are cleared and
 * refilled in place.  The two HTTP replies reach the model as parameters.
 */
module ReportScreen {
  import opened Common
  import opened Store

  // ---------------------------------------------------------------------
  // The present/absent split (subject_report_screen.py:59-73)
  // ---------------------------------------------------------------------

  predicate IsPresent(e: AttendanceEntry) { e.status == "present" }

  /** The attendance records whose status is exactly "present", in their order. */
  function PresentStudents(attendance: seq<AttendanceEntry>): (r: seq<AttendanceEntry>)
    ensures |r| <= |attendance|
    ensures forall e :: e in r <==> e in attendance && e.status == "present"
  {
    Filter(attendance, IsPresent)
  }

  function PresentIds(present: seq<AttendanceEntry>): set<int> {
    set e | e in present :: e.studentId
  }

  function NotIn(ids: set<int>): RosterStudent -> bool {
    (s: RosterStudent) => s.id !in ids
  }

  /** The roster students whose id is not among `presentIds`, in roster order. */
  function AbsentFrom(students: seq<RosterStudent>, presentIds: set<int>): (r: seq<RosterStudent>)
    ensures forall s :: s in r <==> s in students && s.id !in presentIds
  {
    Filter(students, NotIn(presentIds))
  }

  /** The absent list: taken from the roster when its request answered 200,
      empty otherwise. */
  function AbsentStudents(rosterReply: HttpResult<SubjectRoster>, presentIds: set<int>): (r: seq<RosterStudent>)
    ensures !rosterReply.IsOk() ==> r == []
    ensures rosterReply.IsOk() ==> forall s :: s in r <==> s in rosterReply.body.students && s.id !in presentIds
  {
    if rosterReply.IsOk() then AbsentFrom(rosterReply.body.students, presentIds) else []
  }

  /** No student is listed both as present and as absent. */
  lemma PresentAndAbsentDisjoint(attendance: seq<AttendanceEntry>, rosterReply: HttpResult<SubjectRoster>)
    ensures forall s, e ::
      (s in AbsentStudents(rosterReply, PresentIds(PresentStudents(attendance))) && e in PresentStudents(attendance))
      ==> s.id != e.studentId
  {
  }

  /** When the attendance list and the roster name the same students in the
      same order, each once, every student lands in exactly one of the two
      lists: the present ones among the records, the others among the absent. */
  lemma {:induction false} EachStudentInOneList(attendance: seq<AttendanceEntry>, roster: seq<RosterStudent>)
    requires |attendance| == |roster|
    requires forall k :: 0 <= k < |roster| ==> attendance[k].studentId == roster[k].id
    requires forall i, j :: 0 <= i < j < |roster| ==> roster[i].id != roster[j].id
    ensures |PresentStudents(attendance)| + |AbsentFrom(roster, PresentIds(PresentStudents(attendance)))| == |roster|
  {
    var present := PresentStudents(attendance);
    var ids := PresentIds(present);
    var notPresent := (e: AttendanceEntry) => !IsPresent(e);
    forall k | 0 <= k < |roster| ensures NotIn(ids)(roster[k]) <==> notPresent(attendance[k]) {
      if IsPresent(attendance[k]) {
        assert attendance[k] in present;
      }
      if roster[k].id in ids {
        var e :| e in present && e.studentId == roster[k].id;
        var j :| 0 <= j < |attendance| && attendance[j] == e;
        assert roster[j].id == roster[k].id;
        assert j == k by {
          if j < k { } else if k < j { }
        }
      }
    }
    FilterSameCount(roster, NotIn(ids), attendance, notPresent);
    FilterComplement(attendance, IsPresent, notPresent);
  }

  /** For a class of a valid store, the screen's split of the server's two
      replies (the class's attendance and the subject's roster) puts each
      enrolled student in exactly one of the two lists. */
  lemma ClassReportCoversRoster(db: Db, classId: int, subjectId: int,
                                attendance: seq<AttendanceEntry>, roster: seq<RosterStudent>)
    requires db.Valid()
    requires AttendanceView(RosterLinks(db.enrollments, subjectId), classId, db.students, db.marks) == Some(attendance)
    requires RosterOf(RosterLinks(db.enrollments, subjectId), db.students) == Some(roster)
    ensures |PresentStudents(attendance)| + |AbsentFrom(roster, PresentIds(PresentStudents(attendance)))|
            == |RosterLinks(db.enrollments, subjectId)|
  {
    RosterStudentsDistinct(db.enrollments, subjectId);
    EachStudentInOneList(attendance, roster);
  }

  /** For a class of a valid store, the screen lists a student of the class's
      attendance as present exactly when the store holds a "present" mark for
      that student in that class; a missing mark reads as absent. */
  lemma PresentIffMarkedPresent(db: Db, classId: int, subjectId: int, attendance: seq<AttendanceEntry>)
    requires db.Valid()
    requires AttendanceView(RosterLinks(db.enrollments, subjectId), classId, db.students, db.marks) == Some(attendance)
    ensures forall e :: e in PresentStudents(attendance) <==>
      e in attendance && exists m :: m in db.marks && m.classId == classId && m.studentId == e.studentId && m.status == "present"
  {
    forall e | e in attendance
      ensures e.status == "present" <==>
        exists m :: m in db.marks && m.classId == classId && m.studentId == e.studentId && m.status == "present"
    {
      var k :| 0 <= k < |attendance| && attendance[k] == e;
      assert e.status == StatusOf(db.marks, classId, e.studentId);
      if m :| m in db.marks && m.classId == classId && m.studentId == e.studentId && m.status == "present" {
        MarkedStatusIsStored(db, m);
      }
    }
  }

  // ---------------------------------------------------------------------
  // The two columns of names (subject_report_screen.py:50-96)
  // ---------------------------------------------------------------------


  /** What picking a class did: nothing (no class picked), a snack-bar error,
      or new columns. */
  datatype ChangeOutcome = NoSelection | LoadFailed(message: string) | Shown

  class SubjectReportScreen {
    var presentColumn: seq<string>
    var absentColumn: seq<string>

    constructor ()
      ensures presentColumn == [] && absentColumn == []
    {
      presentColumn, absentColumn := [], [];
    }

    /** Clears the present column and lists the present students' names, or
        the placeholder when there are none. */
    method FillPresentColumn(present: seq<AttendanceEntry>)
      modifies this
      ensures absentColumn == old(absentColumn)
      ensures present == [] ==> presentColumn == ["No students present"]
      ensures present != [] ==>
        |presentColumn| == |present| &&
        forall k :: 0 <= k < |present| ==> presentColumn[k] == DisplayName(present[k].firstName, present[k].lastName)
    {
      presentColumn := [];
      if present == [] {
        presentColumn := presentColumn + ["No students present"];
        return;
      }
      var i := 0;
      while i < |present|
        invariant 0 <= i <= |present|
        invariant absentColumn == old(absentColumn)
        invariant |presentColumn| == i
        invariant forall k :: 0 <= k < i ==> presentColumn[k] == DisplayName(present[k].firstName, present[k].lastName)
      {
        presentColumn := presentColumn + [DisplayName(present[i].firstName, present[i].lastName)];
        i := i + 1;
      }
    }

    /** Clears the absent column and lists the absent students' names, or the
        placeholder when there are none. */
    method FillAbsentColumn(absent: seq<RosterStudent>)
      modifies this
      ensures presentColumn == old(presentColumn)
      ensures absent == [] ==> absentColumn == ["No students absent"]
      ensures absent != [] ==>
        |absentColumn| == |absent| &&
        forall k :: 0 <= k < |absent| ==> absentColumn[k] == DisplayName(absent[k].firstName, absent[k].lastName)
    {
      absentColumn := [];
      if absent == [] {
        absentColumn := absentColumn + ["No students absent"];
        return;
      }
      var i := 0;
      while i < |absent|
        invariant 0 <= i <= |absent|
        invariant presentColumn == old(presentColumn)
        invariant |absentColumn| == i
        invariant forall k :: 0 <= k < i ==> absentColumn[k] == DisplayName(absent[k].firstName, absent[k].lastName)
      {
        absentColumn := absentColumn + [DisplayName(absent[i].firstName, absent[i].lastName)];
        i := i + 1;
      }
    }

    /** `on_class_change`.  `classReply` and `rosterReply` are the answers to
        GET /classes/<id> and GET /subject/<id>/students. */
    method OnClassChange(selected: Option<int>, classReply: HttpResult<ClassAttendance>,
                         rosterReply: HttpResult<SubjectRoster>)
      returns (outcome: ChangeOutcome)
      modifies this
      ensures selected.None? ==> outcome == NoSelection && unchanged(this)
      ensures selected.Some? && classReply.ConnectionError? ==> outcome == LoadFailed("Error") && unchanged(this)
      ensures selected.Some? && classReply.Response? && classReply.code != 200 ==>
        outcome == LoadFailed("Failed to load class report") && unchanged(this)
      ensures selected.Some? && classReply.IsOk() && rosterReply.ConnectionError? ==>
        outcome == LoadFailed("Error") && unchanged(this)
      ensures selected.Some? && classReply.IsOk() && rosterReply.Response? ==>
        var present := PresentStudents(classReply.body.attendance);
        var absent := AbsentStudents(rosterReply, PresentIds(present));
        && outcome == Shown
        && (present == [] ==> presentColumn == ["No students present"])
        && (present != [] ==>
              |presentColumn| == |present| &&
              forall k :: 0 <= k < |present| ==> presentColumn[k] == DisplayName(present[k].firstName, present[k].lastName))
        && (absent == [] ==> absentColumn == ["No students absent"])
        && (absent != [] ==>
              |absentColumn| == |absent| &&
              forall k :: 0 <= k < |absent| ==> absentColumn[k] == DisplayName(absent[k].firstName, absent[k].lastName))
    {
      if selected.None? {
        return NoSelection;
      }
      if classReply.ConnectionError? {
        return LoadFailed("Error");
      }
      if classReply.code != 200 {
        return LoadFailed("Failed to load class report");
      }
      var present := PresentStudents(classReply.body.attendance);
      var ids := PresentIds(present);
      if rosterReply.ConnectionError? {
        return LoadFailed("Error");
      }
      var absent := AbsentStudents(rosterReply, ids);

      FillPresentColumn(present);
      FillAbsentColumn(absent);
      outcome := Shown;
    }
  }
}
