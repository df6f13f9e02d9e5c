/**
 * The subject detail screen of the client (src/screens/subject/subject_detail_screen.py).
 *
 * The screen keeps the subject's roster as last fetched, one checkbox per
 * enrolled student and the list of controls it shows.  Loading the roster
 * rebuilds the checkboxes; ticking one is the user's click; saving sends one
 * attendance request per ticked box.  The HTTP replies reach the model as
 * parameters: a reply value for a GET, a function from request to reply for
 * the POSTs.
 */
module DetailScreen {
  import opened Common
  import opened Store

  // ---------------------------------------------------------------------
  // Fetching (subject_detail_screen.py:45-66)
  // ---------------------------------------------------------------------

  /** `fetch_subject_details`: the roster when GET /subject/<id>/students
      answered 200; `{}` (here None) on any other status or an exception. */
  function SubjectDetails(reply: HttpResult<SubjectRoster>): (r: Option<SubjectRoster>)
    ensures r.Some? <==> reply.IsOk()
    ensures r.Some? ==> r.value == reply.body
  {
    if reply.IsOk() then Some(reply.body) else None
  }

  /** `[s["id"] for s in subject_data.get("students", [])]`, as a set. */
  function EnrolledIds(subjectData: Option<SubjectRoster>): set<int> {
    if subjectData.None? then {} else set s | s in subjectData.value.students :: s.id
  }

  function NotEnrolled(ids: set<int>): StudentView -> bool {
    (s: StudentView) => s.id !in ids
  }

  /** `fetch_available_students`: the caller's students (GET /students) not
      yet enrolled in the subject, in listing order; nothing unless the
      listing answered 200.  Without a fetched roster nobody is filtered out. */
  function AvailableStudents(reply: HttpResult<seq<StudentView>>, subjectData: Option<SubjectRoster>)
    : (r: seq<StudentView>)
    ensures !reply.IsOk() ==> r == []
    ensures reply.IsOk() ==> forall s :: s in r <==> s in reply.body && s.id !in EnrolledIds(subjectData)
    ensures reply.IsOk() && subjectData.None? ==> r == reply.body
  {
    if reply.IsOk() then
      var p := NotEnrolled(EnrolledIds(subjectData));
      if subjectData.None? then FilterAll(reply.body, p); Filter(reply.body, p)
      else Filter(reply.body, p)
    else []
  }

  /** Whoever the screen offers in its assign dialog, given the roster the
      server built for the subject from its links (the body of a 200 from
      `Store.AttendanceStore.GetSubjectStudents`), is not yet linked to the
      subject: assigning that student is accepted. */
  lemma AvailableStudentIsAssignable(es: seq<Enrollment>, students: seq<Student>, subjectId: int, name: string,
                                     roster: seq<RosterStudent>, listing: seq<StudentView>, s: StudentView)
    requires RosterOf(RosterLinks(es, subjectId), students) == Some(roster)
    requires s in AvailableStudents(Response(200, listing), Some(SubjectRoster(subjectId, name, roster)))
    ensures !Enrolled(es, s.id, subjectId)
    ensures s.id != 0 && subjectId != 0 ==> AssignDecision(es, Some(s.id), Some(subjectId)).status == Created
  {
    var links := RosterLinks(es, subjectId);
    forall e | e in es && e.subjectId == subjectId
      ensures e.studentId != s.id
    {
      assert e in links;
      var k :| 0 <= k < |links| && links[k] == e;
      assert roster[k] in roster;
    }
  }

  // ---------------------------------------------------------------------
  // The checkboxes (subject_detail_screen.py:190-210)
  // ---------------------------------------------------------------------

  /** An `ft.Checkbox` with the student's id in its `data`. */
  datatype Checkbox = Checkbox(labelText: string, value: bool, data: int)

  /** A control of the student list: the checkbox at an index of the
      checkbox list (the two lists hold the same objects), or a text. */
  datatype ListControl = CheckboxAt(index: nat) | Note(text: string)

  const NoEnrolledStudents := "No enrolled students"

  /** The list showing each of the first `n` checkboxes in turn. */
  function Shown(n: nat): seq<ListControl> {
    seq(n, k requires 0 <= k < n => CheckboxAt(k))
  }

  /** One attendance request of `save_attendance`: POST /classes/<classId>/attendance. */
  datatype AttendanceRequest = AttendanceRequest(classId: int, studentId: int, status: string)

  predicate IsChecked(cb: Checkbox) { cb.value }

  /** One "present" request per checkbox of `checked`, in order. */
  function AsRequests(classId: int, checked: seq<Checkbox>): seq<AttendanceRequest> {
    seq(|checked|, k requires 0 <= k < |checked| => AttendanceRequest(classId, checked[k].data, "present"))
  }

  lemma AsRequestsMembers(classId: int, checked: seq<Checkbox>)
    ensures forall q :: q in AsRequests(classId, checked) <==>
      q.classId == classId && q.status == "present" && exists cb :: cb in checked && cb.data == q.studentId
  {
    var r := AsRequests(classId, checked);
    assert forall q :: q in r ==> exists k :: 0 <= k < |checked| && q == r[k];
    forall cb | cb in checked
      ensures AttendanceRequest(classId, cb.data, "present") in r
    {
      var k :| 0 <= k < |checked| && checked[k] == cb;
      assert r[k] == AttendanceRequest(classId, cb.data, "present");
    }
  }

  /** The requests `save_attendance` builds: one per ticked checkbox, in
      checkbox order, each marking that student present. */
  function Requests(classId: int, cbs: seq<Checkbox>): (r: seq<AttendanceRequest>)
    ensures |r| <= |cbs|
    ensures forall q :: q in r <==>
      q.classId == classId && q.status == "present" && exists cb :: cb in cbs && cb.value && cb.data == q.studentId
    ensures r == [] <==> forall cb :: cb in cbs ==> !cb.value
  {
    var checked := Filter(cbs, IsChecked);
    AsRequestsMembers(classId, checked);
    assert |checked| > 0 ==> checked[0] in checked;
    AsRequests(classId, checked)
  }

  lemma AsRequestsAppend(classId: int, x: seq<Checkbox>, y: seq<Checkbox>)
    ensures AsRequests(classId, x + y) == AsRequests(classId, x) + AsRequests(classId, y)
  {
    var l := AsRequests(classId, x + y);
    var r := AsRequests(classId, x) + AsRequests(classId, y);
    forall k | 0 <= k < |l| ensures l[k] == r[k] {
      if k < |x| {
        assert (x + y)[k] == x[k];
      } else {
        assert (x + y)[k] == y[k - |x|];
      }
    }
  }

  /** The requests of a list of checkboxes are those of its first part
      followed by those of the rest: each box is read once, in order. */
  lemma RequestsAppend(classId: int, a: seq<Checkbox>, b: seq<Checkbox>)
    ensures Requests(classId, a + b) == Requests(classId, a) + Requests(classId, b)
  {
    FilterAppend(a, b, IsChecked);
    AsRequestsAppend(classId, Filter(a, IsChecked), Filter(b, IsChecked));
  }

  /** A single box yields its request when ticked and nothing otherwise. */
  lemma RequestsOne(classId: int, cb: Checkbox)
    ensures Requests(classId, [cb]) == if cb.value then [AttendanceRequest(classId, cb.data, "present")] else []
  {
    assert [cb][1..] == [];
    var checked := Filter([cb], IsChecked);
    assert checked == if cb.value then [cb] else [];
    if cb.value {
      assert AsRequests(classId, checked)[0] == AttendanceRequest(classId, cb.data, "present");
    }
  }

  /** Reading one more box adds its request when it is ticked. */
  lemma RequestsStep(classId: int, cbs: seq<Checkbox>, i: nat)
    requires i < |cbs|
    ensures Requests(classId, cbs[..i + 1]) ==
      Requests(classId, cbs[..i]) + if cbs[i].value then [AttendanceRequest(classId, cbs[i].data, "present")] else []
  {
    assert cbs[..i + 1] == cbs[..i] + [cbs[i]];
    RequestsAppend(classId, cbs[..i], [cbs[i]]);
    RequestsOne(classId, cbs[i]);
  }

  /** Ticking one box of a freshly loaded list yields exactly one request,
      for that box's student. */
  lemma TickOneBox(classId: int, cbs: seq<Checkbox>, k: nat)
    requires k < |cbs|
    requires forall j :: 0 <= j < |cbs| ==> !cbs[j].value
    ensures Requests(classId, cbs[k := cbs[k].(value := true)]) ==
      [AttendanceRequest(classId, cbs[k].data, "present")]
  {
    var ticked := cbs[k := cbs[k].(value := true)];
    assert ticked == cbs[..k] + [ticked[k]] + cbs[k + 1..];
    RequestsAppend(classId, cbs[..k] + [ticked[k]], cbs[k + 1..]);
    RequestsAppend(classId, cbs[..k], [ticked[k]]);
    assert Requests(classId, cbs[..k]) == [];
    assert Requests(classId, cbs[k + 1..]) == [];
    assert ticked[k] in [ticked[k]];
  }

  // ---------------------------------------------------------------------
  // Saving the attendance (subject_detail_screen.py:215-250)
  // ---------------------------------------------------------------------

  /** What pressing "Save Attendance" did. */
  datatype SaveOutcome =
    | NoClassSelected                                           // "Please select a class first."
    | NoneSelected                                              // "No students selected!"
    | Submitted(sent: seq<AttendanceRequest>, allSuccess: bool) // every request was answered
    | Aborted(sent: seq<AttendanceRequest>)                     // a request raised; the rest were not sent

  function Raises(post: AttendanceRequest -> HttpResult<()>): AttendanceRequest -> bool {
    (q: AttendanceRequest) => post(q).ConnectionError?
  }

  /** Sending `reqs` one after another: every request is sent and the save
      counts as a success exactly when each answered 201, unless one raises,
      which ends the sending with that request. */
  function PostAll(reqs: seq<AttendanceRequest>, post: AttendanceRequest -> HttpResult<()>): (o: SaveOutcome)
    ensures o.Submitted? || o.Aborted?
    ensures o.Submitted? <==> forall k :: 0 <= k < |reqs| ==> post(reqs[k]).Response?
    ensures o.Submitted? ==> o.sent == reqs
    ensures o.Submitted? ==> (o.allSuccess <==> forall k :: 0 <= k < |reqs| ==> post(reqs[k]).code == Created.Code())
    ensures o.Aborted? ==>
      && 0 < |o.sent| <= |reqs|
      && o.sent == reqs[..|o.sent|]
      && post(o.sent[|o.sent| - 1]).ConnectionError?
      && forall k :: 0 <= k < |o.sent| - 1 ==> post(o.sent[k]).Response?
  {
    match FindFirst(reqs, Raises(post))
    case Some(k) => Aborted(reqs[..k + 1])
    case None =>
      assert forall k :: 0 <= k < |reqs| ==> reqs[k] in reqs;
      Submitted(reqs, forall k :: 0 <= k < |reqs| ==> post(reqs[k]).code == Created.Code())
  }

  /** The save as a whole: nothing is sent without a class or without a
      ticked box; otherwise the ticked boxes' requests are sent in order. */
  function SaveOf(selectedClass: Option<int>, cbs: seq<Checkbox>, post: AttendanceRequest -> HttpResult<()>)
    : SaveOutcome
  {
    if selectedClass.None? then NoClassSelected
    else if Requests(selectedClass.value, cbs) == [] then NoneSelected
    else PostAll(Requests(selectedClass.value, cbs), post)
  }

  /** The second loop of `save_attendance`: each request is sent in turn and
      any status other than 201 clears `all_success`; a request that raises
      ends the loop. */
  method SendAll(reqs: seq<AttendanceRequest>, post: AttendanceRequest -> HttpResult<()>)
    returns (outcome: SaveOutcome)
    ensures outcome == PostAll(reqs, post)
  {
    var allSuccess := true;
    var j := 0;
    while j < |reqs|
      invariant 0 <= j <= |reqs|
      invariant forall k :: 0 <= k < j ==> post(reqs[k]).Response?
      invariant allSuccess <==> forall k :: 0 <= k < j ==> post(reqs[k]).code == Created.Code()
    {
      var response := post(reqs[j]);
      if response.ConnectionError? {
        assert Raises(post)(reqs[j]);
        assert forall k :: 0 <= k < j ==> !Raises(post)(reqs[k]);
        return Aborted(reqs[..j + 1]);
      }
      if response.code != Created.Code() {
        allSuccess := false;
      }
      j := j + 1;
    }
    assert forall x :: x in reqs ==> exists k :: 0 <= k < |reqs| && x == reqs[k];
    outcome := Submitted(reqs, allSuccess);
  }

  class SubjectDetailScreen {
    var subjectData: Option<SubjectRoster>
    var checkboxes: seq<Checkbox>
    var studentList: seq<ListControl>

    /** The controls match the roster: one checkbox per enrolled student,
        labelled with the name and carrying the id, each shown once in order;
        without a roster, only the placeholder text. */
    ghost predicate Valid()
      reads this
    {
      match subjectData
      case None => checkboxes == [] && studentList == [Note(NoEnrolledStudents)]
      case Some(d) =>
        && |checkboxes| == |d.students|
        && studentList == Shown(|checkboxes|)
        && forall k :: 0 <= k < |checkboxes| ==>
             checkboxes[k].labelText == DisplayName(d.students[k].firstName, d.students[k].lastName) && checkboxes[k].data == d.students[k].id
    }

    /** Opening the screen: the roster is fetched and the list loaded. */
    constructor (reply: HttpResult<SubjectRoster>)
      ensures subjectData == SubjectDetails(reply)
      ensures Valid()
      ensures forall k :: 0 <= k < |checkboxes| ==> !checkboxes[k].value
    {
      subjectData := SubjectDetails(reply);
      checkboxes, studentList := [], [];
      new;
      LoadStudents();
    }

    /** `load_students`: both lists are cleared and rebuilt from the roster,
        every box unticked; the placeholder appears only when no roster was
        fetched, so an empty roster shows an empty list. */
    method LoadStudents()
      modifies this
      ensures subjectData == old(subjectData)
      ensures Valid()
      ensures forall k :: 0 <= k < |checkboxes| ==> !checkboxes[k].value
    {
      checkboxes, studentList := [], [];
      if subjectData.None? {
        studentList := studentList + [Note(NoEnrolledStudents)];
        return;
      }
      var students := subjectData.value.students;
      var i := 0;
      while i < |students|
        invariant 0 <= i <= |students|
        invariant subjectData == old(subjectData) && students == subjectData.value.students
        invariant |checkboxes| == i
        invariant studentList == Shown(i)
        invariant forall k :: 0 <= k < i ==>
          checkboxes[k] == Checkbox(DisplayName(students[k].firstName, students[k].lastName), false, students[k].id)
      {
        var cb := Checkbox(DisplayName(students[i].firstName, students[i].lastName), false, students[i].id);
        checkboxes := checkboxes + [cb];
        studentList := studentList + [CheckboxAt(i)];
        assert studentList == Shown(i + 1);
        i := i + 1;
      }
    }

    /** `refresh_data`, after a student was assigned: the roster is fetched
        again and the list reloaded. */
    method RefreshData(reply: HttpResult<SubjectRoster>)
      modifies this
      ensures subjectData == SubjectDetails(reply)
      ensures Valid()
      ensures forall k :: 0 <= k < |checkboxes| ==> !checkboxes[k].value
    {
      subjectData := SubjectDetails(reply);
      LoadStudents();
    }

    /** The user ticks or unticks the `k`-th box; the list shows the same
        control, so it needs no change. */
    method SetChecked(k: nat, value: bool)
      requires Valid() && k < |checkboxes|
      modifies this
      ensures Valid()
      ensures checkboxes == old(checkboxes)[k := old(checkboxes)[k].(value := value)]
      ensures subjectData == old(subjectData) && studentList == old(studentList)
    {
      checkboxes := checkboxes[k := checkboxes[k].(value := value)];
    }

    /** `save_attendance`.  `selectedClass` is the class dropdown's value and
        `post` the server's answer to each request. */
    method SaveAttendance(selectedClass: Option<int>, post: AttendanceRequest -> HttpResult<()>)
      returns (outcome: SaveOutcome)
      ensures outcome == SaveOf(selectedClass, checkboxes, post)
    {
      if selectedClass.None? {
        return NoClassSelected;
      }
      var selected := CollectRequests(selectedClass.value);
      if selected == [] {
        return NoneSelected;
      }
      outcome := SendAll(selected, post);
    }

    /** The first loop of `save_attendance`: a request for each ticked box. */
    method CollectRequests(classId: int) returns (selected: seq<AttendanceRequest>)
      ensures selected == Requests(classId, checkboxes)
    {
      var cbs := checkboxes;
      selected := [];
      var i := 0;
      while i < |cbs|
        invariant 0 <= i <= |cbs|
        invariant selected == Requests(classId, cbs[..i])
      {
        var cb := cbs[i];
        RequestsStep(classId, cbs, i);
        if cb.value {
          selected := selected + [AttendanceRequest(classId, cb.data, "present")];
        }
        i := i + 1;
      }
      assert cbs[..i] == cbs;
    }
  }
}
