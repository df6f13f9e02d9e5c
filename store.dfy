/**
 * The attendance store behind the Flask backend (server.py).
 *
 * The five tables (Professor, Student, Subject, the StudentSubject enrollment
 * link, Class) and the Attendance marks are sequences of rows in insertion
 * order; a row's id is its position plus one, as SQLite hands out rowids to a
 * table nobody deletes from.  Each route is one member of `AttendanceStore`:
 * the routes that insert a row are methods that check their guards and then
 * append, the listing routes are functions of the tables.  The caller is the
 * id of the professor that the request's token named; a route answers with a
 * `Reply`, whose status is the HTTP status code it returns.
 */
module Store {
  import opened Common

  // ---------------------------------------------------------------------
  // Replies
  // ---------------------------------------------------------------------

  datatype Status = Created | Ok | BadRequest | Unauthorized | Forbidden | NotFound | ServerError {
    /** The HTTP status code the route answers with. */
    function Code(): int {
      match this
      case Created => 201
      case Ok => 200
      case BadRequest => 400
      case Unauthorized => 401
      case Forbidden => 403
      case NotFound => 404
      case ServerError => 500
    }
  }

  /** A route's answer: a success status with the JSON body it carries, or a
      failure status with the message (or error) it reports. */
  datatype Reply<T> = Done(status: Status, message: string, body: T) | Refused(status: Status, message: string)

  // ---------------------------------------------------------------------
  // Rows (server.py:21-72)
  // ---------------------------------------------------------------------

  /** A calendar day; `date.today()` reaches the model as a parameter. */
  datatype Date = Date(year: int, month: int, day: int)

  /** `password` holds the verifier produced by the password-hashing function. */
  datatype Professor = Professor(id: int, name: string, email: string, password: string)
  datatype Student = Student(id: int, firstName: string, lastName: string, email: string, professorId: int)
  datatype Subject = Subject(id: int, name: string, professorId: int)
  /** The StudentSubject link: the student is enrolled in the subject. */
  datatype Enrollment = Enrollment(id: int, studentId: int, subjectId: int)
  /** A row of the `Class` table: one dated session of a subject. */
  datatype ClassSession = ClassSession(id: int, professorId: int, subjectId: int, date: Date)
  /** A row of the `Attendance` table: the mark of one student in one class. */
  datatype Mark = Mark(id: int, classId: int, studentId: int, status: string)

  // JSON bodies of the replies.
  datatype SubjectView = SubjectView(id: int, name: string)
  datatype StudentView = StudentView(id: int, firstName: string, lastName: string, email: string)
  datatype RosterStudent = RosterStudent(id: int, firstName: string, lastName: string)
  datatype SubjectRoster = SubjectRoster(id: int, name: string, students: seq<RosterStudent>)

  /** A person's name as every screen and report shows it: "first last". */
  function DisplayName(firstName: string, lastName: string): string { firstName + " " + lastName }

  datatype ClassView = ClassView(id: int, subjectId: int, subjectName: string, professorId: int, date: Date)
  datatype AttendanceEntry = AttendanceEntry(studentId: int, firstName: string, lastName: string, status: string)
  datatype ClassAttendance = ClassAttendance(cls: ClassView, attendance: seq<AttendanceEntry>)
  datatype ClassListing = ClassListing(id: int, date: Date)

  // ---------------------------------------------------------------------
  // Request fields.  A field read with `data.get(...)` is missing when the
  // key is absent (None) or when its value is falsy in Python.
  // ---------------------------------------------------------------------

  predicate MissingText(f: Option<string>) { f.None? || f.value == "" }
  predicate MissingId(f: Option<int>) { f.None? || f.value == 0 }

  // ---------------------------------------------------------------------
  // Queries on the tables
  // ---------------------------------------------------------------------

  predicate EmailRegistered(ps: seq<Professor>, email: string) {
    exists p :: p in ps && p.email == email
  }

  predicate SubjectNameTaken(subjects: seq<Subject>, owner: int, name: string) {
    exists s :: s in subjects && s.name == name && s.professorId == owner
  }

  predicate StudentEmailUnder(students: seq<Student>, email: string, owner: int) {
    exists s :: s in students && s.email == email && s.professorId == owner
  }

  predicate StudentEmailTaken(students: seq<Student>, email: string) {
    exists s :: s in students && s.email == email
  }

  predicate Enrolled(es: seq<Enrollment>, studentId: int, subjectId: int) {
    exists e :: e in es && e.studentId == studentId && e.subjectId == subjectId
  }

  predicate Marked(marks: seq<Mark>, classId: int, studentId: int) {
    exists m :: m in marks && m.classId == classId && m.studentId == studentId
  }

  /** The filters of the listing routes: the rows owned by `caller`. */
  function OwnedBy(caller: int): Subject -> bool {
    (s: Subject) => s.professorId == caller
  }

  function StudentOf(caller: int): Student -> bool {
    (s: Student) => s.professorId == caller
  }

  function ClassOf(subjectId: int, caller: int): ClassSession -> bool {
    (c: ClassSession) => c.subjectId == subjectId && c.professorId == caller
  }

  /** Row ids grow along each table, so every listing of a table comes out
      in ascending id order. */
  lemma SubjectsInOrder(subjects: seq<Subject>, p: Subject -> bool)
    ensures SubjectsOk(subjects) ==>
      forall i, j :: 0 <= i < j < |Filter(subjects, p)| ==> Filter(subjects, p)[i].id < Filter(subjects, p)[j].id
  {
    FilterKeepsIncreasing(subjects, p, (s: Subject) => s.id);
  }

  lemma StudentsInOrder(students: seq<Student>, p: Student -> bool)
    ensures StudentsOk(students) ==>
      forall i, j :: 0 <= i < j < |Filter(students, p)| ==> Filter(students, p)[i].id < Filter(students, p)[j].id
  {
    FilterKeepsIncreasing(students, p, (s: Student) => s.id);
  }

  lemma ClassesInOrder(classes: seq<ClassSession>, subjects: seq<Subject>, p: ClassSession -> bool)
    ensures ClassesOk(classes, subjects) ==>
      forall i, j :: 0 <= i < j < |Filter(classes, p)| ==> Filter(classes, p)[i].id < Filter(classes, p)[j].id
  {
    FilterKeepsIncreasing(classes, p, (c: ClassSession) => c.id);
  }

  /** `Subject.query.filter_by(id=id, professor_id=owner).first()` */
  function OwnedSubject(subjects: seq<Subject>, id: int, owner: int): (r: Option<Subject>)
    ensures r.Some? ==> r.value in subjects && r.value.id == id && r.value.professorId == owner
    ensures r.None? <==> forall s :: s in subjects ==> !(s.id == id && s.professorId == owner)
  {
    match FindFirst(subjects, (s: Subject) => s.id == id && s.professorId == owner)
    case Some(k) => Some(subjects[k])
    case None => None
  }

  /** `Subject.query.get(id)` */
  function SubjectById(subjects: seq<Subject>, id: int): (r: Option<Subject>)
    ensures r.Some? ==> r.value in subjects && r.value.id == id
    ensures r.None? <==> forall s :: s in subjects ==> s.id != id
  {
    match FindFirst(subjects, (s: Subject) => s.id == id)
    case Some(k) => Some(subjects[k])
    case None => None
  }

  /** `Class.query.filter_by(id=id, professor_id=owner).first()` */
  function OwnedClass(classes: seq<ClassSession>, id: int, owner: int): (r: Option<ClassSession>)
    ensures r.Some? ==> r.value in classes && r.value.id == id && r.value.professorId == owner
    ensures r.None? <==> forall c :: c in classes ==> !(c.id == id && c.professorId == owner)
  {
    match FindFirst(classes, (c: ClassSession) => c.id == id && c.professorId == owner)
    case Some(k) => Some(classes[k])
    case None => None
  }

  /** `ss.student`: the student row an enrollment points at, if there is one. */
  function StudentById(students: seq<Student>, id: int): (r: Option<Student>)
    ensures r.Some? ==> r.value in students && r.value.id == id
    ensures r.None? <==> forall s :: s in students ==> s.id != id
  {
    match FindFirst(students, (s: Student) => s.id == id)
    case Some(k) => Some(students[k])
    case None => None
  }

  function InSubject(subjectId: int): Enrollment -> bool {
    (e: Enrollment) => e.subjectId == subjectId
  }

  /** `StudentSubject.query.filter_by(subject_id=subjectId).all()` */
  function RosterLinks(es: seq<Enrollment>, subjectId: int): (r: seq<Enrollment>)
    ensures forall e :: e in r <==> e in es && e.subjectId == subjectId
  {
    Filter(es, InSubject(subjectId))
  }

  function MarkFor(classId: int, studentId: int): Mark -> bool {
    (m: Mark) => m.classId == classId && m.studentId == studentId
  }

  /** The status of the mark of `studentId` in class `classId`: the first
      matching row's status, or "absent" when there is no row.  Absence is
      never stored; it is what a missing row reads as. */
  function StatusOf(marks: seq<Mark>, classId: int, studentId: int): (r: string)
    ensures !Marked(marks, classId, studentId) ==> r == "absent"
    ensures Marked(marks, classId, studentId) ==>
      exists m :: m in marks && m.classId == classId && m.studentId == studentId && m.status == r
  {
    match FindFirst(marks, MarkFor(classId, studentId))
    case Some(k) => marks[k].status
    case None => "absent"
  }

  /** `ss.student` resolves to a row with this id and these names. */
  predicate HasStudent(students: seq<Student>, id: int, firstName: string, lastName: string) {
    exists s :: s in students && s.id == id && s.firstName == firstName && s.lastName == lastName
  }

  /** The `students` list of `get_subject_students`: one entry per enrollment
      link, in link order; None when a link names no student row (reading
      `ss.student.id` then raises and Flask answers 500). */
  function RosterOf(links: seq<Enrollment>, students: seq<Student>): (r: Option<seq<RosterStudent>>)
    ensures r.Some? <==> forall k :: 0 <= k < |links| ==> StudentById(students, links[k].studentId).Some?
    ensures r.Some? ==> |r.value| == |links|
    ensures r.Some? ==> forall k :: 0 <= k < |links| ==>
      r.value[k].id == links[k].studentId &&
      HasStudent(students, r.value[k].id, r.value[k].firstName, r.value[k].lastName)
  {
    if links == [] then Some([])
    else match StudentById(students, links[0].studentId)
      case None => None
      case Some(s) =>
        match RosterOf(links[1..], students)
        case None => None
        case Some(rest) => Some([RosterStudent(s.id, s.firstName, s.lastName)] + rest)
  }

  /** The `attendance` list of `get_class_attendance` for the links `roster`
      of the class's subject: one entry per link, in link order, whose status
      is the stored mark's or "absent"; None when a link names no student row. */
  function AttendanceView(roster: seq<Enrollment>, classId: int, students: seq<Student>, marks: seq<Mark>)
    : (r: Option<seq<AttendanceEntry>>)
    ensures r.Some? <==> forall k :: 0 <= k < |roster| ==> StudentById(students, roster[k].studentId).Some?
    ensures r.Some? ==> |r.value| == |roster|
    ensures r.Some? ==> forall k :: 0 <= k < |roster| ==>
      r.value[k].studentId == roster[k].studentId &&
      r.value[k].status == StatusOf(marks, classId, roster[k].studentId) &&
      HasStudent(students, r.value[k].studentId, r.value[k].firstName, r.value[k].lastName)
  {
    if roster == [] then Some([])
    else
      var init := AttendanceView(roster[..|roster| - 1], classId, students, marks);
      var last := roster[|roster| - 1];
      match StudentById(students, last.studentId)
      case None => None
      case Some(s) =>
        if init.None? then None
        else Some(init.value + [AttendanceEntry(s.id, s.firstName, s.lastName, StatusOf(marks, classId, last.studentId))])
  }

  /** The verdict of `assign_student` on a request (server.py:217-225): both
      ids are required, and an already enrolled pair is refused.  Nothing
      checks the caller, nor that the student or the subject exists. */
  function AssignDecision(es: seq<Enrollment>, studentId: Option<int>, subjectId: Option<int>): (r: Reply<()>)
    ensures r.status == Created <==>
      !MissingId(studentId) && !MissingId(subjectId) && !Enrolled(es, studentId.value, subjectId.value)
    ensures r.status != Created ==> r.Refused? && r.status == BadRequest
  {
    if MissingId(studentId) || MissingId(subjectId) then
      Refused(BadRequest, "Student ID and Subject ID are required.")
    else if Enrolled(es, studentId.value, subjectId.value) then
      Refused(BadRequest, "Student is already assigned to this subject.")
    else
      Done(Created, "Student successfully assigned to subject.", ())
  }

  // ---------------------------------------------------------------------
  // The tables together, and the invariant every route keeps
  // ---------------------------------------------------------------------

  ghost predicate ProfessorsOk(ps: seq<Professor>) {
    && (forall i :: 0 <= i < |ps| ==> ps[i].id == i + 1)
    && (forall i, j :: 0 <= i < j < |ps| ==> ps[i].email != ps[j].email)
  }

  /** Student emails are unique across all professors (the unique column). */
  ghost predicate StudentsOk(ss: seq<Student>) {
    && (forall i :: 0 <= i < |ss| ==> ss[i].id == i + 1)
    && (forall i, j :: 0 <= i < j < |ss| ==> ss[i].email != ss[j].email)
  }

  /** Subject names are unique per professor, not globally. */
  ghost predicate SubjectsOk(subjects: seq<Subject>) {
    && (forall i :: 0 <= i < |subjects| ==> subjects[i].id == i + 1)
    && (forall i, j :: 0 <= i < j < |subjects| ==>
          !(subjects[i].name == subjects[j].name && subjects[i].professorId == subjects[j].professorId))
  }

  /** A student is linked to a subject at most once. */
  ghost predicate EnrollmentsOk(es: seq<Enrollment>) {
    && (forall i :: 0 <= i < |es| ==> es[i].id == i + 1)
    && (forall i, j :: 0 <= i < j < |es| ==>
          !(es[i].studentId == es[j].studentId && es[i].subjectId == es[j].subjectId))
  }

  /** Every class belongs to an existing subject of the professor who created it. */
  ghost predicate ClassesOk(classes: seq<ClassSession>, subjects: seq<Subject>) {
    && (forall i :: 0 <= i < |classes| ==> classes[i].id == i + 1)
    && (forall c :: c in classes ==>
          exists s :: s in subjects && s.id == c.subjectId && s.professorId == c.professorId)
  }

  /** At most one mark per (class, student); every mark is lower-case, is for
      an existing class, and is for a student enrolled in that class's subject. */
  ghost predicate MarksOk(marks: seq<Mark>, classes: seq<ClassSession>, es: seq<Enrollment>) {
    && (forall i :: 0 <= i < |marks| ==> marks[i].id == i + 1)
    && (forall i, j :: 0 <= i < j < |marks| ==>
          !(marks[i].classId == marks[j].classId && marks[i].studentId == marks[j].studentId))
    && (forall m :: m in marks ==> IsLower(m.status))
    && (forall m :: m in marks ==>
          exists c :: c in classes && c.id == m.classId && Enrolled(es, m.studentId, c.subjectId))
  }

  datatype Db = Db(
    professors: seq<Professor>,
    students: seq<Student>,
    subjects: seq<Subject>,
    enrollments: seq<Enrollment>,
    classes: seq<ClassSession>,
    marks: seq<Mark>)
  {
    ghost predicate Valid() {
      && ProfessorsOk(professors)
      && StudentsOk(students)
      && SubjectsOk(subjects)
      && EnrollmentsOk(enrollments)
      && ClassesOk(classes, subjects)
      && MarksOk(marks, classes, enrollments)
    }
  }

  /** With marks unique per (class, student), the status a class's attendance
      view reports for a marked student is the status of that student's mark:
      whatever the first accepted mark recorded. */
  lemma MarkedStatusIsStored(db: Db, m: Mark)
    requires db.Valid()
    requires m in db.marks
    ensures StatusOf(db.marks, m.classId, m.studentId) == m.status
  {
    var i :| 0 <= i < |db.marks| && db.marks[i] == m;
    var k := FindFirst(db.marks, MarkFor(m.classId, m.studentId)).value;
    assert k <= i;
    assert !(k < i);
  }

  /** Marks are write-once: once a (class, student) pair has a mark, rows
      added after it never change the status reported for the pair. */
  lemma StatusKeptAfterAppend(marks: seq<Mark>, later: seq<Mark>, classId: int, studentId: int)
    requires Marked(marks, classId, studentId)
    ensures StatusOf(marks + later, classId, studentId) == StatusOf(marks, classId, studentId)
  {
    var m :| m in marks && m.classId == classId && m.studentId == studentId;
    assert MarkFor(classId, studentId)(m);
    FindFirstAppend(marks, later, MarkFor(classId, studentId));
  }

  /** The links of one subject name each student at most once, so a class's
      attendance view and the subject's roster list every student once. */
  lemma RosterStudentsDistinct(es: seq<Enrollment>, subjectId: int)
    requires EnrollmentsOk(es)
    ensures forall i, j :: 0 <= i < j < |RosterLinks(es, subjectId)| ==>
      RosterLinks(es, subjectId)[i].studentId != RosterLinks(es, subjectId)[j].studentId
  {
    forall i, j | 0 <= i < j < |es| ensures es[i] != es[j] {
      assert es[i].id != es[j].id;
    }
    FilterDistinct(es, InSubject(subjectId));
    var r := RosterLinks(es, subjectId);
    forall i, j | 0 <= i < j < |r| ensures r[i].studentId != r[j].studentId {
      assert r[i] in r && r[j] in r;
      var a :| 0 <= a < |es| && es[a] == r[i];
      var b :| 0 <= b < |es| && es[b] == r[j];
      var x, y := es[a], es[b];
      assert a != b && x.subjectId == y.subjectId;
      if a < b {
        assert !(x.studentId == y.studentId && x.subjectId == y.subjectId);
      } else {
        assert !(y.studentId == x.studentId && y.subjectId == x.subjectId);
      }
    }
  }

  /** A mark in a valid store is for a student enrolled in its class's subject,
      so the view of that class lists the student. */
  lemma {:induction false} MarkedStudentIsListed(db: Db, m: Mark)
    requires db.Valid()
    requires m in db.marks
    ensures exists c :: c in db.classes && c.id == m.classId &&
                        (exists e :: e in RosterLinks(db.enrollments, c.subjectId) && e.studentId == m.studentId)
  {
    var c :| c in db.classes && c.id == m.classId && Enrolled(db.enrollments, m.studentId, c.subjectId);
    var e :| e in db.enrollments && e.studentId == m.studentId && e.subjectId == c.subjectId;
    assert e in RosterLinks(db.enrollments, c.subjectId);
  }

  // ---------------------------------------------------------------------
  // The store and its routes
  // ---------------------------------------------------------------------

  const ClassNotFound := "Class not found or does not belong to the current professor."
  const SubjectNotOwned := "Subject not found or does not belong to the current professor."
  /** The body Flask sends when a route raises outside its own try block. */
  const InternalError := "Internal Server Error"

  class AttendanceStore {
    var professors: seq<Professor>
    var students: seq<Student>
    var subjects: seq<Subject>
    var enrollments: seq<Enrollment>
    var classes: seq<ClassSession>
    var marks: seq<Mark>

    ghost function Tables(): Db
      reads this
    {
      Db(professors, students, subjects, enrollments, classes, marks)
    }

    ghost predicate Valid()
      reads this
    {
      Tables().Valid()
    }

    /** `db.create_all()` on an empty database. */
    constructor ()
      ensures Valid()
      ensures Tables() == Db([], [], [], [], [], [])
    {
      professors, students, subjects := [], [], [];
      enrollments, classes, marks := [], [], [];
    }

    /** POST /register.  The unique email column makes the commit fail for an
        email already registered; the route answers 400 and adds nobody. */
    method Register(name: string, email: string, password: string, hash: string -> string)
      returns (r: Reply<()>)
      requires Valid()
      modifies this
      ensures Valid()
      ensures EmailRegistered(old(professors), email) ==>
        r == Refused(BadRequest, "Registration failed. Email might be already in use.") &&
        Tables() == old(Tables())
      ensures !EmailRegistered(old(professors), email) ==>
        r == Done(Created, "Professor registered successfully!", ()) &&
        Tables() == old(Tables()).(professors :=
          old(professors) + [Professor(|old(professors)| + 1, name, email, hash(password))])
    {
      var row := Professor(|professors| + 1, name, email, hash(password));
      if EmailRegistered(professors, email) {
        return Refused(BadRequest, "Registration failed. Email might be already in use.");
      }
      professors := professors + [row];
      r := Done(Created, "Professor registered successfully!", ());
    }

    /** POST /login, up to the token: the credential check answers with the id
        the token would carry.  `verify` stands for `check_password_hash`. */
    function Login(email: string, password: string, verify: (string, string) -> bool): (r: Reply<int>)
      reads this
      ensures r.Done? ==> r.status == Ok
      ensures r.Done? ==>
        exists p :: p in professors && p.email == email && p.id == r.body && verify(p.password, password)
      ensures r.Refused? ==> r == Refused(Unauthorized, "Login failed. Check email and password.")
      ensures !EmailRegistered(professors, email) ==> r.Refused?
      ensures ProfessorsOk(professors) ==>
        forall p :: p in professors && p.email == email && verify(p.password, password) ==> r == Done(Ok, "", p.id)
    {
      match FindFirst(professors, (p: Professor) => p.email == email)
      case None => Refused(Unauthorized, "Login failed. Check email and password.")
      case Some(k) =>
        if !verify(professors[k].password, password) then
          Refused(Unauthorized, "Login failed. Check email and password.")
        else
          Done(Ok, "", professors[k].id)
    }

    /** GET /subjects: the caller's subjects, in table order; none is a 200
        with an empty list. */
    function GetSubjects(caller: int): (r: Reply<seq<SubjectView>>)
      reads this
      ensures r.Done? && r.status == Ok
      ensures forall v :: v in r.body <==>
        exists s :: s in subjects && s.professorId == caller && v == SubjectView(s.id, s.name)
      ensures r.message == if r.body == [] then "No subjects found." else "Subjects fetched successfully!"
      ensures |r.body| == |Filter(subjects, OwnedBy(caller))|
      ensures SubjectsOk(subjects) ==> forall i, j :: 0 <= i < j < |r.body| ==> r.body[i].id < r.body[j].id
    {
      var owned := Filter(subjects, OwnedBy(caller));
      SubjectsInOrder(subjects, OwnedBy(caller));
      var views := seq(|owned|, k requires 0 <= k < |owned| => SubjectView(owned[k].id, owned[k].name));
      assert forall s :: s in owned ==> SubjectView(s.id, s.name) in views by {
        forall s | s in owned ensures SubjectView(s.id, s.name) in views {
          var k :| 0 <= k < |owned| && owned[k] == s;
          assert views[k] == SubjectView(s.id, s.name);
        }
      }
      assert forall k :: 0 <= k < |views| ==> owned[k] in owned;
      if owned == [] then Done(Ok, "No subjects found.", [])
      else Done(Ok, "Subjects fetched successfully!", views)
    }

    /** POST /subjects: the name is required and must be new among the caller's
        own subjects; the subject is created for the caller. */
    method AddSubject(caller: int, name: Option<string>) returns (r: Reply<SubjectView>)
      requires Valid()
      modifies this
      ensures Valid()
      ensures r.Refused? ==> Tables() == old(Tables())
      ensures MissingText(name) ==> r == Refused(BadRequest, "Subject name is required.")
      ensures !MissingText(name) && SubjectNameTaken(old(subjects), caller, name.value) ==>
        r == Refused(BadRequest, "Subject already exists.")
      ensures !MissingText(name) && !SubjectNameTaken(old(subjects), caller, name.value) ==>
        var id := |old(subjects)| + 1;
        r == Done(Created, "Subject created successfully!", SubjectView(id, name.value)) &&
        Tables() == old(Tables()).(subjects := old(subjects) + [Subject(id, name.value, caller)])
    {
      if MissingText(name) {
        return Refused(BadRequest, "Subject name is required.");
      }
      if SubjectNameTaken(subjects, caller, name.value) {
        return Refused(BadRequest, "Subject already exists.");
      }
      var row := Subject(|subjects| + 1, name.value, caller);
      subjects := subjects + [row];
      r := Done(Created, "Subject created successfully!", SubjectView(row.id, row.name));
    }

    /** GET /students: the caller's students, in table order. */
    function GetStudents(caller: int): (r: Reply<seq<StudentView>>)
      reads this
      ensures r.Done? && r.status == Ok
      ensures forall v :: v in r.body <==>
        exists s :: s in students && s.professorId == caller &&
          v == StudentView(s.id, s.firstName, s.lastName, s.email)
      ensures r.message == if r.body == [] then "No students found." else "Students fetched successfully!"
      ensures |r.body| == |Filter(students, StudentOf(caller))|
      ensures StudentsOk(students) ==> forall i, j :: 0 <= i < j < |r.body| ==> r.body[i].id < r.body[j].id
    {
      var owned := Filter(students, StudentOf(caller));
      StudentsInOrder(students, StudentOf(caller));
      var views := seq(|owned|, k requires 0 <= k < |owned| =>
        StudentView(owned[k].id, owned[k].firstName, owned[k].lastName, owned[k].email));
      assert forall s :: s in owned ==> StudentView(s.id, s.firstName, s.lastName, s.email) in views by {
        forall s | s in owned ensures StudentView(s.id, s.firstName, s.lastName, s.email) in views {
          var k :| 0 <= k < |owned| && owned[k] == s;
          assert views[k] == StudentView(s.id, s.firstName, s.lastName, s.email);
        }
      }
      assert forall k :: 0 <= k < |views| ==> owned[k] in owned;
      if owned == [] then Done(Ok, "No students found.", [])
      else Done(Ok, "Students fetched successfully!", views)
    }

    /** POST /students.  All three fields are required; an email already used
        under the caller's account is refused with 400; an email used under
        another professor passes that check but breaks the unique email column
        at commit, so the route answers 500 and adds nobody. */
    method AddStudent(caller: int, firstName: Option<string>, lastName: Option<string>, email: Option<string>)
      returns (r: Reply<StudentView>)
      requires Valid()
      modifies this
      ensures Valid()
      ensures r.Refused? ==> Tables() == old(Tables())
      ensures MissingText(email) || MissingText(firstName) || MissingText(lastName) ==>
        r == Refused(BadRequest, "Missing required fields.")
      ensures !MissingText(email) && !MissingText(firstName) && !MissingText(lastName) ==>
        && (StudentEmailUnder(old(students), email.value, caller) ==>
              r == Refused(BadRequest, "Student already exists under your account."))
        && (!StudentEmailUnder(old(students), email.value, caller) && StudentEmailTaken(old(students), email.value) ==>
              r == Refused(ServerError, "Failed to add student."))
        && (!StudentEmailTaken(old(students), email.value) ==>
              var row := Student(|old(students)| + 1, firstName.value, lastName.value, email.value, caller);
              r == Done(Created, "Student added successfully!", StudentView(row.id, row.firstName, row.lastName, row.email)) &&
              Tables() == old(Tables()).(students := old(students) + [row]))
    {
      if MissingText(email) || MissingText(firstName) || MissingText(lastName) {
        return Refused(BadRequest, "Missing required fields.");
      }
      if StudentEmailUnder(students, email.value, caller) {
        return Refused(BadRequest, "Student already exists under your account.");
      }
      var row := Student(|students| + 1, firstName.value, lastName.value, email.value, caller);
      if StudentEmailTaken(students, email.value) {
        // the unique email column rejects the commit
        return Refused(ServerError, "Failed to add student.");
      }
      students := students + [row];
      r := Done(Created, "Student added successfully!", StudentView(row.id, row.firstName, row.lastName, row.email));
    }

    /** POST /assign_student.  No token, ownership or existence check: any two
        ids not yet linked are linked, and a linked pair is refused. */
    method AssignStudent(studentId: Option<int>, subjectId: Option<int>) returns (r: Reply<()>)
      requires Valid()
      modifies this
      ensures Valid()
      ensures r == AssignDecision(old(enrollments), studentId, subjectId)
      ensures r.Refused? ==> Tables() == old(Tables())
      ensures r.Done? ==>
        Tables() == old(Tables()).(enrollments :=
          old(enrollments) + [Enrollment(|old(enrollments)| + 1, studentId.value, subjectId.value)])
    {
      r := AssignDecision(enrollments, studentId, subjectId);
      if r.Done? {
        var row := Enrollment(|enrollments| + 1, studentId.value, subjectId.value);
        EnrollmentsGrow(marks, classes, enrollments, row);
        enrollments := enrollments + [row];
      }
    }

    /** GET /subject/<id>/students (no token): the subject and the students
        linked to it, in link order. */
    function GetSubjectStudents(subjectId: int): (r: Reply<SubjectRoster>)
      reads this
      ensures SubjectById(subjects, subjectId).None? ==> r == Refused(NotFound, "Subject not found")
      ensures SubjectById(subjects, subjectId).Some? && RosterOf(RosterLinks(enrollments, subjectId), students).None? ==>
        r == Refused(ServerError, InternalError)
      ensures SubjectById(subjects, subjectId).Some? && RosterOf(RosterLinks(enrollments, subjectId), students).Some? ==>
        r == Done(Ok, "", SubjectRoster(subjectId, SubjectById(subjects, subjectId).value.name,
                                         RosterOf(RosterLinks(enrollments, subjectId), students).value))
      ensures r.Done? ==> r.status == Ok && r.body.id == subjectId
      ensures r.Done? ==> exists s :: s in subjects && s.id == subjectId && s.name == r.body.name
      ensures r.Done? ==> |r.body.students| == |RosterLinks(enrollments, subjectId)|
      ensures r.Done? ==> forall k :: 0 <= k < |r.body.students| ==>
        r.body.students[k].id == RosterLinks(enrollments, subjectId)[k].studentId
    {
      match SubjectById(subjects, subjectId)
      case None => Refused(NotFound, "Subject not found")
      case Some(s) =>
        match RosterOf(RosterLinks(enrollments, subjectId), students)
        case None => Refused(ServerError, InternalError)
        case Some(roster) => Done(Ok, "", SubjectRoster(s.id, s.name, roster))
    }

    /** POST /classes: a class can be opened only on a subject of the caller;
        it records the caller, the subject and today's date. */
    method CreateClass(caller: int, subjectId: Option<int>, today: Date) returns (r: Reply<ClassView>)
      requires Valid()
      modifies this
      ensures Valid()
      ensures r.Refused? ==> Tables() == old(Tables())
      ensures MissingId(subjectId) ==> r == Refused(BadRequest, "Subject ID is required.")
      ensures !MissingId(subjectId) && OwnedSubject(old(subjects), subjectId.value, caller).None? ==>
        r == Refused(NotFound, SubjectNotOwned)
      ensures !MissingId(subjectId) && OwnedSubject(old(subjects), subjectId.value, caller).Some? ==>
        var id := |old(classes)| + 1;
        var s := OwnedSubject(old(subjects), subjectId.value, caller).value;
        r == Done(Created, "Class created successfully!", ClassView(id, s.id, s.name, caller, today)) &&
        Tables() == old(Tables()).(classes := old(classes) + [ClassSession(id, caller, s.id, today)])
    {
      if MissingId(subjectId) {
        return Refused(BadRequest, "Subject ID is required.");
      }
      var subject := OwnedSubject(subjects, subjectId.value, caller);
      if subject.None? {
        return Refused(NotFound, SubjectNotOwned);
      }
      var s := subject.value;
      var row := ClassSession(|classes| + 1, caller, s.id, today);
      ClassesGrow(marks, classes, enrollments, row);
      classes := classes + [row];
      r := Done(Created, "Class created successfully!", ClassView(row.id, s.id, s.name, caller, today));
    }

    /** POST /classes/<id>/attendance.  The guards run in the source's order:
        student id, class of the caller, enrollment, no earlier mark; then one
        mark is stored with the lower-cased status, "present" by default. */
    method MarkAttendance(caller: int, classId: int, studentId: Option<int>, status: Option<string>)
      returns (r: Reply<()>)
      requires Valid()
      modifies this
      ensures Valid()
      ensures r.Refused? ==> Tables() == old(Tables())
      ensures MissingId(studentId) ==> r == Refused(BadRequest, "Student ID is required.")
      ensures !MissingId(studentId) ==>
        var cls := OwnedClass(old(classes), classId, caller);
        && (cls.None? ==> r == Refused(NotFound, ClassNotFound))
        && (cls.Some? && !Enrolled(old(enrollments), studentId.value, cls.value.subjectId) ==>
              r == Refused(BadRequest, "Student is not assigned to this subject."))
        && (cls.Some? && Enrolled(old(enrollments), studentId.value, cls.value.subjectId) &&
            Marked(old(marks), classId, studentId.value) ==>
              r == Refused(BadRequest, "Attendance already marked for this student in this class."))
        && (cls.Some? && Enrolled(old(enrollments), studentId.value, cls.value.subjectId) &&
            !Marked(old(marks), classId, studentId.value) ==>
              r == Done(Created, "Attendance marked successfully!", ()) &&
              Tables() == old(Tables()).(marks := old(marks) +
                [Mark(|old(marks)| + 1, classId, studentId.value, Lower(status.GetOr("present")))]))
    {
      var lowered := Lower(status.GetOr("present"));
      if MissingId(studentId) {
        return Refused(BadRequest, "Student ID is required.");
      }
      var cls := OwnedClass(classes, classId, caller);
      if cls.None? {
        return Refused(NotFound, ClassNotFound);
      }
      if !Enrolled(enrollments, studentId.value, cls.value.subjectId) {
        return Refused(BadRequest, "Student is not assigned to this subject.");
      }
      if Marked(marks, classId, studentId.value) {
        return Refused(BadRequest, "Attendance already marked for this student in this class.");
      }
      var row := Mark(|marks| + 1, classId, studentId.value, lowered);
      MarksGrow(marks, classes, enrollments, row, cls.value);
      marks := marks + [row];
      r := Done(Created, "Attendance marked successfully!", ());
    }

    /** GET /classes/<id>: one entry per enrollment link of the class's subject,
        in link order, each with its stored status or "absent". */
    method GetClassAttendance(caller: int, classId: int) returns (r: Reply<ClassAttendance>)
      ensures OwnedClass(classes, classId, caller).None? ==> r == Refused(NotFound, ClassNotFound)
      ensures OwnedClass(classes, classId, caller).Some? ==>
        var c := OwnedClass(classes, classId, caller).value;
        var view := AttendanceView(RosterLinks(enrollments, c.subjectId), classId, students, marks);
        var subject := SubjectById(subjects, c.subjectId);
        if view.Some? && subject.Some? then
          r == Done(Ok, "", ClassAttendance(ClassView(c.id, c.subjectId, subject.value.name, c.professorId, c.date), view.value))
        else
          r == Refused(ServerError, InternalError)
    {
      var found := OwnedClass(classes, classId, caller);
      if found.None? {
        return Refused(NotFound, ClassNotFound);
      }
      var c := found.value;
      var roster := RosterLinks(enrollments, c.subjectId);
      var data: seq<AttendanceEntry> := [];
      var i := 0;
      while i < |roster|
        invariant 0 <= i <= |roster|
        invariant AttendanceView(roster[..i], classId, students, marks) == Some(data)
      {
        var ss := roster[i];
        var student := StudentById(students, ss.studentId);
        if student.None? {
          // `ss.student` is None: reading its id raises
          return Refused(ServerError, InternalError);
        }
        var st := StatusOf(marks, classId, ss.studentId);
        AttendanceViewStep(roster, i, classId, students, marks, data);
        data := data + [AttendanceEntry(student.value.id, student.value.firstName, student.value.lastName, st)];
        i := i + 1;
      }
      assert roster[..i] == roster;
      var subject := SubjectById(subjects, c.subjectId);
      if subject.None? {
        // `class_.subject` is None: reading its name raises
        return Refused(ServerError, InternalError);
      }
      r := Done(Ok, "", ClassAttendance(ClassView(c.id, c.subjectId, subject.value.name, c.professorId, c.date), data));
    }

    /** GET /subject/<id>/classes: the caller's classes of one of the caller's
        subjects, in table order. */
    function GetClassesForSubject(caller: int, subjectId: int): (r: Reply<seq<ClassListing>>)
      reads this
      ensures OwnedSubject(subjects, subjectId, caller).None? <==>
        r == Refused(NotFound, "Subject not found or access denied")
      ensures OwnedSubject(subjects, subjectId, caller).Some? <==> r.Done?
      ensures r.Done? ==> r.status == Ok
      ensures r.Done? ==> forall l :: l in r.body <==>
          exists c :: c in classes && c.subjectId == subjectId && c.professorId == caller && l == ClassListing(c.id, c.date)
      ensures r.Done? ==> |r.body| == |Filter(classes, ClassOf(subjectId, caller))|
      ensures r.Done? && ClassesOk(classes, subjects) ==>
        forall i, j :: 0 <= i < j < |r.body| ==> r.body[i].id < r.body[j].id
    {
      if OwnedSubject(subjects, subjectId, caller).None? then
        Refused(NotFound, "Subject not found or access denied")
      else
        var owned := Filter(classes, ClassOf(subjectId, caller));
        ClassesInOrder(classes, subjects, ClassOf(subjectId, caller));
        var listing := seq(|owned|, k requires 0 <= k < |owned| => ClassListing(owned[k].id, owned[k].date));
        assert forall c :: c in owned ==> ClassListing(c.id, c.date) in listing by {
          forall c | c in owned ensures ClassListing(c.id, c.date) in listing {
            var k :| 0 <= k < |owned| && owned[k] == c;
            assert listing[k] == ClassListing(c.id, c.date);
          }
        }
        assert forall k :: 0 <= k < |listing| ==> owned[k] in owned;
        Done(Ok, "", listing)
    }
  }

  /** One more link of the attendance loop extends the view by its entry. */
  lemma AttendanceViewStep(roster: seq<Enrollment>, i: nat, classId: int, students: seq<Student>, marks: seq<Mark>,
                           data: seq<AttendanceEntry>)
    requires i < |roster|
    requires AttendanceView(roster[..i], classId, students, marks) == Some(data)
    requires StudentById(students, roster[i].studentId).Some?
    ensures var s := StudentById(students, roster[i].studentId).value;
      AttendanceView(roster[..i + 1], classId, students, marks) ==
        Some(data + [AttendanceEntry(s.id, s.firstName, s.lastName, StatusOf(marks, classId, roster[i].studentId))])
  {
    assert roster[..i + 1][..i] == roster[..i];
  }

  /** A new enrollment link keeps every mark's enrollment witness. */
  lemma EnrollmentsGrow(marks: seq<Mark>, classes: seq<ClassSession>, es: seq<Enrollment>, e: Enrollment)
    requires MarksOk(marks, classes, es)
    ensures MarksOk(marks, classes, es + [e])
  {
    forall m | m in marks
      ensures exists c :: c in classes && c.id == m.classId && Enrolled(es + [e], m.studentId, c.subjectId)
    {
      var c :| c in classes && c.id == m.classId && Enrolled(es, m.studentId, c.subjectId);
      var x :| x in es && x.studentId == m.studentId && x.subjectId == c.subjectId;
      assert x in es + [e];
    }
  }

  /** A mark accepted by `MarkAttendance` keeps the marks' invariant. */
  lemma MarksGrow(marks: seq<Mark>, classes: seq<ClassSession>, es: seq<Enrollment>, row: Mark, c: ClassSession)
    requires MarksOk(marks, classes, es)
    requires c in classes && c.id == row.classId && Enrolled(es, row.studentId, c.subjectId)
    requires !Marked(marks, row.classId, row.studentId)
    requires row.id == |marks| + 1 && IsLower(row.status)
    ensures MarksOk(marks + [row], classes, es)
  {
    var ms := marks + [row];
    forall i, j | 0 <= i < j < |ms|
      ensures !(ms[i].classId == ms[j].classId && ms[i].studentId == ms[j].studentId)
    {
      if j == |marks| {
        assert ms[i] in marks;
      }
    }
  }

  /** A new class keeps every mark's class witness. */
  lemma ClassesGrow(marks: seq<Mark>, classes: seq<ClassSession>, es: seq<Enrollment>, c: ClassSession)
    requires MarksOk(marks, classes, es)
    ensures MarksOk(marks, classes + [c], es)
  {
    forall m | m in marks
      ensures exists c' :: c' in classes + [c] && c'.id == m.classId && Enrolled(es, m.studentId, c'.subjectId)
    {
      var c' :| c' in classes && c'.id == m.classId && Enrolled(es, m.studentId, c'.subjectId);
      assert c' in classes + [c];
    }
  }
}
