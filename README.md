# CheckMate attendance model

A Dafny model of the core of CheckMate, a class-attendance system: a Flask
backend over a SQLite database of professors, their students and subjects,
enrollment links, class sessions and attendance marks, and two screens of
the flet client that read and write attendance.

- `common.dfy` (module `Common`): optional values, the outcome of a client
  HTTP request, the two query shapes the backend uses on a table
  (`filter_by(...).all()` as `Filter`, `filter_by(...).first()` as
  `FindFirst`, both over a table kept as a sequence in row order) and ASCII
  lower-casing.
- `store.dfy` (module `Store`): the tables of `server.py` as row datatypes,
  the invariants the unique columns and the guards keep (`Db.Valid`), and
  the class `AttendanceStore`, whose six sequence fields are the tables and
  whose members are the routes. Routes that insert a row are methods that
  check their guards in the source's order, then append a row with the next
  id; a refused request leaves every table as it was. Listing routes are
  functions of the tables. `get_class_attendance` keeps its loop.
- `legacy.dfy` (module `LegacyReport`): the older backend `app.py`, whose
  Attendance table is keyed by (enrollment link, class number), and its
  per-subject report loop, proved against a fold over the records.
- `report_screen.dfy` (module `ReportScreen`): the subject report screen,
  which splits a class's attendance into present and absent students and
  fills two columns of names.
- `detail_screen.dfy` (module `DetailScreen`): the subject detail screen,
  which offers the students that can still be assigned, builds one checkbox
  per enrolled student and sends one attendance request per ticked box.

Conventions:

- Row ids are positions plus one, as SQLite hands out row ids for tables
  that never delete. A rejected insert does not use up an id.
- A request field is an `Option`. A text field counts as missing when it is
  absent or empty. An id counts as missing when it is absent or 0, which is
  Python's falsiness.
- The caller of a protected route is a professor id, standing for the
  decoded token. The password hash, the password check and today's date
  are parameters.
- A unique-column clash that the source only finds at commit is an
  explicit check in the model. It answers with the source's error status
  and changes nothing.
- On the client, the reply to each HTTP request is a parameter: a value for
  a GET, and a function from request to reply for the attendance POSTs.

In three places the model follows the code where one might expect otherwise:

- `assign_student` checks no token, no ownership and no existence of the
  student or the subject (server.py:213-234).
- An email that another professor's student already uses makes
  `add_student` answer 500, not a conflict status (server.py:190-210).
- A roster link whose student row is missing makes
  `get_subject_students` and `get_class_attendance` raise. Flask then
  answers 500; the model gives `Refused(ServerError, ...)`.

## Model

| member | source | states |
|---|---|---|
| Common.Filter | server.py:119 | the rows kept are exactly the rows of the table that satisfy the condition, and there are at most as many as in the table |
| Common.FindFirst | server.py:108 | the index found holds a matching row and no earlier row matches; nothing is found exactly when no row matches |
| Common.FilterKeepsIncreasing | server.py:119 | `filter_by(...).all()` keeps the table's order: a key that grows along the table grows along the kept rows |
| Store.SubjectsInOrder | server.py:119 | with ids equal to row positions, the caller's subjects come out in ascending id order |
| Store.StudentsInOrder | server.py:157 | with ids equal to row positions, the caller's students come out in ascending id order |
| Store.ClassesInOrder | server.py:385 | with ids equal to row positions, the caller's classes of a subject come out in ascending id order |
| Common.FilterAppend | server.py:351 | filtering a table that grew at the end filters the old rows and then the new ones, so row order is kept |
| Common.FilterComplement | src/screens/subject/subject_report_screen.py:61-71 | a filter and its complement together keep every row once |
| Common.Lower | server.py:307 | lower-casing keeps the length, turns each upper-case ASCII letter into its lower-case letter, changes no other character, and so leaves an already lower-case status as it is ("Present" is stored as "present") |
| Store.OwnedSubject | server.py:275 | the subject found has the requested id and the caller as professor; none is found exactly when no subject has both |
| Store.SubjectById | server.py:241 | the subject found has the requested id; none is found exactly when no row has it |
| Store.OwnedClass | server.py:314 | the class found has the requested id and the caller as professor; none is found exactly when no class has both |
| Store.StudentById | server.py:248-255 | the student row an enrollment link points at, when one exists |
| Store.RosterLinks | server.py:246 | the links kept are exactly those of the subject |
| Store.StatusOf | server.py:356-361 | with no mark for the (class, student) pair the status is "absent"; otherwise it is the status of a stored mark for that pair |
| Store.RosterOf | server.py:246-258 | one roster entry per link, in link order, each naming the link's student with that student's names; it fails exactly when some link names no student |
| Store.AttendanceView | server.py:351-362 | one entry per link of the class's subject, in link order, with the link's student, that student's names and the stored status or "absent"; it fails exactly when some link names no student |
| Store.AssignDecision | server.py:217-231 | the link is accepted with 201 exactly when both ids are given and the pair is not yet linked; every other request is refused with 400 |
| Store.StatusKeptAfterAppend | server.py:324-326 | once a (class, student) pair has a mark, rows appended later never change the status reported for it: the first status is kept |
| Store.MarkedStatusIsStored | server.py:72 | since marks are unique per (class, student), the status a class reports for a marked student is that student's mark, the first one accepted |
| Store.RosterStudentsDistinct | server.py:50 | since links are unique per (student, subject), a subject's links name each student once |
| Store.MarkedStudentIsListed | server.py:319-326 | every stored mark belongs to an existing class, and its student is among the links of that class's subject |
| Store.AttendanceStore.constructor | server.py:21-72 | the empty database satisfies every table invariant |
| Store.AttendanceStore.Register | server.py:92-102 | a taken email gives 400 and changes nothing; otherwise one professor is appended with the next id and the hashed password, and the email stays unique |
| Store.AttendanceStore.Login | server.py:105-113 | with unique emails, a registered email whose stored hash accepts the password logs in as that professor; any success names such a professor; an unknown email or a wrong password gives 401 |
| Store.AttendanceStore.GetSubjects | server.py:116-126 | the listed subjects are exactly the caller's, one entry per owned row, in ascending id (table) order when ids are row positions; an empty list is still a 200, with "No subjects found." |
| Store.AttendanceStore.AddSubject | server.py:129-150 | a missing name gives 400; a name the caller already uses gives 400; otherwise one subject owned by the caller is appended with the next id; a refusal changes nothing |
| Store.AttendanceStore.GetStudents | server.py:153-174 | the listed students are exactly the caller's, one entry per owned row, in ascending id (table) order when ids are row positions; an empty list is still a 200 |
| Store.AttendanceStore.AddStudent | server.py:177-210 | a missing field gives 400; an email already used under the caller gives 400; an email used under another professor gives 500 and adds nobody; otherwise one student owned by the caller is appended |
| Store.AttendanceStore.AssignStudent | server.py:213-234 | the reply is the assignment verdict on the old links; on 201 exactly one link with the next id is appended, otherwise nothing changes |
| Store.AttendanceStore.GetSubjectStudents | server.py:238-258 | an unknown subject gives 404; a link naming no student gives 500; otherwise the reply is 200 with the subject's id and name and the roster of its links: one student per link, in link order, with that student's names |
| Store.AttendanceStore.CreateClass | server.py:261-296 | a missing subject id gives 400; a subject that is not the caller's gives 404 and creates nothing; otherwise one class is appended that records the caller, the subject and today's date |
| Store.AttendanceStore.MarkAttendance | server.py:299-336 | the guards run in the source's order: student id (400), class of the caller (404), enrollment (400), an earlier mark (400); otherwise one mark is appended with the lower-cased status, "present" by default; the marks stay unique per (class, student) |
| Store.AttendanceStore.GetClassAttendance | server.py:339-373 | a class that is not the caller's gives 404; otherwise the reply is the class and the attendance view of its subject's links, or 500 when a link names no student |
| Store.AttendanceStore.GetClassesForSubject | server.py:376-387 | a subject that is not the caller's gives 404; a subject of the caller always gives 200, and the listing is exactly the caller's classes of that subject, possibly none, one entry per such row, in ascending id order when ids are row positions |
| LegacyReport.LegacyStore.constructor | app.py:52-59 | the empty table has unique (link, class number) pairs |
| LegacyReport.LegacyStore.AssignStudent | app.py:224-244 | the same verdict as the newer backend: both ids required and an already linked pair refused with 400; on 201 one link is appended |
| LegacyReport.LegacyStore.InsertMark | app.py:52-59 | a second row for the same (link, class number) is rejected and nothing changes; otherwise one row is appended, with `present` false by default and today's date |
| LegacyReport.BuildReport | app.py:209-218 | the report the loop builds is the fold of the records in order |
| LegacyReport.GetSubjectAttendanceReport | app.py:201-220 | without a subject of the caller the reply is 403 and nothing is computed; otherwise it is 200 with the report of the records |
| LegacyReport.ReportKeys | app.py:211-217 | the report has an entry for exactly the student ids among the records, so no records give an empty report |
| LegacyReport.ReportNameFromFirstRecord | app.py:212-216 | a student's name comes from the first record seen for that student |
| LegacyReport.ReportClassFromLastRecord | app.py:218 | `classes[n]` holds the presence of the last record for that student and class number |
| LegacyReport.ReportClassesFromRecords | app.py:218 | every class number in a student's entry comes from a record of that student |
| LegacyReport.ReportOfUniqueRecords | app.py:59 | when (student, class number) pairs are unique, as the unique column gives within one subject, the report holds every record's presence |
| ReportScreen.PresentStudents | src/screens/subject/subject_report_screen.py:61 | the present list holds exactly the attendance records whose status is "present" |
| ReportScreen.AbsentFrom | src/screens/subject/subject_report_screen.py:63-71 | the absent list holds exactly the roster students whose id is not a present id |
| ReportScreen.AbsentStudents | src/screens/subject/subject_report_screen.py:66-73 | a roster reply other than 200 gives an empty absent list |
| ReportScreen.PresentAndAbsentDisjoint | src/screens/subject/subject_report_screen.py:61-71 | no student id is both present and absent |
| ReportScreen.EachStudentInOneList | src/screens/subject/subject_report_screen.py:61-71 | when attendance and roster name the same students in the same order, each once, the two lists together hold every student exactly once |
| ReportScreen.ClassReportCoversRoster | src/screens/subject/subject_report_screen.py:55-71 | for the server's replies about a class of a valid store, present plus absent covers each enrolled student once |
| ReportScreen.PresentIffMarkedPresent | src/screens/subject/subject_report_screen.py:61 | for the server's reply about a class of a valid store, a student is listed present exactly when the store holds a "present" mark for that student in that class |
| ReportScreen.SubjectReportScreen.constructor | src/screens/subject/subject_report_screen.py:17-18 | the screen opens with both columns empty |
| ReportScreen.SubjectReportScreen.FillPresentColumn | src/screens/subject/subject_report_screen.py:76-84 | the present column is cleared and then lists each present student's name in order, or holds the one "No students present" placeholder |
| ReportScreen.SubjectReportScreen.FillAbsentColumn | src/screens/subject/subject_report_screen.py:77-91 | the absent column is cleared and then lists each absent student's name in order, or holds the one "No students absent" placeholder |
| ReportScreen.SubjectReportScreen.OnClassChange | src/screens/subject/subject_report_screen.py:50-96 | with no class selected nothing changes; a failed class request leaves both columns as they were; otherwise the columns show the present and absent lists |
| DetailScreen.SubjectDetails | src/screens/subject/subject_detail_screen.py:45-53 | the fetched roster is the reply's body exactly when the request answered 200; any other status or an exception gives `{}` (None) |
| DetailScreen.AvailableStudents | src/screens/subject/subject_detail_screen.py:55-66 | the offered students are exactly the listed students not on the fetched roster, in listing order; no listing gives nothing; no roster removes nobody |
| DetailScreen.AvailableStudentIsAssignable | src/screens/subject/subject_detail_screen.py:59-62 | a student offered against the roster the server builds from a subject's links is not linked to that subject, so assigning that student is accepted |
| DetailScreen.Requests | src/screens/subject/subject_detail_screen.py:222-228 | each request marks a ticked box's student present in the selected class, each ticked box gives one, and there are none exactly when no box is ticked |
| DetailScreen.RequestsAppend | src/screens/subject/subject_detail_screen.py:223-228 | the requests of two runs of boxes are those of the first followed by those of the second, so box order is kept |
| DetailScreen.TickOneBox | src/screens/subject/subject_detail_screen.py:222-228 | ticking one box of a freshly loaded list gives exactly that student's request |
| DetailScreen.PostAll | src/screens/subject/subject_detail_screen.py:234-250 | when no request raises, all are sent and `all_success` holds exactly when every reply is 201; otherwise sending stops at the first request that raises |
| DetailScreen.SendAll | src/screens/subject/subject_detail_screen.py:235-244 | the POST loop's outcome is the sending of the requests in order |
| DetailScreen.SubjectDetailScreen.constructor | src/screens/subject/subject_detail_screen.py:255-256 | opening the screen fetches the roster and shows one unticked box per enrolled student |
| DetailScreen.SubjectDetailScreen.LoadStudents | src/screens/subject/subject_detail_screen.py:192-210 | both lists are rebuilt: one unticked checkbox per roster student, in order, labelled with the name and carrying the id, shown once each; the placeholder appears only when no roster was fetched |
| DetailScreen.SubjectDetailScreen.RefreshData | src/screens/subject/subject_detail_screen.py:170-173 | the roster is fetched again and the checkboxes rebuilt from it |
| DetailScreen.SubjectDetailScreen.SetChecked | src/screens/subject/subject_detail_screen.py:199-207 | a click changes only that box's value; the list shows the same checkbox, so it needs no change |
| DetailScreen.SubjectDetailScreen.CollectRequests | src/screens/subject/subject_detail_screen.py:222-228 | the loop builds one "present" request per ticked box, in box order |
| DetailScreen.SubjectDetailScreen.SaveAttendance | src/screens/subject/subject_detail_screen.py:215-250 | no class selected or no box ticked sends nothing; otherwise the ticked boxes' requests are sent in order and the outcome reports whether every reply was 201 |

## Left out

- JSON parsing, `jsonify` and Flask routing are transport glue. A reply is
  a `Reply` value holding a status, a message and a body.
- JWT encoding and decoding in `token_required` and `login`
  (server.py:76-113) are left out. The 24-hour expiry needs a clock. The
  caller is a professor id, assumed to be an existing professor.
- Store.AttendanceStore.Login: answers with the professor id instead of a
  signed token.
- werkzeug's `generate_password_hash` and `check_password_hash` are
  foreign code. They are the parameters `hash` and `verify`.
- The SQLAlchemy session, commit and rollback are left out, and so are
  SQLite's foreign keys: nothing forces a link or a mark to name an
  existing row. `date.today()` is the parameter `today`.
- Store.AttendanceStore.Register: a request without a `name`, `email` or
  `password` key raises before the insert. A JSON `null` name or email
  breaks a NOT NULL column at commit and gets the 400 of
  server.py:101-102; a `null` password raises in `generate_password_hash`
  (server.py:95), outside the `try`, and gets a 500. The model's fields are
  plain strings, so none of these cases is modelled.
- Store.AttendanceStore.MarkAttendance: a JSON `null` status raises in
  `.lower()` before any guard (server.py:307). An absent status is modelled
  as `None`; a null one is not modelled.
- Common.Lower lower-cases only the ASCII letters. Python's `str.lower`
  also folds other Unicode letters.
- Exception texts in 500 replies ("Failed to ...: <error>") are left out;
  the model keeps the fixed part of each message. Snack-bar texts are left
  out too: each outcome datatype of a screen names which message the source
  shows.
- LegacyReport.GetSubjectAttendanceReport: the report is keyed by the
  student id as an int. The source writes the id in decimal as a JSON key.
  As written, the query at app.py:209 raises: Attendance has no
  `subject_id` column and no link to Student for the join, so every owned
  subject gets a 500. The 200 reply of the model is the evidently intended
  behaviour, built from the records such a query would yield.
- app.py's `present` column is nullable; the model stores the default
  `false` when no value is given and does not model an explicit null.
- The routes of app.py other than the report and `assign_student` repeat
  server.py and are modelled once, in `Store`.
- Flet controls, dialogs, dropdowns and snack bars are left out. The report
  screen's columns are sequences of names. The detail screen's checkboxes
  are values held in one sequence, and the shown list refers to them by
  index, so that both lists see the same control.
- DetailScreen.SaveAttendance: each POST's reply comes from a given
  function. The server's state change for each accepted request is
  `Store.AttendanceStore.MarkAttendance`; the two are not composed here.
- The detail screen's assign and create-class dialogs, `fetch_classes` and
  `refresh_classes` are form plumbing around the modelled routes and are
  left out.
- The login, register, students, subjects, profile and home screens,
  `main.py`, the route guard and the components are UI composition and are
  left out.
- `src/utils/global_state.py` is a process-wide holder and is left out. Its
  `clear_token` assigns `user_token` rather than clearing `user`
  (src/utils/global_state.py:14).
