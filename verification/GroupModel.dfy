/** Enrolments, groups, submissions and grades: the tables, and each request as a function from the
    tables to the tables after it.

    A request handler with its transaction is one atomic step. A failed request reports an error and,
    as its transaction rolls back, changes nothing; only a recorded result stays when charging slip
    days for it fails afterwards. Calls to GitHub and checks on names and profiles enter as flags that
    say whether they succeed. */
module GroupModel {
  import opened Sequences

  // ---------- tables ----------

  datatype UserStatus = NoStatus | Pending | Student | Teacher
  datatype Enrollment = Enrollment(status: UserStatus, group: nat)       // group 0: in no group
  datatype GroupStatus = GroupPending | GroupApproved
  datatype Group = Group(course: nat, users: set<nat>, status: GroupStatus)
  datatype Status = None | Approved | Rejected | Revision
  datatype Grade = Grade(user: nat, status: Status)
  datatype Submission = Submission(assignment: nat, user: nat, group: nat, score: nat, grades: seq<Grade>)
  datatype Assignment = Assignment(course: nat, autoApprove: bool, scoreLimit: nat)

  /** A course and a user: there is at most one enrolment for each. */
  type Key = (nat, nat)

  datatype Tables = Tables(
    courses: set<nat>,
    users: set<nat>,
    assignments: map<nat, Assignment>,
    enrollments: map<Key, Enrollment>,
    groups: map<nat, Group>,
    submissions: map<nat, Submission>,
    nextGroup: nat,
    nextSubmission: nat)

  datatype Outcome =
    | Ok
    | NotFound | IncompleteProfile | AlreadyEnrolled | BadTransition | BadName | ProfileFailed | ScmFailed
    | NoUsers | NotEnrolled | InAnotherGroup | NotAccepted | UsersMismatch
    | DuplicateGroup | UpdateGroupFailed | EmptyGroup | InvalidSubmission | SlipDaysFailed

  datatype GroupRequest = GroupRequest(id: nat, course: nat, users: seq<nat>)

  predicate InGroup(t: Tables, k: Key, g: nat) { k in t.enrollments && t.enrollments[k].group == g }

  /** The users whose enrolment names the group. */
  function Members(t: Tables, g: nat): set<nat> {
    set k | k in t.enrollments && t.enrollments[k].group == g :: k.1
  }

  // ---------- grades (qf/submission.go) ----------

  /** `GetStatusByUser`. */
  function StatusOf(grades: seq<Grade>, user: nat): Status {
    if |grades| == 0 then None
    else if grades[0].user == user then grades[0].status
    else StatusOf(grades[1..], user)
  }

  /** `SetGradeAll`. */
  function SetAll(grades: seq<Grade>, status: Status): seq<Grade> {
    seq(|grades|, i requires 0 <= i < |grades| => Grade(grades[i].user, status))
  }

  /** `SetGradeByUser`: only the first grade of the user changes. */
  function SetByUser(grades: seq<Grade>, user: nat, status: Status): seq<Grade> {
    if |grades| == 0 then []
    else if grades[0].user == user then [Grade(user, status)] + grades[1..]
    else [grades[0]] + SetByUser(grades[1..], user, status)
  }

  /** `SetGrade`: a user of zero stands for all. */
  function SetGrade(grades: seq<Grade>, user: nat, status: Status): seq<Grade> {
    if user == 0 then SetAll(grades, status) else SetByUser(grades, user, status)
  }

  predicate AutoApproves(a: Assignment, score: nat) { a.autoApprove && score >= a.scoreLimit }

  /** `SetGradesIfApproved`. */
  function IfApproved(grades: seq<Grade>, a: Assignment, score: nat): seq<Grade> {
    if AutoApproves(a, score) then SetAll(grades, Approved) else grades
  }

  /** `IsApproved`. */
  predicate IsApproved(grades: seq<Grade>, user: nat) {
    exists i :: 0 <= i < |grades| && grades[i].user == user && grades[i].status == Approved
  }

  // ---------- group requests ----------

  /** What `getGroupUsers` finds wrong with one user of a request. */
  function UserProblem(t: Tables, course: nat, id: nat, user: nat): Outcome {
    if (course, user) !in t.enrollments then NotEnrolled
    else
      var e := t.enrollments[(course, user)];
      if e.group > 0 && (id == 0 || e.group != id) then InAnotherGroup
      else if e.status != Student && e.status != Teacher then NotAccepted
      else Ok
  }

  function FirstProblem(t: Tables, course: nat, id: nat, users: seq<nat>): Outcome {
    if |users| == 0 then Ok
    else
      var before := FirstProblem(t, course, id, users[..|users| - 1]);
      if before != Ok then before else UserProblem(t, course, id, users[|users| - 1])
  }

  function ToSet(users: seq<nat>): set<nat> { set u | u in users }

  /** `getGroupUsers`: the last test fails for a repeated or unknown user. */
  function GroupUsers(t: Tables, req: GroupRequest): Outcome {
    if |req.users| == 0 then NoUsers
    else
      var problem := FirstProblem(t, req.course, req.id, req.users);
      if problem != Ok then problem
      else if |ToSet(req.users) * t.users| != |req.users| then UsersMismatch
      else Ok
  }

  /** The enrolments an SQL update of the given users of a course touches. */
  function Touched(t: Tables, course: nat, users: set<nat>, onlyAccepted: bool): set<Key> {
    set k | k in t.enrollments && k.0 == course && k.1 in users &&
            (onlyAccepted ==> t.enrollments[k].status in {Student, Teacher})
  }

  function AssignGroup(enrollments: map<Key, Enrollment>, keys: set<Key>, g: nat): map<Key, Enrollment> {
    map k | k in enrollments :: if k in keys then enrollments[k].(group := g) else enrollments[k]
  }

  /** The enrolments after the group has been cleared from all of them. */
  function ClearGroup(enrollments: map<Key, Enrollment>, g: nat): map<Key, Enrollment> {
    map k | k in enrollments :: if enrollments[k].group == g then enrollments[k].(group := 0) else enrollments[k]
  }

  /** The identifier of a new group: zero in the request is replaced by the next unused one. */
  function NewId(t: Tables, req: GroupRequest): nat { if req.id == 0 then t.nextGroup else req.id }

  /** `CreateGroup` in the database. */
  function InsertGroup(t: Tables, req: GroupRequest): (Tables, Outcome) {
    if |req.users| == 0 then (t, EmptyGroup)
    else if req.course !in t.courses then (t, NotFound)
    else if req.id != 0 && req.id in t.groups then (t, DuplicateGroup)
    else
      var id := NewId(t, req);
      var keys := Touched(t, req.course, ToSet(req.users), true);
      if |keys| != |req.users| then (t, UpdateGroupFailed)
      else (t.(groups := t.groups[id := Group(req.course, ToSet(req.users), GroupPending)],
               nextGroup := if id >= t.nextGroup then id + 1 else t.nextGroup,
               enrollments := AssignGroup(t.enrollments, keys, id)), Ok)
  }

  /** The web handler: name check, `getGroupUsers`, then the database. */
  function CreateGroup(t: Tables, req: GroupRequest, nameOk: bool): (Tables, Outcome) {
    if !nameOk then (t, BadName)
    else
      var problem := GroupUsers(t, req);
      if problem != Ok then (t, problem) else InsertGroup(t, req)
  }

  /** The last grade of the user, as the map of existing grades in `syncGroupGrades` keeps it. */
  function ExistingGrade(grades: seq<Grade>, user: nat): Grade {
    if |grades| == 0 then Grade(user, None)
    else if grades[|grades| - 1].user == user then grades[|grades| - 1]
    else ExistingGrade(grades[..|grades| - 1], user)
  }

  /** One grade for each given user: the existing one, or a fresh one without status. */
  function Regrade(grades: seq<Grade>, users: seq<nat>): seq<Grade> {
    seq(|users|, i requires 0 <= i < |users| => ExistingGrade(grades, users[i]))
  }

  /** `syncGroupGrades`, for one submission. */
  function SyncSubmission(s: Submission, users: seq<nat>, a: Assignment): Submission {
    s.(grades := IfApproved(Regrade(s.grades, users), a, s.score))
  }

  /** The submissions of a group. */
  function SubmissionsOf(t: Tables, g: nat): set<nat> {
    set s | s in t.submissions && t.submissions[s].group == g
  }

  predicate AssignmentsKnown(t: Tables, g: nat) {
    forall s :: s in SubmissionsOf(t, g) ==> t.submissions[s].assignment in t.assignments
  }

  function SyncGrades(t: Tables, g: nat, users: seq<nat>): map<nat, Submission>
    requires AssignmentsKnown(t, g)
  {
    map s | s in t.submissions ::
      if s in SubmissionsOf(t, g)
      then SyncSubmission(t.submissions[s], users, t.assignments[t.submissions[s].assignment])
      else t.submissions[s]
  }

  /** `UpdateGroup` in the database, for a group that exists. */
  function ReplaceGroup(t: Tables, id: nat, course: nat, users: seq<nat>): (Tables, Outcome)
    requires id in t.groups
  {
    if course !in t.courses then (t, NotFound)
    else if !AssignmentsKnown(t, id) then (t, NotFound)
    else
      var keys := Touched(t, course, ToSet(users), false);
      if |keys| != |users| then (t, UpdateGroupFailed)
      else (t.(groups := t.groups[id := Group(course, ToSet(users), GroupApproved)],
               submissions := SyncGrades(t, id, users),
               enrollments := AssignGroup(ClearGroup(t.enrollments, id), keys, id)), Ok)
  }

  /** `internalUpdateGroup`. The users are checked against the course the request names; the database
      is updated for the course the group has. */
  function UpdateGroup(t: Tables, req: GroupRequest, profilesOk: bool, nameOk: bool, scmOk: bool): (Tables, Outcome) {
    if req.id !in t.groups || Members(t, req.id) == {} || req.course !in t.courses then (t, NotFound)
    else
      var problem := GroupUsers(t, req);
      if problem != Ok then (t, problem)
      else if !profilesOk then (t, ProfileFailed)
      else if !nameOk then (t, BadName)
      else if !scmOk then (t, ScmFailed)
      else ReplaceGroup(t, req.id, t.groups[req.id].course, req.users)
  }

  /** `DeleteGroup`: submissions of the group stay. */
  function DeleteGroup(t: Tables, id: nat): (Tables, Outcome) {
    if id !in t.groups || Members(t, id) == {} then (t, NotFound)
    else (t.(groups := t.groups - {id}, enrollments := ClearGroup(t.enrollments, id)), Ok)
  }

  // ---------- enrolment requests ----------

  /** `CreateEnrollment`. */
  function Enroll(t: Tables, course: nat, user: nat, group: nat, profileOk: bool): (Tables, Outcome) {
    if user !in t.users then (t, NotFound)
    else if !profileOk then (t, IncompleteProfile)
    else if course !in t.courses then (t, NotFound)
    else if (course, user) in t.enrollments then (t, AlreadyEnrolled)
    else (t.(enrollments := t.enrollments[(course, user) := Enrollment(Pending, group)]), Ok)
  }

  /** `updateEnrollment`: the user's profile is refreshed, then the allowed changes of status are made.
      Once the profile is refreshed, demoting a teacher goes ahead even if GitHub fails, and so does
      rejecting. */
  function ChangeStatus(t: Tables, course: nat, user: nat, wanted: UserStatus, profileOk: bool,
                        scmOk: bool): (Tables, Outcome)
  {
    var k := (course, user);
    if k !in t.enrollments then (t, NotFound)
    else if !profileOk then (t, ProfileFailed)
    else
      var e := t.enrollments[k];
      if e.status in {Pending, Student} && wanted == NoStatus then
        (t.(enrollments := t.enrollments - {k}), Ok)
      else if (e.status == Pending && wanted == Student) || (e.status == Student && wanted == Teacher) then
        if scmOk then (t.(enrollments := t.enrollments[k := e.(status := wanted)]), Ok) else (t, ScmFailed)
      else if e.status == Teacher && wanted == Student then
        (t.(enrollments := t.enrollments[k := e.(status := Student)]), Ok)
      else (t, BadTransition)
  }

  // ---------- submissions ----------

  datatype Result = TestRun(score: nat) | ManualReview

  /** The submissions a query matches: a zero user or group matches anything. */
  function Matching(t: Tables, assignment: nat, user: nat, group: nat): set<nat> {
    set s | s in t.submissions && t.submissions[s].assignment == assignment
            && (user == 0 || t.submissions[s].user == user) && (group == 0 || t.submissions[s].group == group)
  }

  predicate IsMax(s: set<nat>, m: nat) { m in s && forall x :: x in s ==> x <= m }

  /** `Last`: the latest of the matching records. */
  function Max(s: set<nat>): (m: nat)
    requires s != {}
    ensures IsMax(s, m)
  {
    MaxExists(s);
    var m :| IsMax(s, m);
    m
  }

  lemma {:induction false} MaxExists(s: set<nat>)
    requires s != {}
    ensures exists m :: IsMax(s, m)
  {
    var y :| y in s;
    var rest := s - {y};
    if rest == {} {
      assert s == {y};
      assert IsMax(s, y);
    } else {
      MaxExists(rest);
      var m :| IsMax(rest, m);
      var top := if y > m then y else m;
      forall x | x in s ensures x <= top {
        assert x == y || x in rest;
      }
      assert IsMax(s, top);
    }
  }

  /** `check`. */
  function CheckOwner(t: Tables, assignment: nat, user: nat, group: nat): Outcome {
    if assignment < 1 || (user > 0 && group > 0) || (user == 0 && group == 0) then InvalidSubmission
    else if user > 0 && user !in t.users then NotFound
    else if group > 0 && group !in t.groups then NotFound
    else if assignment !in t.assignments then NotFound
    else Ok
  }

  /** The grades `setGrades` initializes, for the users in the order the database lists them. */
  function FreshGrades(users: seq<nat>): seq<Grade> {
    seq(|users|, i requires 0 <= i < |users| => Grade(users[i], None))
  }

  /** `CreateSubmission` for a new record. */
  function InsertSubmission(t: Tables, assignment: nat, user: nat, group: nat, score: nat, order: seq<nat>): Tables
    requires assignment in t.assignments
  {
    var grades := FreshGrades(if group > 0 then order else [user]);
    t.(submissions := t.submissions[t.nextSubmission :=
         Submission(assignment, user, group, score, IfApproved(grades, t.assignments[assignment], score))],
       nextSubmission := t.nextSubmission + 1)
  }

  /** Whether charging slip days fails: the group has no members, or one of the enrolments to be charged
      is missing or in another course than the assignment. */
  predicate ChargeFails(t: Tables, assignment: nat, user: nat, group: nat)
    requires assignment in t.assignments
  {
    var course := t.assignments[assignment].course;
    if group > 0 then
      Members(t, group) == {} || exists k :: k in t.enrollments && t.enrollments[k].group == group && k.0 != course
    else (course, user) !in t.enrollments
  }

  /** The tables with the result recorded: a test run updates score and grades of the latest submission of
      the owner, a manual review keeps both; without a submission a new one is created. `order` is the
      order in which the database lists the members of the group. */
  function Recorded(t: Tables, assignment: nat, user: nat, group: nat, result: Result, order: seq<nat>): Tables
    requires assignment in t.assignments
  {
    var previous := Matching(t, assignment, user, group);
    if previous == {} then
      InsertSubmission(t, assignment, user, group, if result.TestRun? then result.score else 0, order)
    else
      var id := Max(previous);
      var s := t.submissions[id];
      match result
      case TestRun(score) =>
        t.(submissions := t.submissions[id :=
             Submission(assignment, user, group, score, IfApproved(s.grades, t.assignments[assignment], score))])
      case ManualReview =>
        t.(submissions := t.submissions[id := Submission(assignment, user, group, s.score, s.grades)])
  }

  /** `RecordResults`: the result is recorded, then slip days are charged unless this is a rebuild; an error
      in charging does not undo the recording. */
  function Record(t: Tables, assignment: nat, user: nat, group: nat, result: Result, rebuild: bool,
                  order: seq<nat>): (Tables, Outcome)
  {
    var problem := CheckOwner(t, assignment, user, group);
    if problem != Ok then (t, problem)
    else
      (Recorded(t, assignment, user, group, result, order),
       if !rebuild && ChargeFails(t, assignment, user, group) then SlipDaysFailed else Ok)
  }

  /** `UpdateSubmission`: a teacher sets the grade of one user, or of all. */
  function GradeSubmission(t: Tables, id: nat, user: nat, status: Status): (Tables, Outcome) {
    if id !in t.submissions then (t, NotFound)
    else
      var s := t.submissions[id];
      (t.(submissions := t.submissions[id := s.(grades := SetGrade(s.grades, user, status))]), Ok)
  }

  /** `UpdateReview`: the score of the review becomes the score of the submission. */
  function Review(t: Tables, id: nat, score: nat): (Tables, Outcome) {
    if id !in t.submissions then (t, NotFound)
    else (t.(submissions := t.submissions[id := t.submissions[id].(score := score)]), Ok)
  }

  // ---------- runs ----------

  datatype Event =
    | EnrollEvent(course: nat, user: nat, group: nat, profileOk: bool)
    | StatusEvent(course: nat, user: nat, wanted: UserStatus, profileOk: bool, scmOk: bool)
    | CreateEvent(req: GroupRequest, nameOk: bool)
    | UpdateEvent(req: GroupRequest, profilesOk: bool, nameOk: bool, scmOk: bool)
    | DeleteEvent(id: nat)
    | RecordEvent(assignment: nat, user: nat, group: nat, result: Result, rebuild: bool, order: seq<nat>)
    | GradeEvent(submission: nat, user: nat, status: Status)
    | ReviewEvent(submission: nat, score: nat)

  function Step(t: Tables, e: Event): (Tables, Outcome) {
    match e
    case EnrollEvent(course, user, group, profileOk) => Enroll(t, course, user, group, profileOk)
    case StatusEvent(course, user, wanted, profileOk, scmOk) => ChangeStatus(t, course, user, wanted, profileOk, scmOk)
    case CreateEvent(req, nameOk) => CreateGroup(t, req, nameOk)
    case UpdateEvent(req, profilesOk, nameOk, scmOk) => UpdateGroup(t, req, profilesOk, nameOk, scmOk)
    case DeleteEvent(id) => DeleteGroup(t, id)
    case RecordEvent(assignment, user, group, result, rebuild, order) =>
      Record(t, assignment, user, group, result, rebuild, order)
    case GradeEvent(id, user, status) => GradeSubmission(t, id, user, status)
    case ReviewEvent(id, score) => Review(t, id, score)
  }

  /** A run of requests, from any tables. */
  ghost predicate Run(trace: seq<Tables>, events: seq<Event>) {
    |trace| == |events| + 1 && forall i :: 0 <= i < |events| ==> trace[i + 1] == Step(trace[i], events[i]).0
  }

  /** The database lists each member of a group once. */
  ghost predicate Listed(t: Tables, e: Event) {
    e.RecordEvent? && e.group > 0 ==> NoRepeats(e.order) && ToSet(e.order) == Members(t, e.group)
  }

  ghost predicate ListedRun(trace: seq<Tables>, events: seq<Event>) {
    Run(trace, events) && forall i :: 0 <= i < |events| ==> Listed(trace[i], events[i])
  }
}
