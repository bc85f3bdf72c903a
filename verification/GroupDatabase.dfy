/** The database object behind the group, enrolment and grading requests. Its methods update the
    tables in place, with the loops of the source, and do what the functions of GroupModel say. */
module GroupDatabase {
  import opened GroupEffects
  import opened GroupModel
  import opened GroupOutcomes
  import opened GroupResults
  import opened GroupSafety
  import M = GroupModel

  // ---------- loops over the grades of one submission ----------

  method SetGradeAll(grades: seq<Grade>, status: Status) returns (r: seq<Grade>)
    ensures r == SetAll(grades, status)
  {
    r := grades;
    for idx := 0 to |grades|
      invariant |r| == |grades|
      invariant forall k :: 0 <= k < |r| ==> r[k] == if k < idx then Grade(grades[k].user, status) else grades[k]
    {
      r := r[idx := r[idx].(status := status)];
    }
  }

  method SetGradeByUser(grades: seq<Grade>, user: nat, status: Status) returns (r: seq<Grade>)
    ensures r == SetByUser(grades, user, status)
  {
    for idx := 0 to |grades|
      invariant forall k :: 0 <= k < idx ==> grades[k].user != user
    {
      if grades[idx].user == user {
        FirstOfUser(grades, user, status, idx);
        return grades[idx := grades[idx].(status := status)];
      }
    }
    NoneOfUser(grades, user, status);
    r := grades;
  }

  lemma {:induction false} FirstOfUser(grades: seq<Grade>, user: nat, status: Status, i: nat)
    requires i < |grades| && grades[i].user == user && forall k :: 0 <= k < i ==> grades[k].user != user
    ensures SetByUser(grades, user, status) == grades[i := Grade(user, status)]
  {
    if i > 0 {
      FirstOfUser(grades[1..], user, status, i - 1);
      assert grades == [grades[0]] + grades[1..];
    }
  }

  lemma {:induction false} NoneOfUser(grades: seq<Grade>, user: nat, status: Status)
    requires forall k :: 0 <= k < |grades| ==> grades[k].user != user
    ensures SetByUser(grades, user, status) == grades
  {
    if |grades| > 0 {
      NoneOfUser(grades[1..], user, status);
      assert grades == [grades[0]] + grades[1..];
    }
  }

  method SetGradesIfApproved(grades: seq<Grade>, a: Assignment, score: nat) returns (r: seq<Grade>)
    ensures r == IfApproved(grades, a, score)
  {
    r := grades;
    if a.autoApprove && score >= a.scoreLimit {
      r := SetGradeAll(grades, Approved);
    }
  }

  /** The body of the loop of `syncGroupGrades`: the grades of one submission are rebuilt from the
      member list, reusing existing grades. */
  method RebuildGrades(grades: seq<Grade>, userIDs: seq<nat>) returns (r: seq<Grade>)
    ensures r == Regrade(grades, userIDs)
  {
    var existingGrades: map<nat, Grade> := map[];
    for i := 0 to |grades|
      invariant forall u ::
                  ExistingGrade(grades[..i], u) == if u in existingGrades then existingGrades[u] else Grade(u, None)
    {
      assert grades[..i + 1][..i] == grades[..i];
      existingGrades := existingGrades[grades[i].user := grades[i]];
    }
    assert grades[..|grades|] == grades;
    r := [];
    for i := 0 to |userIDs|
      invariant |r| == i && forall k :: 0 <= k < i ==> r[k] == ExistingGrade(grades, userIDs[k])
    {
      var userID := userIDs[i];
      if userID in existingGrades {
        r := r + [existingGrades[userID]];
      } else {
        r := r + [Grade(userID, None)];
      }
    }
  }

  // ---------- the tables ----------

  class Database {
    var courses: set<nat>
    var users: set<nat>
    var assignments: map<nat, Assignment>
    var enrollments: map<Key, Enrollment>
    var groups: map<nat, Group>
    var submissions: map<nat, Submission>
    var nextGroup: nat
    var nextSubmission: nat

    function View(): Tables
      reads this
    {
      Tables(courses, users, assignments, enrollments, groups, submissions, nextGroup, nextSubmission)
    }

    constructor (courses: set<nat>, users: set<nat>, assignments: map<nat, Assignment>)
      ensures View() == Tables(courses, users, assignments, map[], map[], map[], 1, 1)
    {
      this.courses, this.users, this.assignments := courses, users, assignments;
      enrollments, groups, submissions := map[], map[], map[];
      nextGroup, nextSubmission := 1, 1;
    }

    method GetGroupUsers(req: GroupRequest) returns (outcome: Outcome)
      ensures outcome == GroupUsers(View(), req)
      ensures Explains(View(), req, outcome)
      ensures outcome == Ok <==> UsersFit(View(), req)
    {
      GroupUsersExactlyWhen(View(), req);
      RefusalIsTrue(View(), req);
      hide Explains, UsersFit;
      if |req.users| == 0 {
        return NoUsers;
      }
      var userIds: seq<nat> := [];
      for i := 0 to |req.users|
        invariant userIds == req.users[..i] && FirstProblem(View(), req.course, req.id, req.users[..i]) == Ok
      {
        var user := req.users[i];
        var k := (req.course, user);
        assert req.users[..i + 1][..i] == req.users[..i];
        ghost var problem := FirstProblem(View(), req.course, req.id, req.users[..i + 1]);
        assert problem == UserProblem(View(), req.course, req.id, user);
        if k !in enrollments {
          FirstProblemStays(View(), req.course, req.id, req.users, i + 1);
          return NotEnrolled;
        }
        if enrollments[k].group > 0 && (req.id == 0 || enrollments[k].group != req.id) {
          FirstProblemStays(View(), req.course, req.id, req.users, i + 1);
          return InAnotherGroup;
        }
        if enrollments[k].status != Student && enrollments[k].status != Teacher {
          FirstProblemStays(View(), req.course, req.id, req.users, i + 1);
          return NotAccepted;
        }
        userIds := userIds + [user];
      }
      assert req.users[..|req.users|] == req.users;
      if |ToSet(userIds) * users| != |userIds| {
        return UsersMismatch;
      }
      return Ok;
    }

    method CreateGroup(req: GroupRequest, nameOk: bool) returns (outcome: Outcome)
      modifies this
      ensures (View(), outcome) == M.CreateGroup(old(View()), req, nameOk)
      ensures GroupCreated(old(View()), View(), req, outcome)
    {
      CreateEffect(View(), req, nameOk);
      hide GroupCreated;
      if !nameOk {
        return BadName;
      }
      outcome := GetGroupUsers(req);
      if outcome != Ok {
        return;
      }
      if req.course !in courses {
        return NotFound;
      }
      if req.id != 0 && req.id in groups {
        return DuplicateGroup;
      }
      var id := if req.id == 0 then nextGroup else req.id;
      var keys := Touched(View(), req.course, ToSet(req.users), true);
      if |keys| != |req.users| {
        return UpdateGroupFailed;
      }
      groups := groups[id := Group(req.course, ToSet(req.users), GroupPending)];
      if id >= nextGroup {
        nextGroup := id + 1;
      }
      enrollments := AssignGroup(enrollments, keys, id);
    }

    /** `syncGroupGrades`, on a copy of the submissions that is kept when the transaction commits. */
    method SyncGroupGrades(groupID: nat, userIDs: seq<nat>) returns (ok: bool, synced: map<nat, Submission>)
      ensures ok <==> AssignmentsKnown(View(), groupID)
      ensures ok ==> synced == SyncGrades(View(), groupID, userIDs)
    {
      synced := submissions;
      var left := SubmissionsOf(View(), groupID);
      while left != {}
        invariant left <= SubmissionsOf(View(), groupID)
        invariant forall s :: s in SubmissionsOf(View(), groupID) - left ==> submissions[s].assignment in assignments
        invariant synced.Keys == submissions.Keys
        invariant forall s :: s in submissions && s !in SubmissionsOf(View(), groupID) - left ==>
                    synced[s] == submissions[s]
        invariant forall s :: s in SubmissionsOf(View(), groupID) - left ==>
                    synced[s] == SyncSubmission(submissions[s], userIDs, assignments[submissions[s].assignment])
      {
        var s :| s in left;
        var submission := submissions[s];
        var grades := RebuildGrades(submission.grades, userIDs);
        if submission.assignment !in assignments {
          return false, synced;
        }
        grades := SetGradesIfApproved(grades, assignments[submission.assignment], submission.score);
        synced := synced[s := submission.(grades := grades)];
        left := left - {s};
      }
      ok := true;
    }

    method UpdateGroup(req: GroupRequest, profilesOk: bool, nameOk: bool, scmOk: bool) returns (outcome: Outcome)
      modifies this
      ensures (View(), outcome) == M.UpdateGroup(old(View()), req, profilesOk, nameOk, scmOk)
      ensures GroupUpdated(old(View()), View(), req, outcome)
    {
      UpdateEffect(View(), req, profilesOk, nameOk, scmOk);
      hide GroupUpdated;
      if req.id !in groups || Members(View(), req.id) == {} || req.course !in courses {
        return NotFound;
      }
      outcome := GetGroupUsers(req);
      if outcome != Ok {
        return;
      }
      if !profilesOk {
        return ProfileFailed;
      }
      if !nameOk {
        return BadName;
      }
      if !scmOk {
        return ScmFailed;
      }
      var course := groups[req.id].course;
      if course !in courses {
        return NotFound;
      }
      var ok, synced := SyncGroupGrades(req.id, req.users);
      if !ok {
        return NotFound;
      }
      var keys := Touched(View(), course, ToSet(req.users), false);
      if |keys| != |req.users| {
        return UpdateGroupFailed;
      }
      groups := groups[req.id := Group(course, ToSet(req.users), GroupApproved)];
      enrollments := ClearGroup(enrollments, req.id);
      submissions := synced;
      enrollments := AssignGroup(enrollments, keys, req.id);
    }

    /** Afterwards nobody is in the group, and everybody else is where he was. */
    method DeleteGroup(id: nat) returns (outcome: Outcome)
      modifies this
      ensures (View(), outcome) == M.DeleteGroup(old(View()), id)
      ensures outcome == Ok && IdsOk(old(View())) ==> Members(View(), id) == {} && OthersKept(old(View()), View(), id)
      ensures outcome == Ok ==> submissions == old(submissions) && groups == old(groups) - {id}
      ensures outcome != Ok ==> View() == old(View()) && (id !in groups || Members(View(), id) == {})
    {
      if id !in groups || Members(View(), id) == {} {
        return NotFound;
      }
      enrollments := ClearGroup(enrollments, id);
      groups := groups - {id};
      outcome := Ok;
    }

    /** A new enrolment waits to be accepted; a second one for the course and user is refused. */
    method CreateEnrollment(course: nat, user: nat, group: nat, profileOk: bool) returns (outcome: Outcome)
      modifies this
      ensures (View(), outcome) == M.Enroll(old(View()), course, user, group, profileOk)
      ensures outcome == Ok ==>
                (course, user) !in old(enrollments) && enrollments - {(course, user)} == old(enrollments)
      ensures outcome == Ok ==> (course, user) in enrollments && enrollments[(course, user)].status == Pending
      ensures outcome != Ok ==> View() == old(View())
    {
      if user !in users {
        return NotFound;
      }
      if !profileOk {
        return IncompleteProfile;
      }
      if course !in courses {
        return NotFound;
      }
      if (course, user) in enrollments {
        return AlreadyEnrolled;
      }
      enrollments := enrollments[(course, user) := Enrollment(Pending, group)];
      outcome := Ok;
    }

    /** `updateEnrollment`: nobody but this user changes rank, and a change keeps the group. */
    method UpdateEnrollment(course: nat, user: nat, wanted: UserStatus, profileOk: bool, scmOk: bool)
      returns (outcome: Outcome)
      modifies this
      ensures (View(), outcome) == M.ChangeStatus(old(View()), course, user, wanted, profileOk, scmOk)
      ensures enrollments - {(course, user)} == old(enrollments) - {(course, user)}
      ensures outcome == Ok ==> (course, user) in old(enrollments)
      ensures outcome == Ok && wanted == NoStatus ==> (course, user) !in enrollments
      ensures outcome == Ok && wanted != NoStatus ==> (
                && (course, user) in enrollments
                && enrollments[(course, user)] == Enrollment(wanted, old(enrollments)[(course, user)].group))
      ensures outcome != Ok ==> View() == old(View())
    {
      var k := (course, user);
      if k !in enrollments {
        return NotFound;
      }
      if !profileOk {
        return ProfileFailed;
      }
      var enrollment := enrollments[k];
      if (enrollment.status == Pending || enrollment.status == Student) && wanted == NoStatus {
        enrollments := enrollments - {k};
        return Ok;
      }
      if (enrollment.status == Pending && wanted == Student) || (enrollment.status == Student && wanted == Teacher) {
        if !scmOk {
          return ScmFailed;
        }
      } else if !(enrollment.status == Teacher && wanted == Student) {
        return BadTransition;
      }
      enrollments := enrollments[k := enrollment.(status := wanted)];
      outcome := Ok;
    }

    /** `setGrades`, for the users in the order in which the database lists them. */
    method SetGrades(assignment: Assignment, score: nat, userIDs: seq<nat>) returns (grades: seq<Grade>)
      ensures grades == IfApproved(FreshGrades(userIDs), assignment, score)
    {
      grades := [];
      for i := 0 to |userIDs|
        invariant |grades| == i && forall k :: 0 <= k < i ==> grades[k] == Grade(userIDs[k], None)
      {
        grades := grades + [Grade(userIDs[i], None)];
      }
      assert grades == FreshGrades(userIDs);
      grades := SetGradesIfApproved(grades, assignment, score);
    }

    /** `RecordResults`: the result stays recorded when charging slip days fails. */
    method RecordResults(assignment: nat, user: nat, group: nat, result: Result, rebuild: bool, order: seq<nat>)
      returns (outcome: Outcome)
      modifies this
      ensures (View(), outcome) == M.Record(old(View()), assignment, user, group, result, rebuild, order)
    {
      outcome := CheckOwner(View(), assignment, user, group);
      if outcome != Ok {
        return;
      }
      var fails := !rebuild && ChargeFails(View(), assignment, user, group);
      var previous := Matching(View(), assignment, user, group);
      if previous == {} {
        var score := if result.TestRun? then result.score else 0;
        var grades := SetGrades(assignments[assignment], score, if group > 0 then order else [user]);
        submissions := submissions[nextSubmission := Submission(assignment, user, group, score, grades)];
        nextSubmission := nextSubmission + 1;
      } else {
        var id := Max(previous);
        var score, grades := submissions[id].score, submissions[id].grades;
        if result.TestRun? {
          score := result.score;
          grades := SetGradesIfApproved(grades, assignments[assignment], score);
        }
        submissions := submissions[id := Submission(assignment, user, group, score, grades)];
      }
      if fails {
        outcome := SlipDaysFailed;
      }
    }

    /** `UpdateSubmission`. */
    method UpdateSubmission(id: nat, user: nat, status: Status) returns (outcome: Outcome)
      modifies this
      ensures (View(), outcome) == M.GradeSubmission(old(View()), id, user, status)
    {
      if id !in submissions {
        return NotFound;
      }
      var grades;
      if user == 0 {
        grades := SetGradeAll(submissions[id].grades, status);
      } else {
        grades := SetGradeByUser(submissions[id].grades, user, status);
      }
      submissions := submissions[id := submissions[id].(grades := grades)];
      outcome := Ok;
    }

    /** `UpdateReview`: the score changes, no grade does. */
    method UpdateReview(id: nat, score: nat) returns (outcome: Outcome)
      modifies this
      ensures (View(), outcome) == M.Review(old(View()), id, score)
      ensures outcome == Ok <==> id in old(submissions)
      ensures outcome == Ok ==> id in submissions && submissions[id].score == score
      ensures submissions.Keys == old(submissions).Keys && submissions - {id} == old(submissions) - {id}
      ensures forall s :: s in submissions ==> submissions[s].grades == old(submissions)[s].grades
    {
      if id !in submissions {
        return NotFound;
      }
      submissions := submissions[id := submissions[id].(score := score)];
      outcome := Ok;
    }
  }

  /** The first problem decides, whatever users follow. */
  lemma {:induction false} FirstProblemStays(t: Tables, course: nat, id: nat, users: seq<nat>, i: nat)
    requires i <= |users| && FirstProblem(t, course, id, users[..i]) != Ok
    ensures FirstProblem(t, course, id, users) == FirstProblem(t, course, id, users[..i])
  {
    if i < |users| {
      assert users[..|users| - 1][..i] == users[..i];
      FirstProblemStays(t, course, id, users[..|users| - 1], i);
    } else {
      assert users[..i] == users;
    }
  }
}
