/** When each enrolment, group and grading request succeeds, and what a refusal means, in terms of the tables. */
module GroupOutcomes {
  import opened GroupEffects
  import opened GroupModel
  import opened GroupResults
  import opened GroupSafety
  import opened Sequences

  // ---------- the users of a group request ----------

  /** The users are known, distinct, accepted in the course of the request and in no group but the one it names. */
  ghost predicate UsersFit(t: Tables, req: GroupRequest) {
    && req.users != [] && NoRepeats(req.users)
    && forall u :: u in req.users ==>
         && u in t.users && (req.course, u) in t.enrollments
         && t.enrollments[(req.course, u)].status in {Student, Teacher}
         && t.enrollments[(req.course, u)].group in {0, req.id}
  }

  lemma {:induction false} NobodyRefused(t: Tables, course: nat, id: nat, users: seq<nat>)
    requires forall u :: u in users ==> UserProblem(t, course, id, u) == Ok
    ensures FirstProblem(t, course, id, users) == Ok
  {
    if |users| > 0 {
      NobodyRefused(t, course, id, users[..|users| - 1]);
    }
  }

  lemma {:induction false} DistinctSize(users: seq<nat>)
    requires NoRepeats(users)
    ensures |ToSet(users)| == |users|
  {
    if |users| > 0 {
      var front, last := users[..|users| - 1], users[|users| - 1];
      DistinctSize(front);
      assert last !in front;
      assert ToSet(users) == ToSet(front) + {last};
    }
  }

  /** The last check passes exactly if no user is named twice and all are known. */
  lemma CountsAgree(t: Tables, users: seq<nat>)
    ensures |ToSet(users) * t.users| == |users| <==> NoRepeats(users) && forall u :: u in users ==> u in t.users
  {
    var named := ToSet(users);
    SubsetSize(named * t.users, named);
    SetSize(users);
    if |named * t.users| == |users| {
      SameSize(named * t.users, named);
      assert forall u :: u in users ==> u in named;
    }
    if NoRepeats(users) && forall u :: u in users ==> u in t.users {
      DistinctSize(users);
      assert named * t.users == named;
    }
  }

  /** The users of a request pass `getGroupUsers` exactly if they fit. */
  lemma GroupUsersExactlyWhen(t: Tables, req: GroupRequest)
    ensures GroupUsers(t, req) == Ok <==> UsersFit(t, req)
  {
    CountsAgree(t, req.users);
    if GroupUsers(t, req) == Ok {
      NoProblem(t, req.course, req.id, req.users);
    }
    if UsersFit(t, req) {
      forall u | u in req.users ensures UserProblem(t, req.course, req.id, u) == Ok {
      }
      NobodyRefused(t, req.course, req.id, req.users);
    }
  }

  /** What a refusal of `getGroupUsers` says. */
  ghost predicate Explains(t: Tables, req: GroupRequest, outcome: Outcome) {
    match outcome
    case Ok => UsersFit(t, req)
    case NoUsers => req.users == []
    case NotEnrolled => exists u :: u in req.users && (req.course, u) !in t.enrollments
    case InAnotherGroup =>
      exists u :: u in req.users && (req.course, u) in t.enrollments &&
                  t.enrollments[(req.course, u)].group !in {0, req.id}
    case NotAccepted =>
      exists u :: u in req.users && (req.course, u) in t.enrollments &&
                  t.enrollments[(req.course, u)].status in {NoStatus, Pending}
    case UsersMismatch => !NoRepeats(req.users) || exists u :: u in req.users && u !in t.users
    case _ => false
  }

  lemma {:induction false} SomebodyRefused(t: Tables, course: nat, id: nat, users: seq<nat>) returns (u: nat)
    requires FirstProblem(t, course, id, users) != Ok
    ensures u in users && UserProblem(t, course, id, u) == FirstProblem(t, course, id, users)
  {
    var front := users[..|users| - 1];
    if FirstProblem(t, course, id, front) != Ok {
      u := SomebodyRefused(t, course, id, front);
    } else {
      u := users[|users| - 1];
    }
  }

  /** A request is refused for what is wrong with it, and for nothing else. */
  lemma RefusalIsTrue(t: Tables, req: GroupRequest)
    ensures Explains(t, req, GroupUsers(t, req))
  {
    GroupUsersExactlyWhen(t, req);
    CountsAgree(t, req.users);
    if req.users != [] && FirstProblem(t, req.course, req.id, req.users) != Ok {
      var u := SomebodyRefused(t, req.course, req.id, req.users);
    }
  }

  // ---------- groups ----------

  /** A request for a new group succeeds exactly if its name is fine, its users fit, its course exists and its
      identifier, if it carries one, is not that of a group. */
  lemma CreateSucceedsExactlyWhen(t: Tables, req: GroupRequest, nameOk: bool)
    ensures CreateGroup(t, req, nameOk).1 == Ok <==>
            nameOk && UsersFit(t, req) && req.course in t.courses && (req.id == 0 || req.id !in t.groups)
  {
    GroupUsersExactlyWhen(t, req);
    if GroupUsers(t, req) == Ok {
      ChecksSuffice(t, req, true);
    }
    hide UsersFit, GroupUsers;
  }

  /** The row-count test of an update passes exactly if all the users are enrolled in the course. */
  lemma TouchesAllExactlyWhen(t: Tables, course: nat, users: seq<nat>)
    requires NoRepeats(users)
    ensures |Touched(t, course, ToSet(users), false)| == |users| <==>
            forall u :: u in users ==> (course, u) in t.enrollments
  {
    if |Touched(t, course, ToSet(users), false)| == |users| {
      TouchedAll(t, course, users, false);
    }
    if forall u :: u in users ==> (course, u) in t.enrollments {
      KeysSize(course, users);
      KeysMembers(course, users);
      assert Touched(t, course, ToSet(users), false) == Keys(course, users);
    }
  }

  /** Somebody is a member of the group. */
  ghost predicate HasMembers(t: Tables, id: nat) { exists k :: InGroup(t, k, id) }

  lemma HasMembersMeans(t: Tables, id: nat)
    ensures HasMembers(t, id) <==> Members(t, id) != {}
  {
    if k :| InGroup(t, k, id) {
      assert k.1 in Members(t, id);
    }
    if Members(t, id) != {} {
      var u :| u in Members(t, id);
      var k :| k in t.enrollments && t.enrollments[k].group == id && k.1 == u;
      assert InGroup(t, k, id);
    }
  }

  /** An update, the approval of a group included, succeeds exactly if the group has members, the course of the request
      and the course of the group exist, the users fit and are all enrolled in the course of the group, the profiles,
      the name and the code host are fine, and the assignments of the group's submissions exist. */
  lemma UpdateSucceedsExactlyWhen(t: Tables, req: GroupRequest, profilesOk: bool, nameOk: bool, scmOk: bool)
    ensures UpdateGroup(t, req, profilesOk, nameOk, scmOk).1 == Ok <==>
            && req.id in t.groups && HasMembers(t, req.id) && req.course in t.courses && UsersFit(t, req)
            && profilesOk && nameOk && scmOk
            && t.groups[req.id].course in t.courses
            && (forall u :: u in req.users ==> (t.groups[req.id].course, u) in t.enrollments)
            && (forall s :: s in t.submissions && t.submissions[s].group == req.id ==>
                  t.submissions[s].assignment in t.assignments)
  {
    GroupUsersExactlyWhen(t, req);
    HasMembersMeans(t, req.id);
    hide HasMembers, GroupUsers, Members, Touched, SyncGrades;
    if req.id in t.groups && UsersFit(t, req) {
      TouchesAllExactlyWhen(t, t.groups[req.id].course, req.users);
    }
    hide UsersFit;
  }

  /** A pending group whose members are students of its course, with all its users known, can be approved as it is. */
  lemma PendingGroupCanBeApproved(t: Tables, id: nat, users: seq<nat>)
    requires EnrollInv(t) && SubInv(t) && id in t.groups && t.groups[id].course in t.courses
    requires users != [] && NoRepeats(users) && ToSet(users) == Members(t, id) && Members(t, id) <= t.users
    ensures UpdateGroup(t, GroupRequest(id, t.groups[id].course, users), true, true, true).1 == Ok
  {
    var course := t.groups[id].course;
    UpdateSucceedsExactlyWhen(t, GroupRequest(id, course, users), true, true, true);
    HasMembersMeans(t, id);
    assert users[0] in ToSet(users);
    forall u | u in users
      ensures u in t.users && InGroup(t, (course, u), id) && t.enrollments[(course, u)].status in {Student, Teacher}
    {
      assert u in Members(t, id);
      var k :| InGroup(t, k, id) && k.1 == u;
      assert EnrollmentOk(t, k);
    }
    forall s | s in t.submissions ensures t.submissions[s].assignment in t.assignments {
      assert SubmissionOk(t, s);
    }
  }

  /** Deleting a group succeeds exactly if it exists and has members. */
  lemma DeleteSucceedsExactlyWhen(t: Tables, id: nat)
    ensures DeleteGroup(t, id).1 == Ok <==> id in t.groups && HasMembers(t, id)
  {
    HasMembersMeans(t, id);
  }

  // ---------- enrolments ----------

  /** Enrolling succeeds exactly if user and course exist, the profile is complete and there is no enrolment yet; the
      new enrolment is pending and has the group of the request. */
  lemma EnrollSucceedsExactlyWhen(t: Tables, course: nat, user: nat, group: nat, profileOk: bool)
    ensures Enroll(t, course, user, group, profileOk).1 == Ok <==>
            user in t.users && profileOk && course in t.courses && (course, user) !in t.enrollments
    ensures Enroll(t, course, user, group, profileOk).1 == Ok ==>
              Enroll(t, course, user, group, profileOk).0.enrollments ==
              t.enrollments[(course, user) := Enrollment(Pending, group)]
  {
  }

  /** A change of status succeeds exactly if the user is enrolled, the profile could be refreshed and the change is one
      of four: out of the course for whoever is pending or a student, up by one rank if the code host plays along, and
      from teacher back to student. It changes the status and nothing else. */
  lemma StatusChangesExactlyWhen(t: Tables, course: nat, user: nat, wanted: UserStatus, profileOk: bool, scmOk: bool)
    ensures var k, r := (course, user), ChangeStatus(t, course, user, wanted, profileOk, scmOk);
            && (r.1 == Ok <==>
                  && k in t.enrollments && profileOk
                  && match wanted
                     case NoStatus => t.enrollments[k].status in {Pending, Student}
                     case Pending => false
                     case Student => (t.enrollments[k].status == Pending && scmOk) || t.enrollments[k].status == Teacher
                     case Teacher => t.enrollments[k].status == Student && scmOk)
            && (r.1 == Ok && wanted == NoStatus ==> r.0 == t.(enrollments := t.enrollments - {k}))
            && (r.1 == Ok && wanted != NoStatus ==>
                  r.0 == t.(enrollments := t.enrollments[k := Enrollment(wanted, t.enrollments[k].group)]))
  {
  }

  // ---------- recording and grading ----------

  /** A result is stored exactly if the assignment exists and it is for one existing user or one existing group. */
  ghost predicate Storable(t: Tables, assignment: nat, user: nat, group: nat) {
    && assignment > 0 && assignment in t.assignments && (user > 0 <==> group == 0)
    && (user > 0 ==> user in t.users) && (group > 0 ==> group in t.groups)
  }

  /** Charging slip days for a stored result fails exactly if a group has no members or a member of another course, or
      a user is not enrolled; a rebuild charges nothing. */
  lemma RecordSucceedsExactlyWhen(t: Tables, assignment: nat, user: nat, group: nat, result: Result, rebuild: bool,
                                  order: seq<nat>)
    ensures var outcome := Record(t, assignment, user, group, result, rebuild, order).1;
            && (outcome in {Ok, SlipDaysFailed} <==> Storable(t, assignment, user, group))
            && (outcome == SlipDaysFailed <==>
                  && Storable(t, assignment, user, group) && !rebuild
                  && var course := t.assignments[assignment].course;
                     if group == 0 then (course, user) !in t.enrollments
                     else !HasMembers(t, group) || exists k :: InGroup(t, k, group) && k.0 != course)
  {
    HasMembersMeans(t, group);
    hide Recorded, Members, HasMembers;
  }

  /** The grades afterwards: the users and statuses there were, all approved if the result approves itself. */
  ghost predicate GradesBecome(before: seq<Grade>, after: seq<Grade>, approved: bool) {
    && |after| == |before|
    && forall i :: 0 <= i < |before| ==>
         after[i] == Grade(before[i].user, if approved then Approved else before[i].status)
  }

  /** Recording a test run approves everybody with a grade exactly if the assignment approves by itself and the score
      reaches its limit; otherwise statuses stay, and those of a new submission are none. A manual review leaves the
      grades alone; if it creates the submission, that has score zero. */
  lemma RecordGrades(t: Tables, assignment: nat, user: nat, group: nat, result: Result, rebuild: bool, order: seq<nat>,
                     s: nat)
    requires SubInv(t) && Storable(t, assignment, user, group)
    requires s in Record(t, assignment, user, group, result, rebuild, order).0.submissions
    requires SameOwner(Record(t, assignment, user, group, result, rebuild, order).0.submissions[s],
                       Submission(assignment, user, group, 0, []))
    ensures var a, after := t.assignments[assignment],
                            Record(t, assignment, user, group, result, rebuild, order).0.submissions[s].grades;
            if s in t.submissions
            then GradesBecome(t.submissions[s].grades, after,
                              result.TestRun? && a.autoApprove && result.score >= a.scoreLimit)
            else
              && GradesOf(after, if group > 0 then order else [user])
              && forall i :: 0 <= i < |after| ==>
                   after[i].status == if a.autoApprove && (if result.TestRun? then result.score else 0) >= a.scoreLimit
                                      then Approved else None
  {
    var previous := Matching(t, assignment, user, group);
    assert s in t.submissions ==> SubmissionOk(t, s);
    assert SubmissionOk(t, t.nextSubmission);
    if previous != {} {
      assert SubmissionOk(t, Max(previous));
    }
    if s in t.submissions {
      assert SameOwner(t.submissions[s], Submission(assignment, user, group, 0, []));
      assert s in previous && SameOwner(t.submissions[s], t.submissions[Max(previous)]);
      assert s == Max(previous);
    }
  }

  /** A teacher's grade goes to an existing submission: to the user's first grade, or to all of them for user zero;
      all other submissions, and score and owner, stay. */
  lemma GradeSucceedsExactlyWhen(t: Tables, id: nat, user: nat, status: Status, u: nat)
    ensures GradeSubmission(t, id, user, status).1 == Ok <==> id in t.submissions
    ensures id in t.submissions ==>
              var t' := GradeSubmission(t, id, user, status).0;
              && id in t'.submissions && t'.submissions - {id} == t.submissions - {id}
              && t'.submissions[id] == t.submissions[id].(grades := t'.submissions[id].grades)
              && StatusOf(t'.submissions[id].grades, u) ==
                 if (user == 0 || u == user) && HasGrade(t.submissions[id].grades, u) then status
                 else StatusOf(t.submissions[id].grades, u)
  {
    if id in t.submissions {
      GradeTakesEffect(t.submissions[id].grades, user, status, u);
    }
    hide SetGrade, StatusOf;
  }
}
