/** What individual group and grading requests do, and what follows over runs. */
module GroupResults {
  import opened GroupModel
  import opened GroupSafety
  import opened Sequences

  // ---------- a group request never takes a user out of another group ----------

  /** The enrolments of all groups other than `id` are the same as before. */
  ghost predicate OthersKept(t: Tables, t': Tables, id: nat) {
    forall k :: k in t.enrollments && t.enrollments[k].group != 0 && t.enrollments[k].group != id ==>
      k in t'.enrollments && t'.enrollments[k] == t.enrollments[k]
  }

  /** Creating a group, under a new identifier or a chosen one, leaves every other group its members. */
  lemma CreateNeverSteals(t: Tables, req: GroupRequest, nameOk: bool)
    requires CreateGroup(t, req, nameOk).1 == Ok
    ensures OthersKept(t, CreateGroup(t, req, nameOk).0, NewId(t, req))
  {
    GroupUsersOk(t, req);
  }

  /** The database update of a group takes a user out of another group exactly when one of the users
      it is given is in another group of its course: it does not look. */
  lemma ReplaceStealsExactlyWhen(t: Tables, id: nat, course: nat, users: seq<nat>)
    requires id in t.groups && ReplaceGroup(t, id, course, users).1 == Ok
    ensures OthersKept(t, ReplaceGroup(t, id, course, users).0, id) <==>
            forall u :: u in users && (course, u) in t.enrollments ==> t.enrollments[(course, u)].group in {0, id}
  {
    var t' := ReplaceGroup(t, id, course, users).0;
    if u :| u in users && (course, u) in t.enrollments && t.enrollments[(course, u)].group !in {0, id} {
      assert t'.enrollments[(course, u)].group == id;
    }
  }

  /** The web handler looks, but at the course the request names: it takes a user out of another group exactly
      when one of the users is in another group of the course the group has. */
  lemma UpdateStealsExactlyWhen(t: Tables, req: GroupRequest, profilesOk: bool, nameOk: bool, scmOk: bool)
    requires UpdateGroup(t, req, profilesOk, nameOk, scmOk).1 == Ok
    ensures OthersKept(t, UpdateGroup(t, req, profilesOk, nameOk, scmOk).0, req.id) <==>
            forall u :: u in req.users && (t.groups[req.id].course, u) in t.enrollments ==>
              t.enrollments[(t.groups[req.id].course, u)].group in {0, req.id}
  {
    hide ReplaceGroup, GroupUsers, OthersKept;
    ReplaceStealsExactlyWhen(t, req.id, t.groups[req.id].course, req.users);
  }

  /** So it never does when the request names the course of the group. */
  lemma UpdateNeverSteals(t: Tables, req: GroupRequest, profilesOk: bool, nameOk: bool, scmOk: bool)
    requires UpdateGroup(t, req, profilesOk, nameOk, scmOk).1 == Ok && req.course == t.groups[req.id].course
    ensures OthersKept(t, UpdateGroup(t, req, profilesOk, nameOk, scmOk).0, req.id)
  {
    GroupUsersOk(t, req);
    hide ReplaceGroup, GroupUsers, OthersKept;
    UpdateStealsExactlyWhen(t, req, profilesOk, nameOk, scmOk);
  }

  // ---------- requests that pass the checks are not rolled back ----------

  /** After `getGroupUsers` the update touches one enrolment for each user, so the row-count test of
      the transaction cannot fail. */
  lemma ChecksSuffice(t: Tables, req: GroupRequest, onlyAccepted: bool)
    requires GroupUsers(t, req) == Ok
    ensures |Touched(t, req.course, ToSet(req.users), onlyAccepted)| == |req.users|
  {
    GroupUsersOk(t, req);
    KeysSize(req.course, req.users);
    KeysMembers(req.course, req.users);
    assert Touched(t, req.course, ToSet(req.users), onlyAccepted) == Keys(req.course, req.users);
  }

  // ---------- what a group update does to grades ----------

  lemma {:induction false} ExistingAt(grades: seq<Grade>, i: nat)
    requires OneEach(grades) && i < |grades|
    ensures ExistingGrade(grades, grades[i].user) == grades[i]
  {
    if i < |grades| - 1 {
      ExistingAt(grades[..|grades| - 1], i);
    }
  }

  lemma {:induction false} ExistingNone(grades: seq<Grade>, user: nat)
    requires !HasGrade(grades, user)
    ensures ExistingGrade(grades, user) == Grade(user, None)
  {
    if |grades| > 0 {
      assert grades[|grades| - 1].user != user;
      assert forall i :: 0 <= i < |grades| - 1 ==> grades[..|grades| - 1][i] == grades[i];
      ExistingNone(grades[..|grades| - 1], user);
    }
  }

  /** What a group update makes of the grade of one member. */
  ghost predicate Carried(before: seq<Grade>, after: Grade, approves: bool) {
    if approves then after.status == Approved
    else if HasGrade(before, after.user) then after in before
    else after.status == None
  }

  /** The grades a group update leaves in a submission of the group: one for each member; all
      approved if the assignment approves the score by itself; otherwise kept members keep their
      status and new members have none. */
  ghost predicate Updated(t: Tables, t': Tables, s: nat, users: seq<nat>) {
    && s in t.submissions && s in t'.submissions && t.submissions[s].assignment in t.assignments
    && var a := t.assignments[t.submissions[s].assignment];
       var approves := a.autoApprove && t.submissions[s].score >= a.scoreLimit;
       var after := t'.submissions[s].grades;
       && GradesOf(after, users)
       && forall i :: 0 <= i < |after| ==> Carried(t.submissions[s].grades, after[i], approves)
  }

  lemma ReplaceGrades(t: Tables, id: nat, course: nat, users: seq<nat>, s: nat)
    requires SubInv(t) && id in t.groups && ReplaceGroup(t, id, course, users).1 == Ok
    requires s in t.submissions && t.submissions[s].group == id
    ensures Updated(t, ReplaceGroup(t, id, course, users).0, s, users)
  {
    assert SubmissionOk(t, s);
    ReplaceGroupGrades(t, id, course, users, s);
    RegradeCarries(t.submissions[s].grades, users);
  }

  /** Right after a group update the members are those of the request, and so are the grades. */
  lemma UpdateGrades(t: Tables, req: GroupRequest, profilesOk: bool, nameOk: bool, scmOk: bool, s: nat)
    requires SubInv(t) && UpdateGroup(t, req, profilesOk, nameOk, scmOk).1 == Ok
    requires s in t.submissions && t.submissions[s].group == req.id
    ensures Members(UpdateGroup(t, req, profilesOk, nameOk, scmOk).0, req.id) == ToSet(req.users)
    ensures Updated(t, UpdateGroup(t, req, profilesOk, nameOk, scmOk).0, s, req.users)
  {
    hide ReplaceGroup, Updated, UserProblem, NoRepeats;
    var course := t.groups[req.id].course;
    ReplaceGroupMembers(t, req.id, course, req.users);
    ReplaceGrades(t, req.id, course, req.users, s);
  }

  lemma RegradeCarries(before: seq<Grade>, users: seq<nat>)
    requires OneEach(before)
    ensures forall i :: 0 <= i < |users| ==> Carried(before, Regrade(before, users)[i], false)
  {
    RegradeUsers(before, users);
    forall i | 0 <= i < |users| ensures Carried(before, Regrade(before, users)[i], false) {
      if HasGrade(before, users[i]) {
        var j :| 0 <= j < |before| && before[j].user == users[i];
        ExistingAt(before, j);
      } else {
        ExistingNone(before, users[i]);
      }
    }
  }

  // ---------- approval is not lost ----------

  /** A submission of this owner in which everybody who belongs to the owner is approved. */
  ghost predicate AllApproved(t: Tables, s: nat, assignment: nat, user: nat, group: nat) {
    && s in t.submissions && SameOwner(t.submissions[s], Submission(assignment, user, group, 0, []))
    && (user > 0 ==> IsApproved(t.submissions[s].grades, user))
    && (group > 0 ==> forall u :: u in Members(t, group) ==> IsApproved(t.submissions[s].grades, u))
  }

  /** A test run at or above the limit of an auto-approve assignment approves everybody with a grade,
      so every member of the group. */
  lemma PassingRunApproves(t: Tables, assignment: nat, user: nat, group: nat, score: nat, rebuild: bool,
                           order: seq<nat>)
    returns (s: nat)
    requires Inv(t) && (group > 0 ==> NoRepeats(order) && ToSet(order) == Members(t, group))
    requires CheckOwner(t, assignment, user, group) == Ok
    requires t.assignments[assignment].autoApprove && score >= t.assignments[assignment].scoreLimit
    ensures AllApproved(Record(t, assignment, user, group, TestRun(score), rebuild, order).0, s,
                        assignment, user, group)
  {
    var t' := Record(t, assignment, user, group, TestRun(score), rebuild, order).0;
    var previous := Matching(t, assignment, user, group);
    s := if previous == {} then t.nextSubmission else Max(previous);
    RecordKeepsSubmissions(t, assignment, user, group, TestRun(score), rebuild, order);
    assert SubmissionOk(t', s);
    assert previous != {} ==> SubmissionOk(t, s);
    var grades := t'.submissions[s].grades;
    assert forall i :: 0 <= i < |grades| ==> grades[i].status == Approved;
    forall u | HasGrade(grades, u) ensures IsApproved(grades, u) {
      var i :| 0 <= i < |grades| && grades[i].user == u;
      assert grades[i].status == Approved;
    }
    assert user > 0 ==> grades[0].user == user && HasGrade(grades, user);
    if group > 0 {
      assert s in SubmissionsOf(t', group) && AllGraded(t', group, Members(t', group));
      assert Members(t', group) == Members(t, group);
    }
  }

  /** The event is a teacher setting the grade of this user on this submission. */
  predicate Regrades(e: Event, s: nat, user: nat) {
    e.GradeEvent? && e.submission == s && (e.user == 0 || e.user == user)
  }

  /** The user still belongs to the owner of the submission. */
  ghost predicate Belongs(t: Tables, sub: Submission, user: nat) {
    sub.group != 0 ==> user in Members(t, sub.group)
  }

  lemma SetAllApproved(grades: seq<Grade>, user: nat)
    requires IsApproved(grades, user)
    ensures IsApproved(SetAll(grades, Approved), user)
  {
    var i :| 0 <= i < |grades| && grades[i].user == user && grades[i].status == Approved;
    assert SetAll(grades, Approved)[i] == Grade(user, Approved);
  }

  lemma SetByUserKeepsOthers(grades: seq<Grade>, other: nat, status: Status, user: nat)
    requires IsApproved(grades, user) && other != user
    ensures IsApproved(SetByUser(grades, other, status), user)
  {
    var i :| 0 <= i < |grades| && grades[i].user == user && grades[i].status == Approved;
    SetByUserAt(grades, other, status, i);
  }

  lemma {:induction false} SetByUserAt(grades: seq<Grade>, other: nat, status: Status, i: nat)
    requires i < |grades| && grades[i].user != other
    ensures |SetByUser(grades, other, status)| == |grades| && SetByUser(grades, other, status)[i] == grades[i]
  {
    SetByUserSame(grades, other, status);
    if grades[0].user != other && i > 0 {
      SetByUserAt(grades[1..], other, status, i - 1);
    }
  }

  /** The submission is still there, for the same owner, and the user is still approved. */
  ghost predicate StillApproved(t: Tables, s: nat, sub: Submission, user: nat) {
    s in t.submissions && IsApproved(t.submissions[s].grades, user) && SameOwner(t.submissions[s], sub)
  }

  lemma RegradeKeepsApproval(grades: seq<Grade>, users: seq<nat>, user: nat)
    requires OneEach(grades) && IsApproved(grades, user) && user in users
    ensures IsApproved(Regrade(grades, users), user)
  {
    var i :| 0 <= i < |users| && users[i] == user;
    var j :| 0 <= j < |grades| && grades[j].user == user && grades[j].status == Approved;
    ExistingAt(grades, j);
    assert Regrade(grades, users)[i] == grades[j];
  }

  lemma ReplaceKeepsApproval(t: Tables, id: nat, course: nat, users: seq<nat>, s: nat, sub: Submission, user: nat)
    requires SubInv(t) && id in t.groups && ReplaceGroup(t, id, course, users).1 == Ok
    requires StillApproved(t, s, sub, user) && Belongs(ReplaceGroup(t, id, course, users).0, sub, user)
    ensures StillApproved(ReplaceGroup(t, id, course, users).0, s, sub, user)
  {
    ReplaceGroupGrades(t, id, course, users, s);
    if sub.group == id {
      ReplaceGroupMembers(t, id, course, users);
      assert SubmissionOk(t, s);
      RegradeKeepsApproval(t.submissions[s].grades, users, user);
      SetAllApproved(Regrade(t.submissions[s].grades, users), user);
    }
  }

  lemma RecordKeepsApproval(t: Tables, assignment: nat, owner: nat, group: nat, result: Result, rebuild: bool,
                            order: seq<nat>,
                            s: nat, sub: Submission, user: nat)
    requires SubInv(t) && StillApproved(t, s, sub, user)
    ensures StillApproved(Record(t, assignment, owner, group, result, rebuild, order).0, s, sub, user)
  {
    assert SubmissionOk(t, s);
    SetAllApproved(t.submissions[s].grades, user);
    if CheckOwner(t, assignment, owner, group) == Ok {
      var previous := Matching(t, assignment, owner, group);
      if previous != {} && s == Max(previous) {
        assert t.submissions[s].assignment == assignment;
      }
    }
  }

  /** No request takes an approval away, other than a teacher's grade or leaving the group. */
  lemma StepKeepsApproval(t: Tables, e: Event, s: nat, sub: Submission, user: nat)
    requires SubInv(t) && StillApproved(t, s, sub, user)
    requires !Regrades(e, s, user) && Belongs(Step(t, e).0, sub, user)
    ensures StillApproved(Step(t, e).0, s, sub, user)
  {
    match e
    case UpdateEvent(req, profilesOk, nameOk, scmOk) =>
      if UpdateGroup(t, req, profilesOk, nameOk, scmOk).1 == Ok {
        hide ReplaceGroup, GroupUsers, SubInv, StillApproved, Belongs;
        ReplaceKeepsApproval(t, req.id, t.groups[req.id].course, req.users, s, sub, user);
      }
    case GradeEvent(id, other, status) =>
      if id == s {
        SetByUserKeepsOthers(t.submissions[s].grades, other, status, user);
      }
    case RecordEvent(assignment, owner, group, result, rebuild, order) =>
      RecordKeepsApproval(t, assignment, owner, group, result, rebuild, order, s, sub, user);
    case _ =>
  }

  /** Nobody has graded the user, and the user has not left, between two points of a run. */
  ghost predicate Undisturbed(trace: seq<Tables>, events: seq<Event>, i: nat, j: nat, s: nat, sub: Submission,
                              user: nat)
  {
    && (forall m :: i <= m < j && m < |events| ==> !Regrades(events[m], s, user))
    && (forall m :: i <= m <= j && m < |trace| ==> Belongs(trace[m], sub, user))
  }

  /** Once approved, a grade stays approved through every later test run, rebuild, manual review,
      review score and group update, until a teacher sets it or the user leaves the group. */
  lemma {:induction false} ApprovalIsSticky(trace: seq<Tables>, events: seq<Event>, i: nat, j: nat,
                                            s: nat, sub: Submission, user: nat)
    requires ListedRun(trace, events) && SubInv(trace[0]) && i <= j < |trace|
    requires StillApproved(trace[i], s, sub, user) && Undisturbed(trace, events, i, j, s, sub, user)
    ensures StillApproved(trace[j], s, sub, user)
  {
    hide SubInv, Step, Listed, StillApproved, Belongs;
    if i < j {
      RunKeepsSubmissions(trace, events);
      ApprovalIsSticky(trace, events, i, j - 1, s, sub, user);
      assert Belongs(trace[j], sub, user) && trace[j] == Step(trace[j - 1], events[j - 1]).0;
      StepKeepsApproval(trace[j - 1], events[j - 1], s, sub, user);
    }
  }

  /** From a passing test run on, the owner of the submission, or everybody who is a member of the group then,
      stays approved at every later point of the run until a teacher grades or the member leaves. */
  lemma PassedStaysPassed(trace: seq<Tables>, events: seq<Event>, i: nat, j: nat, assignment: nat, user: nat,
                          group: nat,
                          score: nat, rebuild: bool, order: seq<nat>, s: nat, u: nat)
    requires ListedRun(trace, events) && Inv(trace[0]) && i < j < |trace|
    requires forall m :: 0 <= m < |events| ==> GradesSafe(trace[m], events[m])
    requires events[i] == RecordEvent(assignment, user, group, TestRun(score), rebuild, order)
    requires CheckOwner(trace[i], assignment, user, group) == Ok
    requires trace[i].assignments[assignment].autoApprove && score >= trace[i].assignments[assignment].scoreLimit
    requires var owner := Submission(assignment, user, group, 0, []);
             && s in trace[i + 1].submissions && SameOwner(trace[i + 1].submissions[s], owner)
             && (if group > 0 then u in Members(trace[i + 1], group) else u == user)
             && Undisturbed(trace, events, i + 1, j, s, owner, u)
    ensures StillApproved(trace[j], s, Submission(assignment, user, group, 0, []), u)
  {
    hide Inv, SubInv, Step, Undisturbed, GradesSafe, Matching;
    RunKeepsInv(trace, events);
    assert Listed(trace[i], events[i]);
    StepIsRecord(trace[i], assignment, user, group, TestRun(score), rebuild, order);
    hide Record;
    var s' := PassingRunApproves(trace[i], assignment, user, group, score, rebuild, order);
    InvIsBoth(trace[0]);
    InvIsBoth(trace[i + 1]);
    SameSubmission(trace[i + 1], s, s');
    ApprovalIsSticky(trace, events, i + 1, j, s, Submission(assignment, user, group, 0, []), u);
  }

  lemma SameSubmission(t: Tables, r: nat, s: nat)
    requires SubInv(t) && r in t.submissions && s in t.submissions && SameOwner(t.submissions[r], t.submissions[s])
    ensures r == s
  {
  }

  lemma StepIsRecord(t: Tables, assignment: nat, user: nat, group: nat, result: Result, rebuild: bool, order: seq<nat>)
    ensures Step(t, RecordEvent(assignment, user, group, result, rebuild, order)) ==
            Record(t, assignment, user, group, result, rebuild, order)
  {
  }
}
