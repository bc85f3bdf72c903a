/** What every run of enrolment, group and grading requests keeps. */
module GroupSafety {
  import opened GroupModel
  import opened Sequences

  // ---------- grades as a table of users ----------

  /** The grades are for exactly these users, one each. */
  ghost predicate OneEach(grades: seq<Grade>) {
    forall i, j :: 0 <= i < j < |grades| ==> grades[i].user != grades[j].user
  }

  predicate HasGrade(grades: seq<Grade>, user: nat) {
    exists i :: 0 <= i < |grades| && grades[i].user == user
  }

  /** The same users in the same places. */
  ghost predicate SameUsers(a: seq<Grade>, b: seq<Grade>) {
    |a| == |b| && forall i :: 0 <= i < |a| ==> a[i].user == b[i].user
  }

  lemma SameUsersKeep(a: seq<Grade>, b: seq<Grade>)
    requires SameUsers(a, b)
    ensures OneEach(a) <==> OneEach(b)
    ensures forall user :: HasGrade(a, user) <==> HasGrade(b, user)
  {
    forall user ensures HasGrade(a, user) <==> HasGrade(b, user) {
      if i :| 0 <= i < |a| && a[i].user == user {
        assert b[i].user == user;
      }
      if i :| 0 <= i < |b| && b[i].user == user {
        assert a[i].user == user;
      }
    }
  }

  lemma {:induction false} SetByUserSame(grades: seq<Grade>, user: nat, status: Status)
    ensures SameUsers(SetByUser(grades, user, status), grades)
  {
    if |grades| > 0 && grades[0].user != user {
      SetByUserSame(grades[1..], user, status);
    }
  }

  lemma SetGradeSame(grades: seq<Grade>, user: nat, status: Status)
    ensures SameUsers(SetGrade(grades, user, status), grades)
  {
    SetByUserSame(grades, user, status);
  }

  lemma IfApprovedSame(grades: seq<Grade>, a: Assignment, score: nat)
    ensures SameUsers(IfApproved(grades, a, score), grades)
  {
  }

  lemma {:induction false} ExistingGradeUser(grades: seq<Grade>, user: nat)
    ensures ExistingGrade(grades, user).user == user
  {
    if |grades| > 0 {
      ExistingGradeUser(grades[..|grades| - 1], user);
    }
  }

  /** A list of grades made for a list of users. */
  ghost predicate GradesOf(grades: seq<Grade>, users: seq<nat>) {
    |grades| == |users| && forall i :: 0 <= i < |users| ==> grades[i].user == users[i]
  }

  lemma RegradeUsers(grades: seq<Grade>, users: seq<nat>)
    ensures GradesOf(Regrade(grades, users), users)
  {
    forall i | 0 <= i < |users| ensures Regrade(grades, users)[i].user == users[i] {
      ExistingGradeUser(grades, users[i]);
    }
  }

  lemma GradesOfUsers(grades: seq<Grade>, users: seq<nat>)
    requires GradesOf(grades, users) && NoRepeats(users)
    ensures OneEach(grades) && forall user :: HasGrade(grades, user) <==> user in ToSet(users)
  {
    forall user ensures HasGrade(grades, user) <==> user in ToSet(users) {
      if user in users {
        var i :| 0 <= i < |users| && users[i] == user;
        assert grades[i].user == user;
      }
    }
  }

  // ---------- the invariants ----------

  /** The identifiers of groups that were ever given out are below the next one. */
  ghost predicate IdsOk(t: Tables) { 0 < t.nextGroup && forall g :: g in t.groups ==> 0 < g < t.nextGroup }

  /** An enrolment in a group is accepted, lies in the course of the group, and its user is listed by
      the group. */
  ghost predicate EnrollmentOk(t: Tables, k: Key) {
    k in t.enrollments && t.enrollments[k].group != 0 ==>
      var e := t.enrollments[k];
      && e.status in {Student, Teacher}
      && e.group in t.groups && t.groups[e.group].course == k.0 && k.1 in t.groups[e.group].users
  }

  /** Enrolments and groups agree. */
  ghost predicate EnrollInv(t: Tables) { IdsOk(t) && forall k :: EnrollmentOk(t, k) }

  /** A submission belongs to one user or one group; nobody has two grades in it; the user of an individual
      submission has one. */
  ghost predicate SubmissionOk(t: Tables, s: nat) {
    s in t.submissions ==>
      var sub := t.submissions[s];
      && s < t.nextSubmission && sub.assignment in t.assignments
      && (sub.user == 0 <==> sub.group != 0) && sub.group < t.nextGroup
      && OneEach(sub.grades)
      && (sub.user != 0 ==> |sub.grades| == 1 && sub.grades[0].user == sub.user)
  }

  ghost predicate SameOwner(a: Submission, b: Submission) {
    a.assignment == b.assignment && a.user == b.user && a.group == b.group
  }

  /** Every submission is in order, and no owner has two for one assignment. */
  ghost predicate SubInv(t: Tables) {
    && IdsOk(t)
    && (forall s :: SubmissionOk(t, s))
    && (forall r, s :: r in t.submissions && s in t.submissions && SameOwner(t.submissions[r], t.submissions[s]) ==>
         r == s)
  }

  /** All of these users have a grade in every submission of the group. */
  ghost predicate AllGraded(t: Tables, g: nat, users: set<nat>) {
    forall s, u :: s in SubmissionsOf(t, g) && u in users ==> HasGrade(t.submissions[s].grades, u)
  }

  /** Every current member of a group is graded. */
  ghost predicate MembersGraded(t: Tables) { forall g :: g != 0 ==> AllGraded(t, g, Members(t, g)) }

  ghost predicate Inv(t: Tables) { SubInv(t) && MembersGraded(t) }

  // ---------- the users of a request ----------

  lemma {:induction false} NoProblem(t: Tables, course: nat, id: nat, users: seq<nat>)
    requires FirstProblem(t, course, id, users) == Ok
    ensures forall u :: u in users ==> UserProblem(t, course, id, u) == Ok
  {
    if |users| > 0 {
      NoProblem(t, course, id, users[..|users| - 1]);
    }
  }

  lemma {:induction false} SetSize(users: seq<nat>)
    ensures |ToSet(users)| <= |users|
    ensures |ToSet(users)| == |users| ==> NoRepeats(users)
  {
    if |users| > 0 {
      var front, last := users[..|users| - 1], users[|users| - 1];
      SetSize(front);
      assert ToSet(users) == ToSet(front) + {last};
    }
  }

  /** A request that passes `getGroupUsers` names distinct, accepted users outside other groups. */
  lemma GroupUsersOk(t: Tables, req: GroupRequest)
    requires GroupUsers(t, req) == Ok
    ensures NoRepeats(req.users)
    ensures forall u :: u in req.users ==> UserProblem(t, req.course, req.id, u) == Ok
  {
    NoProblem(t, req.course, req.id, req.users);
    SubsetSize(ToSet(req.users) * t.users, ToSet(req.users));
    SetSize(req.users);
  }

  // ---------- group updates ----------

  /** The group an enrolment is in after the given users of a course have become the members of `id`. */
  function GroupAfter(t: Tables, k: Key, id: nat, course: nat, users: seq<nat>): nat
    requires k in t.enrollments
  {
    if k.0 == course && k.1 in users then id
    else if t.enrollments[k].group == id then 0
    else t.enrollments[k].group
  }

  /** The enrolments of the given users of a course. */
  function Keys(course: nat, users: seq<nat>): set<Key> {
    if |users| == 0 then {} else Keys(course, users[..|users| - 1]) + {(course, users[|users| - 1])}
  }

  lemma {:induction false} KeysMembers(course: nat, users: seq<nat>)
    ensures forall k: Key :: k in Keys(course, users) <==> k.0 == course && k.1 in users
  {
    if |users| > 0 {
      var front, last := users[..|users| - 1], users[|users| - 1];
      KeysMembers(course, front);
      assert forall u :: u in users <==> u in front || u == last;
    }
  }

  lemma {:induction false} KeysSize(course: nat, users: seq<nat>)
    ensures |Keys(course, users)| <= |users|
    ensures NoRepeats(users) ==> |Keys(course, users)| == |users|
  {
    if |users| > 0 {
      var front, last := users[..|users| - 1], users[|users| - 1];
      KeysSize(course, front);
      KeysMembers(course, front);
      if NoRepeats(users) {
        assert last !in front;
        assert (course, last) !in Keys(course, front);
      }
    }
  }

  lemma {:induction false} SameSize<T>(a: set<T>, b: set<T>)
    requires a <= b && |a| >= |b|
    ensures a == b
  {
    if a != {} {
      var x :| x in a;
      SameSize(a - {x}, b - {x});
    }
  }

  /** An update that touches as many rows as it has users touches one enrolment of each. */
  lemma TouchedAll(t: Tables, course: nat, users: seq<nat>, onlyAccepted: bool)
    requires |Touched(t, course, ToSet(users), onlyAccepted)| == |users|
    ensures Touched(t, course, ToSet(users), onlyAccepted) == Keys(course, users)
    ensures forall u :: u in users ==> (course, u) in Touched(t, course, ToSet(users), onlyAccepted)
  {
    KeysMembers(course, users);
    KeysSize(course, users);
    SameSize(Touched(t, course, ToSet(users), onlyAccepted), Keys(course, users));
    forall u | u in users ensures (course, u) in Touched(t, course, ToSet(users), onlyAccepted) {
      assert (course, u) in Keys(course, users);
    }
  }

  lemma ReplaceGroupMembers(t: Tables, id: nat, course: nat, users: seq<nat>)
    requires id in t.groups && id > 0 && ReplaceGroup(t, id, course, users).1 == Ok
    ensures var t' := ReplaceGroup(t, id, course, users).0;
            && (forall user :: user in Members(t', id) <==> user in users)
            && t'.enrollments.Keys == t.enrollments.Keys
            && (forall k :: k in t.enrollments ==>
                  t'.enrollments[k] == t.enrollments[k].(group := GroupAfter(t, k, id, course, users)))
            && (forall u :: u in users ==> (course, u) in t.enrollments)
  {
    var t' := ReplaceGroup(t, id, course, users).0;
    TouchedAll(t, course, users, false);
    forall user ensures user in Members(t', id) <==> user in users {
      if user in users {
        assert InGroup(t', (course, user), id);
      }
    }
  }

  /** Right after a group update the grades of every submission of the group are exactly its members,
      one each, in the order of the request; other submissions are untouched. */
  lemma ReplaceGroupGrades(t: Tables, id: nat, course: nat, users: seq<nat>, s: nat)
    requires id in t.groups && ReplaceGroup(t, id, course, users).1 == Ok && s in t.submissions
    ensures var t' := ReplaceGroup(t, id, course, users).0;
            && s in t'.submissions
            && (t.submissions[s].group != id ==> t'.submissions[s] == t.submissions[s])
            && (t.submissions[s].group == id ==>
                  && GradesOf(t'.submissions[s].grades, users)
                  && t'.submissions[s] == t.submissions[s].(grades := t'.submissions[s].grades))
  {
    if t.submissions[s].group == id {
      RegradeUsers(t.submissions[s].grades, users);
    }
  }

  // ---------- identifiers and submissions: kept by every request ----------

  lemma StepKeepsIds(t: Tables, e: Event)
    requires IdsOk(t)
    ensures IdsOk(Step(t, e).0) && Step(t, e).0.nextGroup >= t.nextGroup
    ensures Step(t, e).0.assignments == t.assignments
  {
  }

  /** If submissions stay, they stay in order. */
  lemma SubmissionsStay(t: Tables, t': Tables)
    requires SubInv(t) && IdsOk(t')
    requires t'.submissions == t.submissions && t'.assignments == t.assignments
    requires t'.nextSubmission == t.nextSubmission && t'.nextGroup >= t.nextGroup
    ensures SubInv(t')
  {
    forall s ensures SubmissionOk(t', s) {
      assert SubmissionOk(t, s);
    }
  }

  /** Replacing one submission by one of the same owner with grades for the same users. */
  lemma ReplaceSubmission(t: Tables, id: nat, sub: Submission)
    requires SubInv(t) && id in t.submissions && SameOwner(sub, t.submissions[id])
    requires SameUsers(sub.grades, t.submissions[id].grades)
    ensures SubInv(t.(submissions := t.submissions[id := sub]))
    ensures MembersGraded(t) ==> MembersGraded(t.(submissions := t.submissions[id := sub]))
  {
    var t' := t.(submissions := t.submissions[id := sub]);
    SameUsersKeep(sub.grades, t.submissions[id].grades);
    forall s ensures SubmissionOk(t', s) {
      assert SubmissionOk(t, s);
      assert SubmissionOk(t, id);
    }
    assert forall g :: Members(t', g) == Members(t, g);
    assert forall g, s :: s in SubmissionsOf(t', g) <==> s in SubmissionsOf(t, g);
  }

  lemma InsertKeepsSubmissions(t: Tables, assignment: nat, user: nat, group: nat, score: nat, order: seq<nat>)
    requires SubInv(t) && CheckOwner(t, assignment, user, group) == Ok
    requires Matching(t, assignment, user, group) == {}
    requires group > 0 ==> NoRepeats(order) && ToSet(order) == Members(t, group)
    ensures SubInv(InsertSubmission(t, assignment, user, group, score, order))
    ensures MembersGraded(t) ==> MembersGraded(InsertSubmission(t, assignment, user, group, score, order))
  {
    var t' := InsertSubmission(t, assignment, user, group, score, order);
    var users := if group > 0 then order else [user];
    var id, sub := t.nextSubmission, t'.submissions[t.nextSubmission];
    IfApprovedSame(FreshGrades(users), t.assignments[assignment], score);
    SameUsersKeep(sub.grades, FreshGrades(users));
    GradesOfUsers(FreshGrades(users), users);
    forall s ensures SubmissionOk(t', s) {
      assert SubmissionOk(t, s);
    }
    forall s | s in t.submissions ensures !SameOwner(t.submissions[s], sub) {
      assert SubmissionOk(t, s);
      assert s !in Matching(t, assignment, user, group);
    }
    assert SubmissionOk(t, id);
    assert forall g :: Members(t', g) == Members(t, g);
    assert forall g, s :: s != id ==> (s in SubmissionsOf(t', g) <==> s in SubmissionsOf(t, g));
  }

  lemma RecordKeepsSubmissions(t: Tables, assignment: nat, user: nat, group: nat, result: Result, rebuild: bool,
                               order: seq<nat>)
    requires SubInv(t)
    requires group > 0 ==> NoRepeats(order) && ToSet(order) == Members(t, group)
    ensures SubInv(Record(t, assignment, user, group, result, rebuild, order).0)
    ensures MembersGraded(t) ==> MembersGraded(Record(t, assignment, user, group, result, rebuild, order).0)
  {
    if CheckOwner(t, assignment, user, group) == Ok {
      var previous := Matching(t, assignment, user, group);
      if previous == {} {
        InsertKeepsSubmissions(t, assignment, user, group, if result.TestRun? then result.score else 0, order);
      } else {
        var id := Max(previous);
        assert SubmissionOk(t, id);
        var t' := Record(t, assignment, user, group, result, rebuild, order).0;
        ReplaceSubmission(t, id, t'.submissions[id]);
      }
    }
  }

  lemma ReplaceKeepsSubmissions(t: Tables, id: nat, course: nat, users: seq<nat>)
    requires SubInv(t) && id in t.groups && NoRepeats(users) && ReplaceGroup(t, id, course, users).1 == Ok
    ensures SubInv(ReplaceGroup(t, id, course, users).0)
  {
    var t' := ReplaceGroup(t, id, course, users).0;
    forall s ensures SubmissionOk(t', s) {
      assert SubmissionOk(t, s);
      if s in t.submissions {
        ReplaceGroupGrades(t, id, course, users, s);
        if t.submissions[s].group == id {
          GradesOfUsers(t'.submissions[s].grades, users);
        }
      }
    }
    forall r, s | r in t'.submissions && s in t'.submissions && SameOwner(t'.submissions[r], t'.submissions[s])
      ensures r == s
    {
      ReplaceGroupGrades(t, id, course, users, r);
      ReplaceGroupGrades(t, id, course, users, s);
    }
  }

  /** Updating a group leaves every member of every group graded, whatever the request says. */
  lemma ReplaceKeepsGraded(t: Tables, id: nat, course: nat, users: seq<nat>)
    requires SubInv(t) && MembersGraded(t) && id in t.groups && NoRepeats(users)
    requires ReplaceGroup(t, id, course, users).1 == Ok
    ensures MembersGraded(ReplaceGroup(t, id, course, users).0)
  {
    var t' := ReplaceGroup(t, id, course, users).0;
    ReplaceGroupMembers(t, id, course, users);
    forall g, s, u | g != 0 && s in SubmissionsOf(t', g) && u in Members(t', g)
      ensures HasGrade(t'.submissions[s].grades, u)
    {
      ReplaceGroupGrades(t, id, course, users, s);
      if g == id {
        GradesOfUsers(t'.submissions[s].grades, users);
      } else {
        var k :| k in t'.enrollments && t'.enrollments[k].group == g && k.1 == u;
        assert InGroup(t, k, g) && u in Members(t, g);
        assert s in SubmissionsOf(t, g) && AllGraded(t, g, Members(t, g));
      }
    }
  }

  /** Every request keeps submissions in order. */
  lemma StepKeepsSubmissions(t: Tables, e: Event)
    requires SubInv(t) && Listed(t, e)
    ensures SubInv(Step(t, e).0)
  {
    StepKeepsIds(t, e);
    match e
    case UpdateEvent(req, profilesOk, nameOk, scmOk) =>
      if Step(t, e).1 == Ok {
        GroupUsersOk(t, req);
        hide ReplaceGroup, GroupUsers, IdsOk, SubInv;
        ReplaceKeepsSubmissions(t, req.id, t.groups[req.id].course, req.users);
      }
    case RecordEvent(assignment, user, group, result, rebuild, order) =>
      hide SubInv, IdsOk, Record;
      RecordKeepsSubmissions(t, assignment, user, group, result, rebuild, order);
    case GradeEvent(id, user, status) =>
      if id in t.submissions {
        SetGradeSame(t.submissions[id].grades, user, status);
        ReplaceSubmission(t, id, t.submissions[id].(grades := SetGrade(t.submissions[id].grades, user, status)));
      }
    case ReviewEvent(id, score) =>
      if id in t.submissions {
        ReplaceSubmission(t, id, t.submissions[id].(score := score));
      }
    case _ =>
      hide SubInv, IdsOk;
      SubmissionsStay(t, Step(t, e).0);
  }

  // ---------- members and grades: which requests keep them ----------

  /** Users who join a group keep the grades complete exactly if each of them has a grade in every submission
      of the group. */
  lemma JoinExactlyWhen(t: Tables, t': Tables, g: nat, users: set<nat>)
    requires MembersGraded(t) && t'.submissions == t.submissions && g != 0
    requires Members(t', g) == Members(t, g) + users
    requires forall h :: h != 0 && h != g ==> Members(t', h) <= Members(t, h)
    ensures MembersGraded(t') <==> AllGraded(t, g, users)
  {
    assert forall h :: SubmissionsOf(t', h) == SubmissionsOf(t, h);
    assert AllGraded(t, g, Members(t, g));
    if MembersGraded(t') {
      assert AllGraded(t', g, Members(t', g));
    }
    if AllGraded(t, g, users) {
      forall h | h != 0 ensures AllGraded(t', h, Members(t', h)) {
        assert AllGraded(t, h, Members(t, h));
      }
    }
  }

  /** If nobody joins a group, the grades stay complete. */
  lemma LeaversKeepGraded(t: Tables, t': Tables)
    requires MembersGraded(t) && t'.submissions == t.submissions
    requires t'.enrollments.Keys <= t.enrollments.Keys
    requires forall k :: k in t'.enrollments && t'.enrollments[k].group != 0 ==>
               t'.enrollments[k].group == t.enrollments[k].group
    ensures MembersGraded(t')
  {
    forall g | g != 0 ensures AllGraded(t', g, Members(t', g)) {
      assert AllGraded(t, g, Members(t, g));
      assert SubmissionsOf(t', g) == SubmissionsOf(t, g);
      assert Members(t', g) <= Members(t, g);
    }
  }

  lemma CreateMembers(t: Tables, req: GroupRequest, nameOk: bool)
    requires IdsOk(t) && CreateGroup(t, req, nameOk).1 == Ok
    ensures var t' := CreateGroup(t, req, nameOk).0;
            && Members(t', NewId(t, req)) == Members(t, NewId(t, req)) + ToSet(req.users)
            && forall h :: h != NewId(t, req) ==> Members(t', h) <= Members(t, h)
  {
    var t', id := CreateGroup(t, req, nameOk).0, NewId(t, req);
    TouchedAll(t, req.course, req.users, true);
    forall k | k in t.enrollments && t.enrollments[k].group == id ensures k.1 in Members(t', id) {
      assert InGroup(t', k, id);
    }
    forall u | u in req.users ensures u in Members(t', id) {
      assert InGroup(t', (req.course, u), id);
    }
  }

  lemma NoSubmissionsYet(t: Tables)
    requires SubInv(t)
    ensures SubmissionsOf(t, t.nextGroup) == {}
  {
    assert forall s :: s in t.submissions ==> SubmissionOk(t, s);
  }

  /** Everybody in the request already has a grade in the submissions that a former group left behind. */
  ghost predicate LeftGraded(t: Tables, id: nat, users: seq<nat>) {
    forall s :: s in t.submissions && t.submissions[s].group == id ==>
      forall u :: u in users ==> HasGrade(t.submissions[s].grades, u)
  }

  lemma LeftGradedMeans(t: Tables, id: nat, users: seq<nat>)
    ensures LeftGraded(t, id, users) <==> AllGraded(t, id, ToSet(users))
  {
    hide HasGrade;
    if AllGraded(t, id, ToSet(users)) {
      forall s, u | s in t.submissions && t.submissions[s].group == id && u in users
        ensures HasGrade(t.submissions[s].grades, u)
      {
        assert s in SubmissionsOf(t, id) && u in ToSet(users);
      }
    }
  }

  /** Creating a group keeps the members graded exactly if its identifier is new, or everybody in the request
      already has a grade in the submissions that a former group of this identifier left behind. */
  lemma CreateKeepsInvExactlyWhen(t: Tables, req: GroupRequest, nameOk: bool)
    requires Inv(t) && CreateGroup(t, req, nameOk).1 == Ok
    ensures Inv(CreateGroup(t, req, nameOk).0) <==> req.id == 0 || LeftGraded(t, req.id, req.users)
  {
    var t', id := CreateGroup(t, req, nameOk).0, NewId(t, req);
    assert t'.submissions == t.submissions && t'.nextSubmission == t.nextSubmission && 0 < t.nextGroup;
    StepKeepsIds(t, CreateEvent(req, nameOk));
    hide CreateGroup, SubInv, IdsOk, MembersGraded, Members, SubmissionsOf, LeftGraded, AllGraded;
    SubmissionsStay(t, t');
    CreateMembers(t, req, nameOk);
    JoinExactlyWhen(t, t', id, ToSet(req.users));
    NoSubmissionsYet(t);
    LeftGradedMeans(t, id, req.users);
    NobodyToGrade(t, id, ToSet(req.users));
  }

  lemma NobodyToGrade(t: Tables, g: nat, users: set<nat>)
    ensures SubmissionsOf(t, g) == {} ==> AllGraded(t, g, users)
  {
  }

  /** An enrolment request may name a group; it keeps the members graded exactly if the user has a grade in
      every submission of that group. */
  lemma EnrollKeepsInvExactlyWhen(t: Tables, course: nat, user: nat, group: nat, profileOk: bool)
    requires Inv(t) && Enroll(t, course, user, group, profileOk).1 == Ok
    ensures Inv(Enroll(t, course, user, group, profileOk).0) <==> group == 0 || AllGraded(t, group, {user})
  {
    var t' := Enroll(t, course, user, group, profileOk).0;
    SubmissionsStay(t, t');
    forall k ensures k in t'.enrollments <==> k in t.enrollments || k == (course, user) {
    }
    forall h | h != 0 ensures Members(t', h) == if h == group then Members(t, h) + {user} else Members(t, h) {
      assert InGroup(t', (course, user), group);
      assert forall k :: k in t.enrollments && t.enrollments[k].group == h ==> InGroup(t', k, h);
    }
    hide SubInv, Members;
    if group != 0 {
      JoinExactlyWhen(t, t', group, {user});
    } else {
      assert forall g :: SubmissionsOf(t', g) == SubmissionsOf(t, g);
      assert forall g :: g != 0 ==> (AllGraded(t', g, Members(t', g)) <==> AllGraded(t, g, Members(t, g)));
    }
  }

  /** The condition a request must meet to keep the members graded; it can be checked beforehand. */
  ghost predicate GradesSafe(t: Tables, e: Event) {
    match e
    case EnrollEvent(course, user, group, _) => Step(t, e).1 == Ok ==> group == 0 || AllGraded(t, group, {user})
    case CreateEvent(req, _) => Step(t, e).1 == Ok ==> req.id == 0 || LeftGraded(t, req.id, req.users)
    case _ => true
  }

  lemma UpdateKeepsInv(t: Tables, req: GroupRequest, profilesOk: bool, nameOk: bool, scmOk: bool)
    requires Inv(t)
    ensures Inv(UpdateGroup(t, req, profilesOk, nameOk, scmOk).0)
  {
    if UpdateGroup(t, req, profilesOk, nameOk, scmOk).1 == Ok {
      GroupUsersOk(t, req);
      hide ReplaceGroup, GroupUsers, SubInv, MembersGraded;
      ReplaceKeepsSubmissions(t, req.id, t.groups[req.id].course, req.users);
      ReplaceKeepsGraded(t, req.id, t.groups[req.id].course, req.users);
    }
  }

  lemma ChangeStatusKeepsInv(t: Tables, course: nat, user: nat, wanted: UserStatus, profileOk: bool, scmOk: bool)
    requires Inv(t)
    ensures Inv(ChangeStatus(t, course, user, wanted, profileOk, scmOk).0)
  {
    var t' := ChangeStatus(t, course, user, wanted, profileOk, scmOk).0;
    SubmissionsStay(t, t');
    hide SubInv, MembersGraded;
    LeaversKeepGraded(t, t');
  }

  lemma DeleteGroupKeepsInv(t: Tables, id: nat)
    requires Inv(t)
    ensures Inv(DeleteGroup(t, id).0)
  {
    var t' := DeleteGroup(t, id).0;
    SubmissionsStay(t, t');
    hide SubInv, MembersGraded;
    LeaversKeepGraded(t, t');
  }

  /** A request keeps every member graded exactly if it meets the condition. */
  lemma StepKeepsInvExactlyWhen(t: Tables, e: Event)
    requires Inv(t) && Listed(t, e)
    ensures Inv(Step(t, e).0) <==> GradesSafe(t, e)
  {
    hide Inv, Enroll, ChangeStatus, CreateGroup, UpdateGroup, DeleteGroup, Record;
    match e
    case EnrollEvent(course, user, group, profileOk) =>
      if Step(t, e).1 == Ok {
        EnrollKeepsInvExactlyWhen(t, course, user, group, profileOk);
      } else {
        FailedRequestChangesNothing(t, e);
      }
    case CreateEvent(req, nameOk) =>
      if Step(t, e).1 == Ok {
        CreateKeepsInvExactlyWhen(t, req, nameOk);
      } else {
        FailedRequestChangesNothing(t, e);
      }
    case StatusEvent(course, user, wanted, profileOk, scmOk) =>
      ChangeStatusKeepsInv(t, course, user, wanted, profileOk, scmOk);
    case UpdateEvent(req, profilesOk, nameOk, scmOk) => UpdateKeepsInv(t, req, profilesOk, nameOk, scmOk);
    case DeleteEvent(id) => DeleteGroupKeepsInv(t, id);
    case _ =>
      InvIsBoth(t);
      StepKeepsSubmissions(t, e);
      GradingKeepsGraded(t, e);
      InvIsBoth(Step(t, e).0);
  }

  lemma InvIsBoth(t: Tables)
    ensures Inv(t) <==> SubInv(t) && MembersGraded(t)
  {
  }

  lemma GradingKeepsGraded(t: Tables, e: Event)
    requires SubInv(t) && MembersGraded(t) && Listed(t, e) && (e.RecordEvent? || e.GradeEvent? || e.ReviewEvent?)
    ensures MembersGraded(Step(t, e).0)
  {
    hide SubInv, MembersGraded, Record;
    match e
    case RecordEvent(assignment, user, group, result, rebuild, order) =>
      RecordKeepsSubmissions(t, assignment, user, group, result, rebuild, order);
    case GradeEvent(id, user, status) =>
      if id in t.submissions {
        SetGradeSame(t.submissions[id].grades, user, status);
        ReplaceSubmission(t, id, t.submissions[id].(grades := SetGrade(t.submissions[id].grades, user, status)));
      }
    case ReviewEvent(id, score) =>
      if id in t.submissions {
        ReplaceSubmission(t, id, t.submissions[id].(score := score));
      }
  }

  /** A request that fails changes nothing; an error in charging slip days comes after the recording. */
  lemma FailedRequestChangesNothing(t: Tables, e: Event)
    requires Step(t, e).1 != Ok && (e.RecordEvent? ==> Step(t, e).1 != SlipDaysFailed)
    ensures Step(t, e).0 == t
  {
  }

  // ---------- enrolments and groups: which requests keep them ----------

  /** All of these users are accepted in the course. */
  ghost predicate AllAccepted(t: Tables, course: nat, users: set<nat>) {
    forall u :: u in users ==> (course, u) in t.enrollments && t.enrollments[(course, u)].status in {Student, Teacher}
  }

  /** The condition a request must meet to keep enrolments and groups in agreement: an enrolment request must
      not name a group, and the users of a group update must be accepted in the course of the group. */
  ghost predicate EnrollSafe(t: Tables, e: Event) {
    match e
    case EnrollEvent(_, _, group, _) => Step(t, e).1 == Ok ==> group == 0
    case UpdateEvent(req, _, _, _) => Step(t, e).1 == Ok ==> AllAccepted(t, t.groups[req.id].course, ToSet(req.users))
    case _ => true
  }

  lemma EnrollKeepsEnrollments(t: Tables, course: nat, user: nat, group: nat, profileOk: bool)
    requires EnrollInv(t) && Enroll(t, course, user, group, profileOk).1 == Ok
    ensures EnrollInv(Enroll(t, course, user, group, profileOk).0) <==> group == 0
  {
    var t' := Enroll(t, course, user, group, profileOk).0;
    assert group != 0 ==> !EnrollmentOk(t', (course, user));
    forall k | k != (course, user) ensures EnrollmentOk(t', k) {
      assert EnrollmentOk(t, k);
    }
  }

  lemma ReplaceKeepsEnrollments(t: Tables, id: nat, course: nat, users: seq<nat>)
    requires EnrollInv(t) && id in t.groups && t.groups[id].course == course
    requires ReplaceGroup(t, id, course, users).1 == Ok
    ensures EnrollInv(ReplaceGroup(t, id, course, users).0) <==> AllAccepted(t, course, ToSet(users))
  {
    var t' := ReplaceGroup(t, id, course, users).0;
    ReplaceGroupMembers(t, id, course, users);
    StepKeepsIdsByReplace(t, id, course, users);
    if AllAccepted(t, course, ToSet(users)) {
      forall k ensures EnrollmentOk(t', k) {
        assert EnrollmentOk(t, k);
      }
    }
    if u :| u in users && t.enrollments[(course, u)].status !in {Student, Teacher} {
      assert !EnrollmentOk(t', (course, u));
    }
  }

  lemma StepKeepsIdsByReplace(t: Tables, id: nat, course: nat, users: seq<nat>)
    requires IdsOk(t) && id in t.groups
    ensures IdsOk(ReplaceGroup(t, id, course, users).0)
  {
  }

  /** Creating a group keeps enrolments and groups in agreement, whatever identifier the request carries. */
  lemma CreateKeepsEnrollments(t: Tables, req: GroupRequest, nameOk: bool)
    requires EnrollInv(t)
    ensures EnrollInv(CreateGroup(t, req, nameOk).0)
  {
    var t' := CreateGroup(t, req, nameOk).0;
    StepKeepsIds(t, CreateEvent(req, nameOk));
    forall k ensures EnrollmentOk(t', k) {
      assert EnrollmentOk(t, k);
    }
  }

  lemma OthersKeepEnrollments(t: Tables, e: Event)
    requires EnrollInv(t) && (e.StatusEvent? || e.DeleteEvent? || e.RecordEvent? || e.GradeEvent? || e.ReviewEvent?)
    ensures EnrollInv(Step(t, e).0)
  {
    StepKeepsIds(t, e);
    var t' := Step(t, e).0;
    forall k ensures EnrollmentOk(t', k) {
      assert EnrollmentOk(t, k);
    }
  }

  /** A request keeps enrolments and groups in agreement exactly if it meets the condition. */
  lemma StepKeepsEnrollInvExactlyWhen(t: Tables, e: Event)
    requires EnrollInv(t)
    ensures EnrollInv(Step(t, e).0) <==> EnrollSafe(t, e)
  {
    hide EnrollInv, Enroll, ChangeStatus, CreateGroup, DeleteGroup, Record, AllAccepted;
    match e
    case EnrollEvent(course, user, group, profileOk) =>
      if Step(t, e).1 == Ok {
        EnrollKeepsEnrollments(t, course, user, group, profileOk);
      } else {
        FailedRequestChangesNothing(t, e);
      }
    case CreateEvent(req, nameOk) => CreateKeepsEnrollments(t, req, nameOk);
    case UpdateEvent(req, profilesOk, nameOk, scmOk) =>
      if Step(t, e).1 == Ok {
        hide GroupUsers, ReplaceGroup;
        ReplaceKeepsEnrollments(t, req.id, t.groups[req.id].course, req.users);
      }
    case _ => OthersKeepEnrollments(t, e);
  }

  /** An update that names the course its group has meets the condition. */
  lemma SameCourseIsSafe(t: Tables, req: GroupRequest, profilesOk: bool, nameOk: bool, scmOk: bool)
    requires req.id in t.groups ==> req.course == t.groups[req.id].course
    ensures EnrollSafe(t, UpdateEvent(req, profilesOk, nameOk, scmOk))
  {
    if UpdateGroup(t, req, profilesOk, nameOk, scmOk).1 == Ok {
      GroupUsersOk(t, req);
    }
  }

  // ---------- every run ----------

  lemma {:induction false} RunKeepsSubmissions(trace: seq<Tables>, events: seq<Event>)
    requires ListedRun(trace, events) && SubInv(trace[0])
    ensures forall i :: 0 <= i < |trace| ==> SubInv(trace[i])
  {
    hide SubInv, Step, Listed;
    if |events| > 0 {
      var n := |events| - 1;
      RunKeepsSubmissions(trace[..n + 1], events[..n]);
      assert trace[n] == trace[..n + 1][n];
      StepKeepsSubmissions(trace[n], events[n]);
    }
  }

  lemma {:induction false} RunKeepsInv(trace: seq<Tables>, events: seq<Event>)
    requires ListedRun(trace, events) && Inv(trace[0])
    requires forall i :: 0 <= i < |events| ==> GradesSafe(trace[i], events[i])
    ensures forall i :: 0 <= i < |trace| ==> Inv(trace[i])
  {
    hide Inv, Step, Listed, GradesSafe;
    if |events| > 0 {
      var n := |events| - 1;
      RunKeepsInv(trace[..n + 1], events[..n]);
      assert trace[n] == trace[..n + 1][n];
      StepKeepsInvExactlyWhen(trace[n], events[n]);
    }
  }

  lemma {:induction false} RunKeepsEnrollments(trace: seq<Tables>, events: seq<Event>)
    requires Run(trace, events) && EnrollInv(trace[0])
    requires forall i :: 0 <= i < |events| ==> EnrollSafe(trace[i], events[i])
    ensures forall i :: 0 <= i < |trace| ==> EnrollInv(trace[i])
  {
    hide EnrollInv, Step, EnrollSafe;
    if |events| > 0 {
      var n := |events| - 1;
      RunKeepsEnrollments(trace[..n + 1], events[..n]);
      assert trace[n] == trace[..n + 1][n];
      StepKeepsEnrollInvExactlyWhen(trace[n], events[n]);
    }
  }

  /** The tables of a new installation satisfy all invariants. */
  lemma EmptyTablesOk(t: Tables)
    requires t.enrollments == map[] && t.groups == map[] && t.submissions == map[] && t.nextGroup > 0
    ensures Inv(t) && EnrollInv(t)
  {
  }

  // ---------- main results ----------

  /** Over every run of requests that meet the condition, each current member of a group has exactly one grade
      in every submission of that group. */
  lemma MembersAreGraded(trace: seq<Tables>, events: seq<Event>, i: nat, s: nat, k: Key)
    requires ListedRun(trace, events) && Inv(trace[0]) && i < |trace|
    requires forall j :: 0 <= j < |events| ==> GradesSafe(trace[j], events[j])
    requires s in trace[i].submissions && trace[i].submissions[s].group != 0
    requires InGroup(trace[i], k, trace[i].submissions[s].group)
    ensures |set j | 0 <= j < |trace[i].submissions[s].grades| && trace[i].submissions[s].grades[j].user == k.1| == 1
  {
    RunKeepsInv(trace, events);
    var t := trace[i];
    var grades, g := t.submissions[s].grades, t.submissions[s].group;
    assert SubmissionOk(t, s) && AllGraded(t, g, Members(t, g)) && s in SubmissionsOf(t, g);
    assert k.1 in Members(t, g);
    var j :| 0 <= j < |grades| && grades[j].user == k.1;
    assert (set x | 0 <= x < |grades| && grades[x].user == k.1) == {j};
  }

  /** Over every run of requests that meet the condition, an enrolment in a group is a student's or teacher's,
      lies in the course of the group, and its user is one of the users the group lists. */
  lemma EnrollmentsAgreeWithGroups(trace: seq<Tables>, events: seq<Event>, i: nat, k: Key)
    requires Run(trace, events) && EnrollInv(trace[0]) && i < |trace|
    requires forall j :: 0 <= j < |events| ==> EnrollSafe(trace[j], events[j])
    requires k in trace[i].enrollments && trace[i].enrollments[k].group != 0
    ensures var g := trace[i].enrollments[k].group;
            && trace[i].enrollments[k].status in {Student, Teacher}
            && g in trace[i].groups && trace[i].groups[g].course == k.0 && k.1 in trace[i].groups[g].users
  {
    RunKeepsEnrollments(trace, events);
    assert EnrollmentOk(trace[i], k);
  }
}
