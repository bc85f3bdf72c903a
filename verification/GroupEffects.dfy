/** What each request does to the tables, and the order in which roles are gained over runs. */
module GroupEffects {
  import opened GroupModel
  import opened GroupResults
  import opened GroupSafety
  import opened Sequences

  // ---------- groups ----------

  /** A new group has exactly the users of the request as members, lies in their course and waits for
      approval; its identifier was no group's; no submission and no other group changes. */
  lemma CreateMakesMembers(t: Tables, req: GroupRequest, nameOk: bool)
    requires EnrollInv(t) && CreateGroup(t, req, nameOk).1 == Ok
    ensures var t' := CreateGroup(t, req, nameOk).0;
            && Members(t', NewId(t, req)) == ToSet(req.users)
            && t'.groups == t.groups[NewId(t, req) := Group(req.course, ToSet(req.users), GroupPending)]
            && t'.submissions == t.submissions
            && NewId(t, req) !in t.groups
  {
    CreateMembers(t, req, nameOk);
    forall k | k in t.enrollments ensures t.enrollments[k].group != NewId(t, req) {
      assert EnrollmentOk(t, k);
    }
    assert Members(t, NewId(t, req)) == {};
  }

  /** What a caller sees of a request for a new group: its users are the members, no other group lost any, and
      after a failure nothing has changed. */
  ghost predicate GroupCreated(t: Tables, t': Tables, req: GroupRequest, outcome: Outcome) {
    && (outcome == Ok ==> OthersKept(t, t', NewId(t, req)))
    && (outcome == Ok && EnrollInv(t) ==> Members(t', NewId(t, req)) == ToSet(req.users))
    && (outcome != Ok ==> t' == t)
  }

  lemma CreateEffect(t: Tables, req: GroupRequest, nameOk: bool)
    ensures GroupCreated(t, CreateGroup(t, req, nameOk).0, req, CreateGroup(t, req, nameOk).1)
  {
    if CreateGroup(t, req, nameOk).1 == Ok {
      CreateNeverSteals(t, req, nameOk);
      if EnrollInv(t) {
        CreateMakesMembers(t, req, nameOk);
      }
    } else {
      FailedRequestChangesNothing(t, CreateEvent(req, nameOk));
    }
  }

  /** What a caller sees of an update of a group: it is approved and its members are the users of the request;
      after a failure nothing has changed. */
  ghost predicate GroupUpdated(t: Tables, t': Tables, req: GroupRequest, outcome: Outcome) {
    && (outcome == Ok ==> req.id in t'.groups && t'.groups[req.id].status == GroupApproved)
    && (outcome == Ok && IdsOk(t) ==> Members(t', req.id) == ToSet(req.users))
    && (outcome != Ok ==> t' == t)
  }

  lemma UpdateEffect(t: Tables, req: GroupRequest, profilesOk: bool, nameOk: bool, scmOk: bool)
    ensures GroupUpdated(t, UpdateGroup(t, req, profilesOk, nameOk, scmOk).0, req,
                         UpdateGroup(t, req, profilesOk, nameOk, scmOk).1)
  {
    hide GroupUsers;
    if UpdateGroup(t, req, profilesOk, nameOk, scmOk).1 == Ok && IdsOk(t) {
      ReplaceGroupMembers(t, req.id, t.groups[req.id].course, req.users);
    }
  }

  /** Deleting a group releases exactly its members; every other enrolment and all submissions stay. */
  lemma DeleteReleasesMembers(t: Tables, id: nat)
    requires IdsOk(t) && DeleteGroup(t, id).1 == Ok
    ensures var t' := DeleteGroup(t, id).0;
            && id !in t'.groups && Members(t', id) == {} && t'.submissions == t.submissions
            && OthersKept(t, t', id)
            && forall k :: InGroup(t, k, id) ==>
                 k in t'.enrollments && t'.enrollments[k] == Enrollment(t.enrollments[k].status, 0)
  {
  }

  // ---------- submissions ----------

  /** Over every run an owner has at most one submission for an assignment. */
  lemma OneSubmissionEach(trace: seq<Tables>, events: seq<Event>, i: nat, r: nat, s: nat)
    requires ListedRun(trace, events) && SubInv(trace[0]) && i < |trace|
    requires r in trace[i].submissions && s in trace[i].submissions
    requires SameOwner(trace[i].submissions[r], trace[i].submissions[s])
    ensures r == s
  {
    RunKeepsSubmissions(trace, events);
  }

  /** The owner's submission afterwards: with the score of a test run, and after a manual review with the
      score it had, or zero. */
  ghost predicate Scored(t: Tables, t': Tables, s: nat, owner: Submission, result: Result) {
    && s in t'.submissions && SameOwner(t'.submissions[s], owner)
    && (result.TestRun? ==> t'.submissions[s].score == result.score)
    && (result.ManualReview? ==> t'.submissions[s].score == if s in t.submissions then t.submissions[s].score else 0)
  }

  /** Recording a result gives the owner a submission with its score and leaves all other submissions alone. */
  lemma RecordSetsScore(t: Tables, assignment: nat, user: nat, group: nat, result: Result, rebuild: bool,
                        order: seq<nat>)
    requires SubInv(t) && CheckOwner(t, assignment, user, group) == Ok
    ensures var t' := Record(t, assignment, user, group, result, rebuild, order).0;
            exists s :: Scored(t, t', s, Submission(assignment, user, group, 0, []), result) &&
                        t'.submissions - {s} == t.submissions - {s}
  {
    var t' := Record(t, assignment, user, group, result, rebuild, order).0;
    var previous := Matching(t, assignment, user, group);
    var s := if previous == {} then t.nextSubmission else Max(previous);
    assert SubmissionOk(t, t.nextSubmission);
    assert previous != {} ==> s in previous && SubmissionOk(t, s);
    assert Scored(t, t', s, Submission(assignment, user, group, 0, []), result);
    assert t'.submissions - {s} == t.submissions - {s};
  }

  lemma {:induction false} StatusOfSetAll(grades: seq<Grade>, status: Status, u: nat)
    ensures StatusOf(SetAll(grades, status), u) == if HasGrade(grades, u) then status else None
  {
    if |grades| > 0 {
      StatusOfSetAll(grades[1..], status, u);
      assert SetAll(grades, status)[1..] == SetAll(grades[1..], status);
      HasGradeCons(grades, u);
    }
  }

  lemma HasGradeCons(grades: seq<Grade>, u: nat)
    requires |grades| > 0
    ensures HasGrade(grades, u) <==> grades[0].user == u || HasGrade(grades[1..], u)
  {
    if grades[0].user != u && HasGrade(grades, u) {
      var i :| 0 <= i < |grades| && grades[i].user == u;
      assert grades[1..][i - 1].user == u;
    }
    if HasGrade(grades[1..], u) {
      var i :| 0 <= i < |grades| - 1 && grades[1..][i].user == u;
      assert grades[i + 1].user == u;
    }
  }

  lemma {:induction false} StatusOfSetByUser(grades: seq<Grade>, user: nat, status: Status, u: nat)
    ensures StatusOf(SetByUser(grades, user, status), u) ==
            if u == user && HasGrade(grades, u) then status else StatusOf(grades, u)
  {
    if |grades| > 0 {
      StatusOfSetByUser(grades[1..], user, status, u);
      HasGradeCons(grades, u);
    } else {
      assert StatusOf(grades, u) == None;
    }
  }

  lemma {:induction false} NoGradeNoStatus(grades: seq<Grade>, u: nat)
    requires !HasGrade(grades, u)
    ensures StatusOf(grades, u) == None
  {
    if |grades| > 0 {
      HasGradeCons(grades, u);
      NoGradeNoStatus(grades[1..], u);
    }
  }

  /** A teacher's grade is what is read back for the user, or for everybody with a grade if it is for all;
      nobody else's status changes. */
  lemma GradeTakesEffect(grades: seq<Grade>, user: nat, status: Status, u: nat)
    ensures StatusOf(SetGrade(grades, user, status), u) ==
            if (user == 0 || u == user) && HasGrade(grades, u) then status else StatusOf(grades, u)
  {
    if user == 0 {
      StatusOfSetAll(grades, status, u);
      if !HasGrade(grades, u) {
        NoGradeNoStatus(grades, u);
      }
    } else {
      StatusOfSetByUser(grades, user, status, u);
    }
  }

  /** A review changes the score of its submission and no grade: a score that reaches the limit of an auto-approve
      assignment approves nobody by itself. The next group update does: it approves all members. */
  lemma ReviewApprovesAtUpdate(t: Tables, s: nat, score: nat, req: GroupRequest, profilesOk: bool, nameOk: bool,
                               scmOk: bool)
    requires SubInv(t) && s in t.submissions && t.submissions[s].group == req.id
    requires var a := t.submissions[s].assignment;
             a in t.assignments && t.assignments[a].autoApprove && score >= t.assignments[a].scoreLimit
    requires UpdateGroup(Review(t, s, score).0, req, profilesOk, nameOk, scmOk).1 == Ok
    ensures forall r :: r in t.submissions ==> (
              && r in Review(t, s, score).0.submissions
              && Review(t, s, score).0.submissions[r].grades == t.submissions[r].grades)
    ensures var t' := UpdateGroup(Review(t, s, score).0, req, profilesOk, nameOk, scmOk).0;
            s in t'.submissions && forall u :: u in Members(t', req.id) ==> IsApproved(t'.submissions[s].grades, u)
  {
    hide SubInv, UpdateGroup, Members, IsApproved;
    var t1 := Review(t, s, score).0;
    var t' := UpdateGroup(t1, req, profilesOk, nameOk, scmOk).0;
    StepKeepsSubmissions(t, ReviewEvent(s, score));
    assert SubInv(t1);
    UpdateGrades(t1, req, profilesOk, nameOk, scmOk, s);
    ApprovedForAll(t1.submissions[s].grades, t'.submissions[s].grades, req.users);
  }

  lemma ApprovedForAll(before: seq<Grade>, after: seq<Grade>, users: seq<nat>)
    requires GradesOf(after, users) && forall i :: 0 <= i < |after| ==> Carried(before, after[i], true)
    ensures forall u :: u in ToSet(users) ==> IsApproved(after, u)
  {
    forall u | u in ToSet(users) ensures IsApproved(after, u) {
      var i :| 0 <= i < |users| && users[i] == u;
      assert after[i].user == u && Carried(before, after[i], true);
    }
  }

  // ---------- enrolments ----------

  /** Enrolling succeeds at most once for a course and a user, and adds one enrolment that waits to be accepted. */
  lemma EnrollOnce(t: Tables, course: nat, user: nat, group: nat, profileOk: bool)
    ensures var (t', outcome) := Enroll(t, course, user, group, profileOk);
            && (outcome == Ok ==>
                  && (course, user) !in t.enrollments && t'.enrollments - {(course, user)} == t.enrollments
                  && t' == t.(enrollments := t'.enrollments) && Has(t', (course, user), Pending)
                  && Enroll(t', course, user, group, profileOk) == (t', AlreadyEnrolled))
            && (outcome != Ok ==> t' == t)
  {
    var t' := Enroll(t, course, user, group, profileOk).0;
    if Enroll(t, course, user, group, profileOk).1 == Ok {
      assert t'.enrollments - {(course, user)} == t.enrollments;
    }
  }

  // ---------- roles ----------

  predicate Has(t: Tables, k: Key, status: UserStatus) { k in t.enrollments && t.enrollments[k].status == status }

  /** The enrolment is there, and only its group may have changed. */
  ghost predicate StatusKept(t: Tables, t': Tables) {
    && t'.enrollments.Keys == t.enrollments.Keys
    && forall k :: k in t.enrollments ==> t'.enrollments[k].status == t.enrollments[k].status
  }

  lemma GroupsKeepStatus(t: Tables, e: Event)
    requires !e.EnrollEvent? && !e.StatusEvent?
    ensures StatusKept(t, Step(t, e).0)
  {
    if e.UpdateEvent? && Step(t, e).1 == Ok {
      hide GroupUsers;
    }
  }

  /** No request skips a rank: teachers were students, students were pending or teachers, and an enrolment
      that is pending and not new was pending. Teachers are not rejected. */
  lemma NoRankSkipped(t: Tables, e: Event, k: Key)
    ensures var t' := Step(t, e).0;
            && (Has(t', k, Teacher) ==> Has(t, k, Teacher) || Has(t, k, Student))
            && (Has(t', k, Student) ==> Has(t, k, Student) || Has(t, k, Pending) || Has(t, k, Teacher))
            && (Has(t', k, Pending) ==> Has(t, k, Pending) || k !in t.enrollments)
            && (Has(t, k, Teacher) ==> k in t'.enrollments)
  {
    if !e.EnrollEvent? && !e.StatusEvent? {
      GroupsKeepStatus(t, e);
      hide Step;
    }
  }

  ghost predicate HadBefore(trace: seq<Tables>, j: nat, k: Key, status: UserStatus) {
    exists i :: 0 <= i < j && i < |trace| && Has(trace[i], k, status)
  }

  /** Over every run, whoever is a teacher of a course was one at the start or a student of it before. */
  lemma {:induction false} TeachersWereStudents(trace: seq<Tables>, events: seq<Event>, j: nat, k: Key)
    requires Run(trace, events) && j < |trace| && Has(trace[j], k, Teacher) && !Has(trace[0], k, Teacher)
    ensures HadBefore(trace, j, k, Student)
  {
    hide Step, Has;
    assert trace[j] == Step(trace[j - 1], events[j - 1]).0;
    NoRankSkipped(trace[j - 1], events[j - 1], k);
    if Has(trace[j - 1], k, Teacher) {
      TeachersWereStudents(trace, events, j - 1, k);
    }
  }

  /** Whoever is a student or a teacher was so at the start, or has been pending before. */
  lemma {:induction false} AcceptedWerePending(trace: seq<Tables>, events: seq<Event>, j: nat, k: Key)
    requires Run(trace, events) && j < |trace| && (Has(trace[j], k, Student) || Has(trace[j], k, Teacher))
    requires !Has(trace[0], k, Student) && !Has(trace[0], k, Teacher)
    ensures HadBefore(trace, j, k, Pending)
  {
    hide Step, Has;
    assert trace[j] == Step(trace[j - 1], events[j - 1]).0;
    NoRankSkipped(trace[j - 1], events[j - 1], k);
    if Has(trace[j - 1], k, Student) || Has(trace[j - 1], k, Teacher) {
      AcceptedWerePending(trace, events, j - 1, k);
    }
  }
}
