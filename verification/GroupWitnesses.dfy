/** Runs from a new installation that end in a member without a grade, and in a user taken out of a group. */
module GroupWitnesses {
  import opened GroupModel
  import opened GroupResults
  import opened GroupSafety
  import opened Sequences

  /** The second tables can be reached from the first ones. */
  ghost predicate Reaches(t: Tables, t': Tables) {
    exists trace: seq<Tables>, events ::
      ListedRun(trace, events) && trace[0] == t && trace[|events|] == t'
  }

  lemma ReachesItself(t: Tables)
    ensures Reaches(t, t)
  {
    var trace, events: seq<Event> := [t], [];
    assert ListedRun(trace, events) && trace[|events|] == t;
  }

  lemma ReachesStep(t: Tables, t': Tables, e: Event)
    requires Reaches(t, t') && Listed(t', e)
    ensures Reaches(t, Step(t', e).0)
  {
    hide Step, Listed;
    var trace: seq<Tables>, events :| ListedRun(trace, events) && trace[0] == t && trace[|events|] == t';
    var longer, more := trace + [Step(t', e).0], events + [e];
    assert ListedRun(longer, more) && longer[0] == t && longer[|more|] == Step(t', e).0;
  }

  // ---------- steps that occur in the runs ----------

  /** A user enrolled in a course and accepted as a student. */
  function Joined(t: Tables, course: nat, user: nat): Tables {
    t.(enrollments := t.enrollments[(course, user) := Enrollment(Student, 0)])
  }

  lemma ReachesJoined(start: Tables, t: Tables, course: nat, user: nat)
    requires Reaches(start, t) && user in t.users && course in t.courses && (course, user) !in t.enrollments
    ensures Reaches(start, Joined(t, course, user))
  {
    var enroll, accept := EnrollEvent(course, user, 0, true), StatusEvent(course, user, Student, true, true);
    var t' := Step(t, enroll).0;
    assert Step(t', accept).0 == Joined(t, course, user);
    hide Step;
    ReachesStep(start, t, enroll);
    ReachesStep(start, t', accept);
  }

  /** A student without a group passes the checks of a request for a group of his own. */
  lemma OneUserPasses(t: Tables, id: nat, course: nat, user: nat)
    requires user in t.users && (course, user) in t.enrollments
    requires t.enrollments[(course, user)] == Enrollment(Student, 0)
    ensures GroupUsers(t, GroupRequest(id, course, [user])) == Ok
    ensures ToSet([user]) == {user}
  {
    assert [user][..0] == [] && ToSet([user]) == {user} && {user} * t.users == {user};
    assert UserProblem(t, course, id, user) == Ok;
    assert FirstProblem(t, course, id, []) == Ok && FirstProblem(t, course, id, [user]) == Ok;
  }

  /** The tables with a group of one student. */
  function Grouped(t: Tables, id: nat, course: nat, user: nat): Tables {
    t.(groups := t.groups[id := Group(course, {user}, GroupPending)],
       nextGroup := if id >= t.nextGroup then id + 1 else t.nextGroup,
       enrollments := t.enrollments[(course, user) := Enrollment(Student, id)])
  }

  lemma ReachesGrouped(start: Tables, t: Tables, id: nat, course: nat, user: nat)
    requires Reaches(start, t) && user in t.users && course in t.courses
    requires (course, user) in t.enrollments && t.enrollments[(course, user)] == Enrollment(Student, 0)
    requires id == 0 || id !in t.groups
    ensures var req := GroupRequest(id, course, [user]);
            && CreateGroup(t, req, true) == (Grouped(t, NewId(t, req), course, user), Ok)
            && Reaches(start, Grouped(t, NewId(t, req), course, user))
  {
    var req := GroupRequest(id, course, [user]);
    OneUserPasses(t, id, course, user);
    assert Touched(t, course, {user}, true) == {(course, user)};
    assert AssignGroup(t.enrollments, {(course, user)}, NewId(t, req)) ==
           t.enrollments[(course, user) := Enrollment(Student, NewId(t, req))];
    assert CreateGroup(t, req, true) == (Grouped(t, NewId(t, req), course, user), Ok);
    var e := CreateEvent(req, true);
    assert Step(t, e).0 == Grouped(t, NewId(t, req), course, user);
    hide Step;
    ReachesStep(start, t, e);
  }

  // ---------- a revived group ----------

  /** A new installation with one course, one assignment and two users. */
  const INSTALLED := Tables({1}, {6, 7}, map[1 := Assignment(1, false, 80)], map[], map[], map[], 1, 1)

  /** User 6 has a group and a submission, and the group is deleted; then user 7 enrols. */
  const LEFT_BEHIND := INSTALLED.(
    enrollments := map[(1, 6) := Enrollment(Student, 0), (1, 7) := Enrollment(Student, 0)],
    submissions := map[1 := Submission(1, 0, 1, 50, [Grade(6, None)])], nextGroup := 2, nextSubmission := 2)

  lemma ReachesRecorded(t: Tables)
    requires t == Grouped(Joined(INSTALLED, 1, 6), 1, 1, 6) && Reaches(INSTALLED, t)
    ensures Reaches(INSTALLED,
                    t.(submissions := map[1 := Submission(1, 0, 1, 50, [Grade(6, None)])], nextSubmission := 2))
  {
    assert InGroup(t, (1, 6), 1) && Members(t, 1) == {6};
    var e := RecordEvent(1, 0, 1, TestRun(50), false, [6]);
    assert Matching(t, 1, 0, 1) == {};
    assert FreshGrades([6]) == [Grade(6, None)];
    assert Step(t, e).0 == t.(submissions := map[1 := Submission(1, 0, 1, 50, [Grade(6, None)])], nextSubmission := 2);
    assert Listed(t, e);
    hide Step, Listed;
    ReachesStep(INSTALLED, t, e);
  }

  lemma ReachesDeleted(t: Tables)
    requires Reaches(INSTALLED, t) && 1 in t.groups && InGroup(t, (1, 6), 1)
    ensures Reaches(INSTALLED, t.(groups := t.groups - {1}, enrollments := ClearGroup(t.enrollments, 1)))
  {
    assert 6 in Members(t, 1);
    var e := DeleteEvent(1);
    assert Step(t, e).0 == t.(groups := t.groups - {1}, enrollments := ClearGroup(t.enrollments, 1));
    hide Step;
    ReachesStep(INSTALLED, t, e);
  }

  lemma ReachesLeftBehind()
    ensures Reaches(INSTALLED, LEFT_BEHIND)
  {
    hide Reaches;
    ReachesItself(INSTALLED);
    ReachesJoined(INSTALLED, INSTALLED, 1, 6);
    ReachesGrouped(INSTALLED, Joined(INSTALLED, 1, 6), 0, 1, 6);
    var t := Grouped(Joined(INSTALLED, 1, 6), 1, 1, 6);
    ReachesRecorded(t);
    var recorded := t.(submissions := map[1 := Submission(1, 0, 1, 50, [Grade(6, None)])], nextSubmission := 2);
    ReachesDeleted(recorded);
    var deleted := recorded.(groups := recorded.groups - {1}, enrollments := ClearGroup(recorded.enrollments, 1));
    ReachesJoined(INSTALLED, deleted, 1, 7);
    assert Joined(deleted, 1, 7) == LEFT_BEHIND;
  }

  /** In a run from a new installation, a request for a new group carries the identifier of the deleted group 1
      and succeeds: its member has no grade in the submission the deleted group left behind. */
  lemma RevivedGroupHasNoGrades()
    ensures Reaches(INSTALLED, LEFT_BEHIND) && Inv(LEFT_BEHIND)
    ensures var (t', outcome) := CreateGroup(LEFT_BEHIND, GroupRequest(1, 1, [7]), true);
            && outcome == Ok && Reaches(INSTALLED, t')
            && 7 in Members(t', 1) && 1 in SubmissionsOf(t', 1) && !HasGrade(t'.submissions[1].grades, 7)
  {
    ReachesLeftBehind();
    assert Members(LEFT_BEHIND, 1) == {};
    hide Reaches;
    ReachesGrouped(INSTALLED, LEFT_BEHIND, 1, 1, 7);
    var t' := Grouped(LEFT_BEHIND, 1, 1, 7);
    assert InGroup(t', (1, 7), 1);
  }

  // ---------- an update that names another course ----------

  const TWO_COURSES := Tables({1, 2}, {6, 7}, map[], map[], map[], map[], 1, 1)

  /** Users 6 and 7 have groups of their own in course 1, and user 7 is a student of course 2. */
  const TWO_GROUPS := TWO_COURSES.(
    enrollments :=
      map[(1, 6) := Enrollment(Student, 1), (1, 7) := Enrollment(Student, 2), (2, 7) := Enrollment(Student, 0)],
    groups := map[1 := Group(1, {6}, GroupPending), 2 := Group(1, {7}, GroupPending)], nextGroup := 3)

  lemma ReachesTwoGroups()
    ensures Reaches(TWO_COURSES, TWO_GROUPS)
  {
    hide Reaches;
    ReachesItself(TWO_COURSES);
    ReachesJoined(TWO_COURSES, TWO_COURSES, 1, 6);
    var a := Joined(TWO_COURSES, 1, 6);
    ReachesGrouped(TWO_COURSES, a, 0, 1, 6);
    var b := Grouped(a, 1, 1, 6);
    ReachesJoined(TWO_COURSES, b, 1, 7);
    var c := Joined(b, 1, 7);
    ReachesGrouped(TWO_COURSES, c, 0, 1, 7);
    var d := Grouped(c, 2, 1, 7);
    ReachesJoined(TWO_COURSES, d, 2, 7);
    assert Joined(d, 2, 7) == TWO_GROUPS;
  }

  /** In a run from a new installation, an update that names course 2 for group 1 of course 1 is checked against
      the wrong enrolments: user 7 is taken out of group 2. */
  lemma WrongCourseSteals()
    ensures Reaches(TWO_COURSES, TWO_GROUPS)
    ensures var (t', outcome) := UpdateGroup(TWO_GROUPS, GroupRequest(1, 2, [7]), true, true, true);
            && outcome == Ok && InGroup(TWO_GROUPS, (1, 7), 2) && InGroup(t', (1, 7), 1)
            && !OthersKept(TWO_GROUPS, t', 1)
  {
    ReachesTwoGroups();
    var t := TWO_GROUPS;
    assert InGroup(t, (1, 6), 1) && 6 in Members(t, 1);
    OneUserPasses(t, 1, 2, 7);
    assert SubmissionsOf(t, 1) == {} && AssignmentsKnown(t, 1);
    assert Touched(t, 1, {7}, false) == {(1, 7)};
    var t' := UpdateGroup(t, GroupRequest(1, 2, [7]), true, true, true).0;
    assert t.enrollments[(1, 7)].group == 2 && t'.enrollments[(1, 7)].group == 1;
  }
}
