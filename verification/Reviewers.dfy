/** Choosing reviewers for pull requests (assignments/pull_requests.go). */
module Reviewers {
  import opened Sequences

  /** The number of reviews by user ID, for one course or one group. */
  type Counts = map<nat, nat>

  datatype Option = None | Some(user: nat)

  function Of(c: Counts, u: nat): nat { if u in c then c[u] else 0 }

  function Bump(c: Counts, u: nat): Counts { c[u := Of(c, u) + 1] }

  /** Nobody offered has fewer reviews than user `i`. */
  ghost predicate Least(c: Counts, users: seq<nat>, i: nat) {
    i < |users| && forall u :: u in users ==> Of(c, users[i]) <= Of(c, u)
  }

  /** User `i` is the first without a count if there is one, otherwise the first with the lowest count. */
  ghost predicate First(c: Counts, users: seq<nat>, i: nat) {
    && i < |users|
    && (if users[i] in c
        then (forall u :: u in users ==> u in c) && (forall u :: u in users[..i] ==> Of(c, users[i]) < Of(c, u))
        else forall u :: u in users[..i] ==> u in c)
  }

  ghost predicate Picks(before: Counts, users: seq<nat>, i: nat, after: Counts) {
    Least(before, users, i) && First(before, users, i) && after == Bump(before, users[i])
  }

  /** One call: without anybody to choose from, the count of the user ID 0 grows. */
  ghost predicate Step(before: Counts, users: seq<nat>, after: Counts) {
    if |users| == 0 then after == Bump(before, 0) else exists i: nat :: Picks(before, users, i, after)
  }

  /** A run of calls, each with the users it offers. */
  ghost predicate Run(trace: seq<Counts>, calls: seq<seq<nat>>) {
    |trace| == |calls| + 1 && forall k :: 0 <= k < |calls| ==> Step(trace[k], calls[k], trace[k + 1])
  }

  lemma RunPrefix(trace: seq<Counts>, calls: seq<seq<nat>>, k: nat)
    requires Run(trace, calls) && k <= |calls|
    ensures Run(trace[..k + 1], calls[..k])
  {
  }

  // ---------- fairness ----------

  function Gap(c: Counts, u: nat, v: nat): nat {
    if Of(c, u) < Of(c, v) then Of(c, v) - Of(c, u) else Of(c, u) - Of(c, v)
  }

  function Max(a: nat, b: nat): nat { if a < b then b else a }

  lemma StepGap(before: Counts, users: seq<nat>, after: Counts, u: nat, v: nat)
    requires Step(before, users, after) && u in users && v in users
    ensures Gap(after, u, v) <= Max(1, Gap(before, u, v))
  {
  }

  /** Two users offered in every call never drift apart: the difference in their counts stays at most one,
      or at most what it was at the start. */
  lemma {:induction false} Fairness(trace: seq<Counts>, calls: seq<seq<nat>>, u: nat, v: nat)
    requires Run(trace, calls) && (forall users :: users in calls ==> u in users && v in users)
    ensures Gap(trace[|calls|], u, v) <= Max(1, Gap(trace[0], u, v))
  {
    var n := |calls|;
    if n > 0 {
      RunPrefix(trace, calls, n - 1);
      Fairness(trace[..n], calls[..n - 1], u, v);
      assert calls[n - 1] in calls;
      StepGap(trace[n - 1], calls[n - 1], trace[n], u, v);
    }
  }

  // ---------- conservation ----------

  function Sum(c: Counts, users: seq<nat>): nat {
    if |users| == 0 then 0 else Of(c, users[0]) + Sum(c, users[1..])
  }

  lemma {:induction false} SumBump(c: Counts, users: seq<nat>, u: nat)
    requires NoRepeats(users)
    ensures Sum(Bump(c, u), users) == Sum(c, users) + if u in users then 1 else 0
  {
    if |users| > 0 {
      SumBump(c, users[1..], u);
    }
  }

  /** The user whose count a call raises. */
  ghost function Picked(before: Counts, users: seq<nat>, after: Counts): (u: nat)
    requires Step(before, users, after)
    ensures after == Bump(before, u)
    ensures if |users| == 0 then u == 0 else u in users
  {
    if |users| == 0 then 0
    else
      var i: nat :| Picks(before, users, i, after);
      users[i]
  }

  /** The counts of all users grow by exactly one with each call, also when nobody is offered. */
  lemma {:induction false} CountsSumToCalls(trace: seq<Counts>, calls: seq<seq<nat>>, users: seq<nat>)
    requires Run(trace, calls) && NoRepeats(users) && trace[|calls|].Keys <= (set u | u in users)
    ensures Sum(trace[|calls|], users) == Sum(trace[0], users) + |calls|
  {
    var n := |calls|;
    if n > 0 {
      assert Step(trace[n - 1], calls[n - 1], trace[n]);
      var u := Picked(trace[n - 1], calls[n - 1], trace[n]);
      RunPrefix(trace, calls, n - 1);
      CountsSumToCalls(trace[..n], calls[..n - 1], users);
      SumBump(trace[n - 1], users, u);
      assert u in trace[n].Keys;
    }
  }

  // ---------- a fixed list of users ----------

  /** The first `r` users are one ahead of the others, who have `q` reviews each. */
  ghost predicate Level(c: Counts, users: seq<nat>, q: nat, r: nat) {
    forall i :: 0 <= i < |users| ==>
        Of(c, users[i]) == (if i < r then q + 1 else q) && (users[i] in c <==> Of(c, users[i]) > 0)
  }

  lemma LevelStep(before: Counts, users: seq<nat>, after: Counts, q: nat, r: nat)
    requires NoRepeats(users) && r < |users| && Level(before, users, q, r) && Step(before, users, after)
    ensures after == Bump(before, users[r])
    ensures if r + 1 < |users| then Level(after, users, q, r + 1) else Level(after, users, q + 1, 0)
  {
  }

  lemma {:induction false} SpreadOver(trace: seq<Counts>, calls: seq<seq<nat>>, users: seq<nat>, q: nat, r: nat)
    requires Run(trace, calls) && trace[0] == map[] && NoRepeats(users) && r < |users|
    requires forall j :: 0 <= j < |calls| ==> calls[j] == users
    requires |calls| == |users| * q + r
    ensures Level(trace[|calls|], users, q, r)
  {
    var n := |calls|;
    if n > 0 {
      RunPrefix(trace, calls, n - 1);
      assert Step(trace[n - 1], users, trace[n]);
      hide Level, Step, Run;
      if r > 0 {
        SpreadOver(trace[..n], calls[..n - 1], users, q, r - 1);
        LevelStep(trace[n - 1], users, trace[n], q, r - 1);
      } else {
        assert |users| * q == |users| * (q - 1) + |users|;
        SpreadOver(trace[..n], calls[..n - 1], users, q - 1, |users| - 1);
        LevelStep(trace[n - 1], users, trace[n], q - 1, |users| - 1);
      }
    }
  }

  /** With the same distinct users offered every time, starting without counts, reviews are spread evenly:
      after k calls each has k/n of them, rounded up for the first k mod n users and down for the others. */
  lemma EvenlySpread(trace: seq<Counts>, calls: seq<seq<nat>>, users: seq<nat>)
    requires Run(trace, calls) && trace[0] == map[] && NoRepeats(users) && |users| > 0
    requires forall j :: 0 <= j < |calls| ==> calls[j] == users
    ensures Level(trace[|calls|], users, |calls| / |users|, |calls| % |users|)
  {
    hide Level, Run;
    SpreadOver(trace, calls, users, |calls| / |users|, |calls| % |users|);
  }

  /** The choice goes round robin. */
  lemma RoundRobin(trace: seq<Counts>, calls: seq<seq<nat>>, users: seq<nat>, k: nat)
    requires Run(trace, calls) && trace[0] == map[] && NoRepeats(users) && |users| > 0
    requires forall j :: 0 <= j < |calls| ==> calls[j] == users
    requires k < |calls|
    ensures trace[k + 1] == Bump(trace[k], users[k % |users|])
  {
    RunPrefix(trace, calls, k);
    EvenlySpread(trace[..k + 1], calls[..k], users);
    assert Step(trace[k], calls[k], trace[k + 1]);
    assert trace[..k + 1][|calls[..k]|] == trace[k] && |calls[..k]| == k;
    hide Level;
    LevelStep(trace[k], users, trace[k + 1], k / |users|, k % |users|);
  }

  // ---------- the counters ----------

  method GetUsersExcept(members: seq<nat>, owner: nat) returns (others: seq<nat>)
    ensures others == Filter(Except(owner), members)
    ensures forall u :: u in others <==> u in members && u != owner
  {
    others := [];
    for i := 0 to |members|
      invariant others == Filter(Except(owner), members[..i])
    {
      FilterSnoc(Except(owner), members, i);
      if members[i] != owner {
        others := others + [members[i]];
      }
    }
    assert members[..|members|] == members;
    FilterMembers(Except(owner), members);
  }

  /** A call and its answer: one of the users offered, or nobody if the list is empty. */
  ghost predicate Chosen(before: Counts, users: seq<nat>, reviewer: Option, after: Counts) {
    if |users| == 0 then reviewer == None && after == Bump(before, 0)
    else exists i: nat :: Picks(before, users, i, after) && reviewer == Some(users[i])
  }

  lemma ChosenIsStep(before: Counts, users: seq<nat>, reviewer: Option, after: Counts)
    requires Chosen(before, users, reviewer, after)
    ensures Step(before, users, after)
    ensures reviewer.Some? ==> reviewer.user in users && after == Bump(before, reviewer.user)
  {
  }

  /** The counters of all courses, or of all groups. */
  class CountMap {
    var counts: map<nat, Counts>

    constructor ()
      ensures counts == map[]
    {
      counts := map[];
    }

    /** The counts of a course or group, none if it is not known yet. */
    function CountsOf(id: nat): Counts
      reads this
    {
      if id in counts then counts[id] else map[]
    }

    /** Afterwards the course or group is known; nobody's counts have changed. */
    method Initialize(id: nat)
      modifies this
      ensures counts.Keys == old(counts).Keys + {id}
      ensures forall other :: CountsOf(other) == old(CountsOf(other))
    {
      if id !in counts {
        counts := counts[id := map[]];
      }
    }

    method GetNextReviewer(id: nat, users: seq<nat>) returns (reviewer: Option)
      requires id in counts
      modifies this
      ensures counts.Keys == old(counts).Keys
      ensures forall other :: other != id ==> CountsOf(other) == old(CountsOf(other))
      ensures Chosen(old(CountsOf(id)), users, reviewer, CountsOf(id))
    {
      var c := counts[id];
      var lowest, lowestCount: nat := 0, 0;
      reviewer := None;
      for i := 0 to |users|
        invariant counts == old(counts)
        invariant forall u :: u in users[..i] ==> u in c
        invariant reviewer.None? <==> i == 0
        invariant i > 0 ==> lowest < i && reviewer == Some(users[lowest]) && lowestCount == Of(c, users[lowest])
        invariant forall u :: u in users[..i] ==> lowestCount <= Of(c, u)
        invariant lowest <= i && forall u :: u in users[..lowest] ==> lowestCount < Of(c, u)
      {
        assert users[..i + 1] == users[..i] + [users[i]];
        if users[i] !in c {
          counts := counts[id := c[users[i] := 1]];
          assert Picks(c, users, i, counts[id]);
          return Some(users[i]);
        }
        if c[users[i]] < lowestCount || i == 0 {
          reviewer, lowest, lowestCount := Some(users[i]), i, c[users[i]];
        }
      }
      assert users[..|users|] == users;
      var u: nat := if reviewer.Some? then reviewer.user else 0;
      counts := counts[id := Bump(c, u)];
      assert |users| > 0 ==> Picks(c, users, lowest, counts[id]);
    }

    method GetNextTeacherReviewer(course: nat, teachers: seq<nat>) returns (reviewer: Option)
      modifies this
      ensures course in counts && counts.Keys == old(counts).Keys + {course}
      ensures forall other :: other != course ==> CountsOf(other) == old(CountsOf(other))
      ensures Chosen(old(CountsOf(course)), teachers, reviewer, CountsOf(course))
    {
      Initialize(course);
      reviewer := GetNextReviewer(course, teachers);
    }

    /** A reviewer from the group is never the owner of the pull request. */
    method GetNextStudentReviewer(group: nat, members: seq<nat>, owner: nat) returns (reviewer: Option)
      modifies this
      ensures group in counts && counts.Keys == old(counts).Keys + {group}
      ensures forall other :: other != group ==> CountsOf(other) == old(CountsOf(other))
      ensures Chosen(old(CountsOf(group)), Filter(Except(owner), members), reviewer, CountsOf(group))
      ensures reviewer.None? <==> forall u :: u in members ==> u == owner
      ensures reviewer.Some? ==> reviewer.user in members && reviewer.user != owner
    {
      Initialize(group);
      var others := GetUsersExcept(members, owner);
      reviewer := GetNextReviewer(group, others);
      ChosenIsStep(old(CountsOf(group)), others, reviewer, CountsOf(group));
      assert others != [] ==> others[0] in members && others[0] != owner;
    }
  }

  /** `AssignReviewers`: both counts grow even when there is nobody to choose from on one side. */
  method AssignReviewers(teacherCounter: CountMap, groupCounter: CountMap, course: nat, teachers: seq<nat>,
                         group: nat, members: seq<nat>, owner: nat)
    returns (ok: bool, teacher: Option, student: Option)
    requires teacherCounter != groupCounter
    modifies teacherCounter, groupCounter
    ensures ok <==> teachers != [] && exists u :: u in members && u != owner
    ensures ok ==> teacher.Some? && teacher.user in teachers
    ensures ok ==> student.Some? && student.user in members && student.user != owner
    ensures Chosen(old(teacherCounter.CountsOf(course)), teachers, teacher, teacherCounter.CountsOf(course))
    ensures Chosen(old(groupCounter.CountsOf(group)), Filter(Except(owner), members), student,
                   groupCounter.CountsOf(group))
    ensures forall other :: other != course ==> teacherCounter.CountsOf(other) == old(teacherCounter.CountsOf(other))
    ensures forall other :: other != group ==> groupCounter.CountsOf(other) == old(groupCounter.CountsOf(other))
  {
    teacher := teacherCounter.GetNextTeacherReviewer(course, teachers);
    ChosenIsStep(old(teacherCounter.CountsOf(course)), teachers, teacher, teacherCounter.CountsOf(course));
    student := groupCounter.GetNextStudentReviewer(group, members, owner);
    ok := teacher.Some? && student.Some?;
  }
}
