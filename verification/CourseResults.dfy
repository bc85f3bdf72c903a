/** The submissions of a course by group or by enrolment (database/gormdb_submissions.go:54-140).

    The library's sort is a parameter of which only this is known: it yields the same elements, ordered by
    the given key. Elements with equal keys may come in any order. */
module CourseResults {
  import opened Sequences

  datatype Submission = Submission(id: nat, assignment: nat, user: nat, group: nat)
  datatype Enrollment = Enrollment(id: nat, user: nat, group: nat)

  type Order = map<nat, int>
  type Sort = (seq<Submission>, Order) -> seq<Submission>
  type Results = map<nat, seq<Submission>>

  /** The order of an assignment; one that is not in the course counts as zero. */
  function OrderOf(order: Order, assignment: nat): int { if assignment in order then order[assignment] else 0 }

  ghost predicate Ordered(subs: seq<Submission>, order: Order) {
    forall i, j :: 0 <= i < j < |subs| ==> OrderOf(order, subs[i].assignment) <= OrderOf(order, subs[j].assignment)
  }

  ghost predicate Sorts(sort: Sort) {
    forall subs, order :: multiset(sort(subs, order)) == multiset(subs) && Ordered(sort(subs, order), order)
  }

  predicate ByUser(s: Submission, user: nat) { s.group == 0 && s.user > 0 && s.user == user }

  predicate ByGroup(s: Submission, group: nat) { s.user == 0 && s.group > 0 && s.group == group }

  function OfUser(user: nat): Submission -> bool { s => ByUser(s, user) }

  function OfGroup(group: nat): Submission -> bool { s => ByGroup(s, group) }

  function OfEither(user: nat, group: nat): Submission -> bool { s => ByUser(s, user) || ByGroup(s, group) }

  /** The chosen submissions are those that satisfy the condition, each as often as it is there, ordered by
      assignment. */
  ghost predicate Chosen(subs: seq<Submission>, order: Order, keep: Submission -> bool, chosen: seq<Submission>) {
    && Ordered(chosen, order)
    && forall s :: multiset(chosen)[s] == if keep(s) then multiset(subs)[s] else 0
  }

  lemma {:induction false} FilterCounts(keep: Submission -> bool, subs: seq<Submission>, s: Submission)
    ensures multiset(Filter(keep, subs))[s] == if keep(s) then multiset(subs)[s] else 0
  {
    if |subs| > 0 {
      FilterCounts(keep, subs[1..], s);
      assert subs == [subs[0]] + subs[1..];
    }
  }

  method Choose(subs: seq<Submission>, order: Order, keep: Submission -> bool, sort: Sort)
    returns (chosen: seq<Submission>)
    requires Sorts(sort)
    ensures Chosen(subs, order, keep, chosen)
  {
    chosen := [];
    for i := 0 to |subs|
      invariant chosen == Filter(keep, subs[..i])
    {
      FilterSnoc(keep, subs, i);
      if keep(subs[i]) {
        chosen := chosen + [subs[i]];
      }
    }
    assert subs[..|subs|] == subs;
    forall s ensures multiset(chosen)[s] == if keep(s) then multiset(subs)[s] else 0 {
      FilterCounts(keep, subs, s);
    }
    chosen := sort(chosen, order);
  }

  /** `newOrderMap`, of assignments given by ID and order. */
  function OrderMap(assignments: seq<(nat, int)>): Order {
    if |assignments| == 0 then map[]
    else
      var last := assignments[|assignments| - 1];
      OrderMap(assignments[..|assignments| - 1])[last.0 := last.1]
  }

  /** The last of the assignments with this ID. */
  ghost predicate LastWithId(assignments: seq<(nat, int)>, a: nat, i: nat) {
    i < |assignments| && assignments[i].0 == a && forall j :: i < j < |assignments| ==> assignments[j].0 != a
  }

  /** The order of an assignment is that of its last entry; without an entry it counts as zero. */
  lemma {:induction false} OrderMapHolds(assignments: seq<(nat, int)>, a: nat)
    ensures forall i: nat :: LastWithId(assignments, a, i) ==> OrderOf(OrderMap(assignments), a) == assignments[i].1
    ensures (forall i :: 0 <= i < |assignments| ==> assignments[i].0 != a) ==> OrderOf(OrderMap(assignments), a) == 0
  {
    if |assignments| > 0 {
      var front, last := assignments[..|assignments| - 1], assignments[|assignments| - 1];
      OrderMapHolds(front, a);
      if last.0 != a {
        forall i: nat ensures LastWithId(front, a, i) <==> LastWithId(assignments, a, i) {
          assert i < |front| ==> front[i] == assignments[i];
          assert forall j :: 0 <= j < |front| ==> front[j] == assignments[j];
        }
      }
    }
  }

  method NewOrderMap(assignments: seq<(nat, int)>) returns (order: Order)
    ensures order == OrderMap(assignments)
  {
    order := map[];
    for i := 0 to |assignments|
      invariant order == OrderMap(assignments[..i])
    {
      assert assignments[..i + 1][..i] == assignments[..i];
      order := order[assignments[i].0 := assignments[i].1];
    }
    assert assignments[..|assignments|] == assignments;
  }

  /** The groups of the given enrolments. */
  function GroupsOf(enrollments: seq<Enrollment>): set<nat> { set e | e in enrollments && e.group != 0 :: e.group }

  function IdsOf(enrollments: seq<Enrollment>): set<nat> { set e | e in enrollments :: e.id }

  method MakeGroupResults(enrollments: seq<Enrollment>, order: Order, subs: seq<Submission>, sort: Sort)
    returns (results: Results)
    requires Sorts(sort)
    ensures results.Keys == GroupsOf(enrollments)
    ensures forall g :: g in results <==> g != 0 && exists e :: e in enrollments && e.group == g
    ensures forall g :: g in results ==> Chosen(subs, order, OfGroup(g), results[g])
  {
    results := map[];
    var skipGroup: set<nat> := {0};
    for i := 0 to |enrollments|
      invariant skipGroup == results.Keys + {0}
      invariant results.Keys == GroupsOf(enrollments[..i])
      invariant forall g :: g in results ==> Chosen(subs, order, OfGroup(g), results[g])
    {
      assert enrollments[..i + 1] == enrollments[..i] + [enrollments[i]];
      var group := enrollments[i].group;
      if group in skipGroup {
        continue;
      }
      skipGroup := skipGroup + {group};
      var chosen := Choose(subs, order, OfGroup(group), sort);
      results := results[group := chosen];
    }
    assert enrollments[..|enrollments|] == enrollments;
  }

  ghost predicate DistinctIds(enrollments: seq<Enrollment>) {
    forall i, j :: 0 <= i < j < |enrollments| ==> enrollments[i].id != enrollments[j].id
  }

  method MakeUserResults(enrollments: seq<Enrollment>, order: Order, subs: seq<Submission>, sort: Sort)
    returns (results: Results)
    requires Sorts(sort) && DistinctIds(enrollments)
    ensures results.Keys == IdsOf(enrollments)
    ensures forall e :: e in enrollments ==> Chosen(subs, order, OfUser(e.user), results[e.id])
  {
    results := map[];
    for i := 0 to |enrollments|
      invariant results.Keys == IdsOf(enrollments[..i])
      invariant forall j :: 0 <= j < i ==> (
                  && enrollments[j].id in results
                  && Chosen(subs, order, OfUser(enrollments[j].user), results[enrollments[j].id]))
    {
      assert enrollments[..i + 1] == enrollments[..i] + [enrollments[i]];
      var chosen := Choose(subs, order, OfUser(enrollments[i].user), sort);
      results := results[enrollments[i].id := chosen];
    }
    assert enrollments[..|enrollments|] == enrollments;
  }

  method MakeAllResults(enrollments: seq<Enrollment>, order: Order, subs: seq<Submission>, sort: Sort)
    returns (results: Results)
    requires Sorts(sort) && DistinctIds(enrollments)
    ensures results.Keys == IdsOf(enrollments)
    ensures forall e :: e in enrollments ==> Chosen(subs, order, OfEither(e.user, e.group), results[e.id])
  {
    results := map[];
    for i := 0 to |enrollments|
      invariant results.Keys == IdsOf(enrollments[..i])
      invariant forall j :: 0 <= j < i ==> (
                  && enrollments[j].id in results
                  && Chosen(subs, order, OfEither(enrollments[j].user, enrollments[j].group),
                     results[enrollments[j].id]))
    {
      assert enrollments[..i + 1] == enrollments[..i] + [enrollments[i]];
      var chosen := Choose(subs, order, OfEither(enrollments[i].user, enrollments[i].group), sort);
      results := results[enrollments[i].id := chosen];
    }
    assert enrollments[..|enrollments|] == enrollments;
  }

  /** Among the groups a submission is listed once under its own group and under no other, however many
      members the group has; an individual submission is not listed. */
  lemma ListedUnderItsGroup(order: Order, subs: seq<Submission>, results: Results, i: nat, g: nat)
    requires forall g :: g in results ==> Chosen(subs, order, OfGroup(g), results[g])
    requires NoRepeats(subs) && i < |subs| && g in results
    ensures multiset(results[g])[subs[i]] == if subs[i].user == 0 && subs[i].group == g != 0 then 1 else 0
  {
    CountOnce(subs, i);
  }

  /** For an enrolment the submissions of its user are listed, each once, and no group submission. */
  lemma ListedUnderItsUser(order: Order, subs: seq<Submission>, enrollments: seq<Enrollment>, results: Results, i: nat,
                           e: Enrollment)
    requires forall e :: e in enrollments ==> e.id in results && Chosen(subs, order, OfUser(e.user), results[e.id])
    requires NoRepeats(subs) && i < |subs| && e in enrollments
    ensures multiset(results[e.id])[subs[i]] == if subs[i].group == 0 && subs[i].user == e.user != 0 then 1 else 0
  {
    CountOnce(subs, i);
  }

  /** Among all results an enrolment has, each once, the individual submissions of its user and the submissions of
      its group, and no others. */
  lemma ListedUnderUserOrGroup(order: Order, subs: seq<Submission>, enrollments: seq<Enrollment>, results: Results,
                               i: nat, e: Enrollment)
    requires forall e :: e in enrollments ==>
               e.id in results && Chosen(subs, order, OfEither(e.user, e.group), results[e.id])
    requires NoRepeats(subs) && i < |subs| && e in enrollments
    ensures multiset(results[e.id])[subs[i]] ==
            if subs[i].group == 0 && subs[i].user == e.user != 0 then 1
            else if subs[i].user == 0 && subs[i].group == e.group != 0 then 1
            else 0
  {
    CountOnce(subs, i);
  }

  lemma {:induction false} CountOnce(subs: seq<Submission>, i: nat)
    requires NoRepeats(subs) && i < |subs|
    ensures multiset(subs)[subs[i]] == 1
  {
    assert subs == [subs[0]] + subs[1..];
    if i > 0 {
      CountOnce(subs[1..], i - 1);
    } else {
      assert forall j :: 0 < j < |subs| ==> subs[j] != subs[0];
      assert subs[0] !in multiset(subs[1..]);
    }
  }

  /** Among all results an enrolment has the submissions of its user and those of its group, each as often
      as in the separate lists. */
  lemma EitherIsBoth(subs: seq<Submission>, order: Order, e: Enrollment, all: seq<Submission>, own: seq<Submission>,
                     shared: seq<Submission>)
    requires Chosen(subs, order, OfEither(e.user, e.group), all)
    requires Chosen(subs, order, OfUser(e.user), own) && Chosen(subs, order, OfGroup(e.group), shared)
    ensures multiset(all) == multiset(own) + multiset(shared)
  {
    forall s ensures multiset(all)[s] == (multiset(own) + multiset(shared))[s] {
      assert !(ByUser(s, e.user) && ByGroup(s, e.group));
    }
  }
}
